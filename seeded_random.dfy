/**
 * An explicitly seeded `System.Random` as the digest uses it: a generator
 * created from a seed hands out bytes one after another, and NextBytes fills
 * a buffer with the next bytes of that sequence. The generator's algorithm is
 * not modelled: the byte sequence of every seed is a parameter (a `Stream`).
 */
module SeededRandom {
  import opened Words

  /** stream(seed, n) is the n-th byte (from 0) a generator seeded with `seed` produces. */
  type Stream = (int32, nat) -> byte

  /** The count bytes a generator seeded with `seed` produces after its first `from`. */
  function Draw(stream: Stream, seed: int32, from: nat, count: nat): seq<byte>
  {
    seq(count, (k: nat) => stream(seed, from + k))
  }

  /** `new Random(seed)`: its output depends on the seed alone. */
  class Random {
    const stream: Stream
    const seed: int32
    /** How many bytes this generator has handed out so far. */
    var drawn: nat

    constructor (stream: Stream, seed: int32)
      ensures this.stream == stream && this.seed == seed
      ensures drawn == 0
    {
      this.stream := stream;
      this.seed := seed;
      drawn := 0;
    }

    /** Fills buffer with the next buffer.Length bytes of this generator. */
    method NextBytes(buffer: array<byte>)
      modifies this, buffer
      ensures drawn == old(drawn) + buffer.Length
      ensures buffer[..] == Draw(stream, seed, old(drawn), buffer.Length)
    {
      forall k | 0 <= k < buffer.Length {
        buffer[k] := stream(seed, drawn + k);
      }
      drawn := drawn + buffer.Length;
    }
  }
}
