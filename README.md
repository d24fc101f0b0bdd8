# BrunoHash in Dafny

A model of the BrunoHash 256-bit digest from the FastHash repository, with
proofs about it. The digest appears twice in the C# code, with the same
steps each time: `Program.GetBrunoHash(ref byte[] data)` and the library
copy `BrunoHash.GetBrunoHash(byte[] data)`. Both do the following:

1. They replace a null input by an empty array.
2. They copy the input into a buffer 32 bytes longer, whose tail is zero.
3. They XOR every 32-byte chunk, read as four little-endian `ulong` words,
   into the accumulators `p1..p4`.
4. They split each accumulator into its upper and lower 32 bits, read as
   signed `int` seeds. This gives eight seeds.
5. For each seed, a freshly seeded `System.Random` fills four 8-byte
   buffers. These buffers are XORed into `p1..p4`.
6. They return `p1..p4` as 32 little-endian bytes.

The model has these parts:

- `Words` (words.dfy): the integer types. `ulong` is a natural below
  2^64, and `^` is a bitwise XOR on naturals. The file proves XOR's
  algebra and that XOR stays below 2^64.
- `BitConverter` (bit_converter.dfy): the little-endian
  `ToUInt64`/`ToInt32`/`GetBytes` conversions, with their round trips.
- `SeededRandom` (seeded_random.dfy): a class for the explicitly seeded
  generator. Its byte stream is a parameter, described below.
- `DigestSpec` (digest_spec.dfy): the digest as functions of the input
  bytes. It gives a reference definition for each loop, and lemmas
  connecting the loops to those definitions and to their consequences.
- `HashSteps` (hash_steps.dfy): the steps both C# methods take, as methods
  over arrays. They are the copy, the fold loop, the seed writes, the
  mixing loop and the final concatenation. `FastHash/BrunoHash.cs` repeats
  them at lines 24-25, 27-33, 35-42, 44-55 and 57-62.
- `Program` and `BrunoHash` (program.dfy, bruno_hash.dfy): the two entry
  points, each calling those steps in its own order.

### What the proofs show about the code

- Chunk order does not matter. The fold is an XOR of chunks, so swapping two
  whole chunks leaves the digest unchanged, wherever they sit in the input.
  More generally, any two blocks of whole chunks, each starting at a
  multiple of 32, can be swapped.
- Appended zero bytes do not matter. The short last chunk is zero-extended,
  so appending zero bytes leaves the digest unchanged.
- An input whose chunks XOR to zero gets the all-zero digest, whatever the
  generator is. Examples are the empty input, a null input and any chunk
  repeated twice. In that case all four accumulators are 0, so all eight
  seeds are 0. The eight mixing rounds then XOR the same four blocks in
  eight times, and an even number of equal blocks cancels.

So the digest of the empty input is 32 zero bytes. It is not a constant that
depends on the generator.

A null input behaves differently in the two versions.
- `Program.GetBrunoHash` takes its input by `ref`, so the caller's variable
  afterwards holds a new empty array. That is a side effect beyond the
  return value, and the model states it.
- `BrunoHash.GetBrunoHash` takes its input by value, so the replacement is
  local.
Neither version ever writes the input's bytes.

The generator is a parameter: `stream(seed, n)` is the n-th byte that
`new Random(seed)` hands out. Every statement is proved for all streams, so
it holds whatever the .NET generator actually computes.

## Model

| member | source | states |
|---|---|---|
| Words.XorBound | FastHash/Program.cs:52-55 | XOR of two values below 2^n is below 2^n, so `^` on two `ulong`s stays a `ulong` |
| Words.XorAssoc | FastHash/Program.cs:85-88 | `^` is associative, so the accumulators can be regrouped |
| Words.XorComm | FastHash/Program.cs:85-88 | `^` is commutative |
| Words.XorSelf | FastHash/Program.cs:85-88 | x ^ x == 0: a value XORed in twice cancels |
| Words.XorZero | FastHash/Program.cs:49 | 0 is the identity of `^`, so the accumulators start neutral |
| Words.XorBit | FastHash/Program.cs:52-55 | bit k of x ^ y is set exactly where bit k of x and bit k of y differ, for every k |
| Words.Xor64Bitwise | FastHash/Program.cs:85-88 | `Xor64`, the `ulong ^`, is bitwise: each of its 64 bits is set exactly where the operands' bits differ. XORing either operand back into the result recovers the other |
| BitConverter.ToUInt64Places | FastHash/Program.cs:52-55 | `ToUInt64(s, i)` is the 8 bytes at i read least significant first: byte s[i + k] weighs 256^k. It is defined only when the read lies inside s (i + 8 <= length) |
| BitConverter.ToInt32Places | FastHash/Program.cs:66-73 | `ToInt32(s, i)` is the 4 bytes at i read least significant first as a two's-complement integer. It is negative exactly when the top bit of s[i + 3] is set, and then it is the unsigned reading minus 2^32 |
| BitConverter.LittleEndianOfBytes | FastHash/Program.cs:91 | writing a word below 2^(8n) as n little-endian bytes and reading them back gives the word |
| BitConverter.BytesOfLittleEndian | FastHash/Program.cs:52-55 | reading n bytes as a little-endian number and writing it back gives the same bytes |
| BitConverter.GetBytes | FastHash/Program.cs:91 | `GetBytes(w)` is 8 bytes, and `ToUInt64` of them at offset 0 is w |
| BitConverter.GetBytesOfToUInt64 | FastHash/Program.cs:52-55 | `GetBytes(ToUInt64(s, i))` is exactly the 8 bytes s[i..i+8] |
| BitConverter.ToInt32OfGetBytes | FastHash/Program.cs:66-73 | `ToInt32` of `GetBytes(w)` at offset 4 is the upper 32 bits of w, at offset 0 the lower 32 bits, each as a signed int |
| SeededRandom.Random.constructor | FastHash/Program.cs:80 | a new generator is keyed by its seed and has handed out no bytes yet |
| SeededRandom.Random.NextBytes | FastHash/Program.cs:81-84 | the buffer receives the generator's next buffer.Length bytes, and the position moves past them |
| DigestSpec.AccXorAssoc | FastHash/Program.cs:85-88 | lane-wise XOR of the four accumulators is associative |
| DigestSpec.AccXorSelf | FastHash/Program.cs:85-88 | XORing the same four words in twice cancels |
| DigestSpec.Pad | FastHash/Program.cs:47-48 | the working buffer is len + 32 bytes, starts with the input, and ends in zeros |
| DigestSpec.NumChunks | FastHash/Program.cs:50 | the fold loop's round count n = ceil(len / 32): 32n >= len, and 32(n-1) < len when n > 0 |
| DigestSpec.FoldPrefixIsFoldChunks | FastHash/Program.cs:49-56 | NumChunks rounds over the padded buffer give the XOR of the input's 32-byte chunks, the last one zero-extended |
| DigestSpec.UnseedSeeds | FastHash/Program.cs:66-73 | the eight seeds lose nothing: joining each upper/lower pair rebuilds p1..p4 |
| DigestSpec.MixIsKeystream | FastHash/Program.cs:78-89 | the mixing rounds XOR into the accumulators the XOR of every seed's four blocks |
| DigestSpec.KeystreamOfRepeatedSeed | FastHash/Program.cs:78-89 | an even number of rounds with the same seed contributes nothing |
| DigestSpec.Emit | FastHash/Program.cs:91 | the output is 32 bytes, and reading its four words back gives p1..p4 |
| DigestSpec.EmitChunkAt | FastHash/Program.cs:91 | every 32-byte string is the output of the words read back from it |
| DigestSpec.Digest | FastHash/Program.cs:43-92 | the digest is always 32 bytes |
| DigestSpec.DigestWords | FastHash/Program.cs:43-92 | read back as words, the digest is the chunk fold XOR the blocks of the eight seeds derived from that fold |
| DigestSpec.ZeroFoldDigest | FastHash/Program.cs:58-89 | an input whose chunks XOR to zero hashes to 32 zero bytes, for every generator |
| DigestSpec.EmptyDigest | FastHash/Program.cs:45-46 | the empty input (and so null) hashes to 32 zero bytes |
| DigestSpec.RepeatedChunkFold | FastHash/Program.cs:50-56 | a 32-byte chunk repeated twice folds to zero |
| DigestSpec.RepeatedChunkDigest | FastHash/Program.cs:50-56 | a 32-byte chunk repeated twice has the empty input's digest |
| DigestSpec.FoldChunksTrailingZero | FastHash/Program.cs:47-56 | appending a zero byte leaves the fold unchanged |
| DigestSpec.TrailingZeroDigest | FastHash/Program.cs:47-56 | appending a zero byte leaves the digest unchanged |
| DigestSpec.ZeroSuffixDigest | FastHash/Program.cs:47-56 | appending any number of zero bytes leaves the digest unchanged |
| DigestSpec.FoldChunksAppend | FastHash/Program.cs:50-56 | when the first part is a whole number of chunks, the fold of a concatenation is the XOR of the folds of its parts |
| DigestSpec.SwapChunksFold | FastHash/Program.cs:50-56 | in pre + a + mid + b + rest, with pre, a, mid and b each a whole number of chunks, swapping a and b leaves the fold unchanged |
| DigestSpec.SwapChunksDigest | FastHash/Program.cs:50-56 | swapping any two chunk-aligned blocks a and b of whole chunks, anywhere in the input, leaves the digest unchanged |
| HashSteps.CopyPadded | FastHash/Program.cs:47-48 | the fresh working buffer is the input followed by 32 zero bytes |
| HashSteps.FoldLoop | FastHash/Program.cs:49-56 | reads stay inside the buffer; the loop makes NumChunks(len) rounds and leaves p1..p4 equal to the chunk fold |
| HashSteps.HalfOffsets | FastHash/Program.cs:59-65 | st1 = 4 and st2 = 0 on a little-endian host, st1 = 0 and st2 = 4 otherwise |
| HashSteps.FillSeeds | FastHash/Program.cs:66-73 | seeds[2k] and seeds[2k+1] are the signed upper and lower halves of p(k+1), in the order p1..p4 |
| HashSteps.MixLoop | FastHash/Program.cs:78-89 | with the seeds left untouched, the accumulators end as Mix of the seeds: each seed's fresh generator hands out bytes 0-31, read as four words. Afterwards br1..br4 hold bytes 0-7, 8-15, 16-23 and 24-31 of the last seed's generator |
| HashSteps.EmitBytes | FastHash/Program.cs:91 | the returned fresh array holds p1, p2, p3, p4 as little-endian bytes in that order |
| Program.GetBrunoHash | FastHash/Program.cs:43-92 | returns a fresh 32-byte digest of the input. The caller's `ref` variable keeps a non-null input, unchanged, and gets a fresh empty array in place of null |
| BrunoHash.GetBrunoHash | FastHash/BrunoHash.cs:9-63 | returns a fresh 32-byte digest of the input, hashing null as empty and leaving the input unchanged |
| BrunoHash.AgreesWithProgram | FastHash/BrunoHash.cs:9-63 | the library and console versions return equal digests for every input, null included, and the console version leaves the caller holding the input's bytes, or no bytes for null |

## Left out

- `Program.Main` (FastHash/Program.cs:11-35) is a benchmark: wall-clock
  timing, console output and a randomly filled buffer. None of it is
  modelled.
- `Program.GetHash` (FastHash/Program.cs:94-98) wraps the platform's
  SHA-256 and is not part of this model.
- The .NET `Random` algorithm is not modelled. Each seed's byte sequence is
  the `stream` parameter, and no statement depends on its values. The model
  also does not claim byte compatibility with any particular runtime.
- The host byte order is fixed as little-endian (`IsLittleEndian` is the
  constant `true`). The big-endian branch of the offset choice is kept as
  code but never runs, and nothing is claimed about big-endian hosts.
- HashSteps.FillSeeds: requires the little-endian offsets st1 = 4 and st2 = 0
  that HalfOffsets produces. It is not stated for other offsets.
- FastHash/BrunoHash.cs:16-17 declares `st1` and `st2` as `const` over
  `BitConverter.IsLittleEndian`. That is not a compile-time constant, so
  those lines do not compile as written. The model computes the offsets at
  run time, as FastHash/Program.cs:59-65 does.
- `ulong` XOR is modelled as a bitwise XOR on naturals below 2^64, which
  never leaves that range. No wrap-around is needed.
- Array lengths are unbounded naturals. The .NET limit on array sizes, and
  the allocation failure a buffer of `data.Length + 32` bytes could hit, are
  not modelled.
- The statistical claims about collision rates and suitability for
  cryptography are not properties of the code and are not stated.
  Concurrency is not modelled: the routine has none, and callers that run it
  in parallel are outside the model.
