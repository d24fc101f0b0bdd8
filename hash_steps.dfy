/**
 * The five steps both GetBrunoHash implementations take, each over the
 * arrays the code allocates: copy the input into a zero-padded buffer, fold
 * its chunks into p1..p4, split p1..p4 into eight seeds, XOR in four
 * generator blocks per seed, and emit p1..p4 as bytes.
 */
module HashSteps {
  import opened Words
  import opened BitConverter
  import opened SeededRandom
  import opened DigestSpec

  /** A fresh buffer 32 bytes longer than data, holding a copy of data and zeros after it. */
  method CopyPadded(data: array<byte>) returns (newData: array<byte>)
    ensures fresh(newData)
    ensures newData[..] == Pad(data[..])
  {
    newData := new byte[data.Length + 32](_ => 0);
    forall k | 0 <= k < data.Length {
      newData[k] := data[k];
    }
    assert newData[..] == data[..] + Zeros(32);
  }

  /**
   * The fold loop: for every i = 0, 32, 64, ... below length, XOR the four
   * words at newData[i..i+32] into p1..p4. The bytes past length are the
   * padding; every read stays inside newData, and the loop makes
   * NumChunks(length) rounds (`rounds` counts them).
   */
  method FoldLoop(newData: array<byte>, length: nat)
    returns (p1: uint64, p2: uint64, p3: uint64, p4: uint64, ghost rounds: nat)
    requires newData.Length == length + 32
    requires newData[..] == Pad(newData[..length])
    ensures Acc(p1, p2, p3, p4) == FoldChunks(newData[..length])
    ensures rounds == NumChunks(length)
  {
    ghost var padded := newData[..];
    p1, p2, p3, p4 := 0, 0, 0, 0;
    var i := 0;
    ghost var n := 0;
    while i < length
      invariant i == 32 * n && n <= NumChunks(length)
      invariant Acc(p1, p2, p3, p4) == FoldPrefix(padded, n)
    {
      NumChunksStep(length, n);
      assert newData[..] == padded;
      FoldPrefixStep(padded, n, i);
      p1 := Xor64(p1, ToUInt64(newData[..], i));
      p2 := Xor64(p2, ToUInt64(newData[..], i + 8));
      p3 := Xor64(p3, ToUInt64(newData[..], i + 16));
      p4 := Xor64(p4, ToUInt64(newData[..], i + 24));
      i, n := i + 32, n + 1;
    }
    NumChunksExit(length, n);
    FoldPrefixIsFoldChunks(newData[..length]);
    rounds := n;
  }

  /** A round that starts below length ends within the padded buffer and within NumChunks rounds. */
  lemma NumChunksStep(length: nat, n: nat)
    requires 32 * n < length
    ensures n + 1 <= NumChunks(length) && 32 * n + 32 <= length + 32
  {
  }

  /** The loop stops after exactly NumChunks rounds. */
  lemma NumChunksExit(length: nat, n: nat)
    requires 32 * n >= length && n <= NumChunks(length)
    ensures n == NumChunks(length)
  {
  }

  /** One round of the fold loop XORs in the four words of the next chunk. */
  lemma FoldPrefixStep(buf: seq<byte>, n: nat, i: nat)
    requires i == 32 * n && i + 32 <= |buf|
    ensures FoldPrefix(buf, n + 1)
         == FoldPrefix(buf, n).Xor(Acc(ToUInt64(buf, i), ToUInt64(buf, i + 8),
                                       ToUInt64(buf, i + 16), ToUInt64(buf, i + 24)))
  {
  }

  /**
   * The offsets of the upper (st1) and the lower (st2) half of a word in its
   * GetBytes encoding: 4 and 0 on a little-endian host, 0 and 4 otherwise.
   */
  method HalfOffsets(littleEndian: bool) returns (st1: nat, st2: nat)
    ensures littleEndian ==> st1 == 4 && st2 == 0
    ensures !littleEndian ==> st1 == 0 && st2 == 4
  {
    st1, st2 := 0, 4;
    if littleEndian {
      st1, st2 := 4, 0;
    }
  }

  /** seeds[2k] and seeds[2k+1] are the upper and lower halves of the k-th accumulator. */
  method FillSeeds(seeds: array<int32>, st1: nat, st2: nat, p1: uint64, p2: uint64, p3: uint64, p4: uint64)
    requires seeds.Length == 8 && st1 == 4 && st2 == 0
    modifies seeds
    ensures seeds[..] == Seeds(Acc(p1, p2, p3, p4))
  {
    ToInt32OfGetBytes(p1);
    ToInt32OfGetBytes(p2);
    ToInt32OfGetBytes(p3);
    ToInt32OfGetBytes(p4);
    seeds[0] := ToInt32(GetBytes(p1), st1);
    seeds[1] := ToInt32(GetBytes(p1), st2);
    seeds[2] := ToInt32(GetBytes(p2), st1);
    seeds[3] := ToInt32(GetBytes(p2), st2);
    seeds[4] := ToInt32(GetBytes(p3), st1);
    seeds[5] := ToInt32(GetBytes(p3), st2);
    seeds[6] := ToInt32(GetBytes(p4), st1);
    seeds[7] := ToInt32(GetBytes(p4), st2);
  }

  /**
   * The mixing loop: for each seed in order, a fresh generator fills
   * br1..br4 and their words are XORed into p1..p4.
   */
  method MixLoop(seeds: array<int32>, p1: uint64, p2: uint64, p3: uint64, p4: uint64,
                 br1: array<byte>, br2: array<byte>, br3: array<byte>, br4: array<byte>, stream: Stream)
    returns (q1: uint64, q2: uint64, q3: uint64, q4: uint64)
    requires br1.Length == 8 && br2.Length == 8 && br3.Length == 8 && br4.Length == 8
    requires br1 != br2 && br1 != br3 && br1 != br4 && br2 != br3 && br2 != br4 && br3 != br4
    modifies br1, br2, br3, br4
    ensures Acc(q1, q2, q3, q4) == Mix(Acc(p1, p2, p3, p4), seeds[..], stream)
    ensures seeds.Length > 0 ==> LastBlocks(br1, br2, br3, br4, stream, seeds[seeds.Length - 1])
  {
    q1, q2, q3, q4 := p1, p2, p3, p4;
    for j := 0 to seeds.Length
      invariant Acc(q1, q2, q3, q4) == Mix(Acc(p1, p2, p3, p4), seeds[..j], stream)
      invariant j > 0 ==> LastBlocks(br1, br2, br3, br4, stream, seeds[j - 1])
    {
      var rnd := new Random(stream, seeds[j]);
      rnd.NextBytes(br1);
      rnd.NextBytes(br2);
      rnd.NextBytes(br3);
      rnd.NextBytes(br4);
      q1 := Xor64(q1, ToUInt64(br1[..], 0));
      q2 := Xor64(q2, ToUInt64(br2[..], 0));
      q3 := Xor64(q3, ToUInt64(br3[..], 0));
      q4 := Xor64(q4, ToUInt64(br4[..], 0));
      assert seeds[..j + 1][..j] == seeds[..j];
    }
    assert seeds[..seeds.Length] == seeds[..];
  }

  /** br1..br4 hold bytes 0-7, 8-15, 16-23 and 24-31 of the generator seeded with seed. */
  ghost predicate LastBlocks(br1: array<byte>, br2: array<byte>, br3: array<byte>, br4: array<byte>,
                             stream: Stream, seed: int32)
    reads br1, br2, br3, br4
  {
    br1[..] == Draw(stream, seed, 0, 8) && br2[..] == Draw(stream, seed, 8, 8)
    && br3[..] == Draw(stream, seed, 16, 8) && br4[..] == Draw(stream, seed, 24, 8)
  }

  /** A fresh array holding the 8-byte encodings of p1, p2, p3 and p4, concatenated in that order. */
  method EmitBytes(p1: uint64, p2: uint64, p3: uint64, p4: uint64) returns (hash: array<byte>)
    ensures fresh(hash)
    ensures hash[..] == Emit(Acc(p1, p2, p3, p4))
  {
    var bytes := GetBytes(p1) + GetBytes(p2) + GetBytes(p3) + GetBytes(p4);
    hash := new byte[|bytes|](k requires 0 <= k < |bytes| => bytes[k]);
  }
}
