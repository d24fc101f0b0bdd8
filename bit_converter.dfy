/**
 * The parts of .NET's BitConverter that the digest uses, on a little-endian
 * host: reading an unsigned 64-bit or a signed 32-bit integer out of a byte
 * buffer at an offset, and writing a 64-bit integer as its 8 bytes.
 */
module BitConverter {
  import opened Words

  /** BitConverter.IsLittleEndian: the model fixes a little-endian host. */
  const IsLittleEndian: bool := true

  /** The value of a byte string read least significant byte first. */
  function LittleEndian(s: seq<byte>): nat
  {
    if s == [] then 0 else s[0] + 256 * LittleEndian(s[1..])
  }

  /** n bytes hold a value below 2^(8n). */
  lemma {:induction false} LittleEndianBound(s: seq<byte>)
    ensures LittleEndian(s) < Pow2(8 * |s|)
  {
    if s != [] {
      LittleEndianBound(s[1..]);
      Pow2Byte(8 * (|s| - 1));
    }
  }

  /** The first k bytes give the low 8k bits, the rest the bits above them. */
  lemma {:induction false} LittleEndianSplit(s: seq<byte>, k: nat)
    requires k <= |s|
    ensures LittleEndian(s) == LittleEndian(s[..k]) + Pow2(8 * k) * LittleEndian(s[k..])
  {
    if k > 0 {
      var t := s[1..];
      LittleEndianSplit(t, k - 1);
      assert s[..k][1..] == t[..k - 1];
      assert t[k - 1..] == s[k..];
      Pow2Byte(8 * (k - 1));
      var p, x, lo := Pow2(8 * (k - 1)), LittleEndian(s[k..]), LittleEndian(t[..k - 1]);
      assert LittleEndian(t) == lo + p * x;
      assert LittleEndian(s[..k]) == s[0] + 256 * lo;
      assert Pow2(8 * k) == 256 * p;
      MulAssoc256(p, x);
    }
  }

  lemma MulAssoc256(p: nat, x: nat)
    ensures 256 * (p * x) == (256 * p) * x
  {
  }

  /**
   * BitConverter.ToUInt64(s, i): the 8 bytes at offset i, least significant
   * first. The read must lie inside s (.NET throws otherwise).
   */
  function ToUInt64(s: seq<byte>, i: nat): uint64
    requires i + 8 <= |s|
  {
    LittleEndianBound(s[i..i + 8]);
    Pow2Of64();
    LittleEndian(s[i..i + 8])
  }

  /** ToUInt64 weighs byte s[i + k] by 256^k: s[i] is the least significant byte, s[i + 7] the most. */
  lemma ToUInt64Places(s: seq<byte>, i: nat)
    requires i + 8 <= |s|
    ensures ToUInt64(s, i)
         == (s[i] as int) + 0x100 * (s[i + 1] as int) + 0x1_0000 * (s[i + 2] as int) + 0x100_0000 * (s[i + 3] as int)
            + 0x1_0000_0000 * (s[i + 4] as int) + 0x100_0000_0000 * (s[i + 5] as int)
            + 0x1_0000_0000_0000 * (s[i + 6] as int) + 0x100_0000_0000_0000 * (s[i + 7] as int)
  {
    var t := s[i..i + 8];
    LittleEndianEight(t);
    assert t[0] == s[i] && t[1] == s[i + 1] && t[2] == s[i + 2] && t[3] == s[i + 3];
    assert t[4] == s[i + 4] && t[5] == s[i + 5] && t[6] == s[i + 6] && t[7] == s[i + 7];
  }

  /** The 4 bytes at offset i, least significant first. */
  function ToUInt32(s: seq<byte>, i: nat): uint32
    requires i + 4 <= |s|
  {
    LittleEndianBound(s[i..i + 4]);
    Pow2Of32();
    LittleEndian(s[i..i + 4])
  }

  /** Four bytes, least significant first, as a sum of place values. */
  lemma LittleEndianFour(t: seq<byte>)
    requires |t| == 4
    ensures LittleEndian(t) == (t[0] as int) + 0x100 * (t[1] as int) + 0x1_0000 * (t[2] as int) + 0x100_0000 * (t[3] as int)
  {
    var t1 := t[1..];
    var t2 := t1[1..];
    var t3 := t2[1..];
    assert t3[1..] == [];
    assert LittleEndian(t3) == t[3] as int;
    assert LittleEndian(t2) == t[2] as int + 256 * LittleEndian(t3);
    assert LittleEndian(t1) == t[1] as int + 256 * LittleEndian(t2);
  }

  /** Eight bytes, least significant first, as the low four plus 2^32 times the high four. */
  lemma LittleEndianEight(t: seq<byte>)
    requires |t| == 8
    ensures LittleEndian(t) == (t[0] as int) + 0x100 * (t[1] as int) + 0x1_0000 * (t[2] as int) + 0x100_0000 * (t[3] as int)
                 + 0x1_0000_0000 * (t[4] as int) + 0x100_0000_0000 * (t[5] as int)
                 + 0x1_0000_0000_0000 * (t[6] as int) + 0x100_0000_0000_0000 * (t[7] as int)
  {
    var lo, hi := t[..4], t[4..];
    LittleEndianSplit(t, 4);
    Pow2Of32();
    LittleEndianFour(lo);
    LittleEndianFour(hi);
    assert lo[0] == t[0] && lo[1] == t[1] && lo[2] == t[2] && lo[3] == t[3];
    assert hi[0] == t[4] && hi[1] == t[5] && hi[2] == t[6] && hi[3] == t[7];
  }

  /** Two's-complement reading of a 32-bit pattern. */
  function AsSigned(u: uint32): int32
  {
    if u < 0x8000_0000 then u else u - 0x1_0000_0000
  }

  /** The 32-bit pattern of a signed integer. */
  function AsUnsigned(x: int32): uint32
  {
    if x >= 0 then x else x + 0x1_0000_0000
  }

  /** BitConverter.ToInt32(s, i): the 4 bytes at offset i as a signed integer. */
  function ToInt32(s: seq<byte>, i: nat): int32
    requires i + 4 <= |s|
  {
    AsSigned(ToUInt32(s, i))
  }

  /**
   * ToInt32 reads s[i..i + 4] least significant byte first as a
   * two's-complement integer: the top bit of the last byte s[i + 3] is the
   * sign, and a negative result is the unsigned reading minus 2^32.
   */
  lemma ToInt32Places(s: seq<byte>, i: nat)
    requires i + 4 <= |s|
    ensures ToInt32(s, i)
         == (s[i] as int) + 0x100 * (s[i + 1] as int) + 0x1_0000 * (s[i + 2] as int) + 0x100_0000 * (s[i + 3] as int)
            - (if s[i + 3] >= 0x80 then 0x1_0000_0000 else 0)
    ensures ToInt32(s, i) < 0 <==> s[i + 3] >= 0x80
  {
    var t := s[i..i + 4];
    LittleEndianFour(t);
    assert t[0] == s[i] && t[1] == s[i + 1] && t[2] == s[i + 2] && t[3] == s[i + 3];
  }

  /** The n lowest bytes of w, least significant first. */
  function LittleEndianBytes(w: nat, n: nat): (r: seq<byte>)
    ensures |r| == n
  {
    if n == 0 then [] else [w % 256] + LittleEndianBytes(w / 256, n - 1)
  }

  /** Encoding a value that fits in n bytes and decoding it gives it back. */
  lemma {:induction false} LittleEndianOfBytes(w: nat, n: nat)
    requires w < Pow2(8 * n)
    ensures LittleEndian(LittleEndianBytes(w, n)) == w
  {
    if n > 0 {
      Pow2Byte(8 * (n - 1));
      LittleEndianOfBytes(w / 256, n - 1);
      assert LittleEndianBytes(w, n)[1..] == LittleEndianBytes(w / 256, n - 1);
    }
  }

  /** Decoding bytes and encoding the value in as many bytes gives them back. */
  lemma {:induction false} BytesOfLittleEndian(s: seq<byte>)
    ensures LittleEndianBytes(LittleEndian(s), |s|) == s
  {
    if s != [] {
      BytesOfLittleEndian(s[1..]);
      var v := LittleEndian(s);
      assert v % 256 == s[0] && v / 256 == LittleEndian(s[1..]);
    }
  }

  /** BitConverter.GetBytes(w): the 8 bytes of w, least significant first. */
  function GetBytes(w: uint64): (r: seq<byte>)
    ensures |r| == 8
    ensures ToUInt64(r, 0) == w
  {
    var r := LittleEndianBytes(w, 8);
    Pow2Of64();
    LittleEndianOfBytes(w, 8);
    assert r[0..8] == r;
    r
  }

  /** Decoding 8 bytes and encoding the word again gives back the same bytes. */
  lemma GetBytesOfToUInt64(s: seq<byte>, i: nat)
    requires i + 8 <= |s|
    ensures GetBytes(ToUInt64(s, i)) == s[i..i + 8]
  {
    BytesOfLittleEndian(s[i..i + 8]);
  }

  /**
   * On a little-endian host, ToInt32 at offset 4 of a word's bytes reads its
   * upper 32 bits and at offset 0 its lower 32 bits, as signed integers.
   */
  lemma ToInt32OfGetBytes(w: uint64)
    ensures ToInt32(GetBytes(w), 4) == AsSigned(w / 0x1_0000_0000)
    ensures ToInt32(GetBytes(w), 0) == AsSigned(w % 0x1_0000_0000)
  {
    var s := GetBytes(w);
    WordHalves(s);
    HalvesOfWord(w, LittleEndian(s[0..4]), LittleEndian(s[4..8]));
  }

  /** Eight bytes read as one word are their lower four bytes plus 2^32 times the upper four. */
  lemma WordHalves(s: seq<byte>)
    requires |s| == 8
    ensures ToUInt64(s, 0) == LittleEndian(s[0..4]) + 0x1_0000_0000 * LittleEndian(s[4..8])
    ensures LittleEndian(s[0..4]) < 0x1_0000_0000
  {
    assert s[0..8] == s;
    LittleEndianSplit(s, 4);
    LittleEndianBound(s[..4]);
    Pow2Of32();
    assert s[4..8] == s[4..] && s[0..4] == s[..4];
  }

  /** The quotient and remainder by 2^32 of lo + 2^32 * hi, for lo below 2^32. */
  lemma HalvesOfWord(w: nat, lo: nat, hi: nat)
    requires w == lo + 0x1_0000_0000 * hi && lo < 0x1_0000_0000
    ensures w / 0x1_0000_0000 == hi && w % 0x1_0000_0000 == lo
  {
  }
}
