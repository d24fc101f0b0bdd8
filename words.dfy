/**
 * The integer types the digest works with and the `^` operator on `ulong`.
 * A `ulong` is modelled as a natural number below 2^64 and `^` as bitwise
 * exclusive or, defined one bit at a time from the least significant bit.
 */
module Words {

  /** A .NET `byte`. */
  type byte = x: nat | x < 0x100

  /** A .NET `ulong`. */
  type uint64 = x: nat | x < 0x1_0000_0000_0000_0000

  /** A .NET `uint`, the bit pattern of a 32-bit integer. */
  type uint32 = x: nat | x < 0x1_0000_0000

  /** A .NET `int`. */
  type int32 = x: int | -0x8000_0000 <= x < 0x8000_0000

  function Pow2(n: nat): (r: nat)
    ensures r > 0
  {
    if n == 0 then 1 else 2 * Pow2(n - 1)
  }

  /** Eight more bits multiply by 256. */
  lemma Pow2Byte(n: nat)
    ensures Pow2(n + 8) == 256 * Pow2(n)
  {
    assert Pow2(n + 8) == 2 * Pow2(n + 7) == 4 * Pow2(n + 6) == 8 * Pow2(n + 5) == 16 * Pow2(n + 4);
    assert Pow2(n + 4) == 2 * Pow2(n + 3) == 4 * Pow2(n + 2) == 8 * Pow2(n + 1) == 16 * Pow2(n);
  }

  lemma Pow2Of16()
    ensures Pow2(16) == 0x1_0000
  {
    Pow2Byte(0);
    Pow2Byte(8);
  }

  lemma Pow2Of32()
    ensures Pow2(32) == 0x1_0000_0000
  {
    Pow2Of16();
    Pow2Byte(16);
    Pow2Byte(24);
  }

  lemma Pow2Of48()
    ensures Pow2(48) == 0x1_0000_0000_0000
  {
    Pow2Of32();
    Pow2Byte(32);
    Pow2Byte(40);
  }

  lemma Pow2Of64()
    ensures Pow2(32) == 0x1_0000_0000
    ensures Pow2(64) == 0x1_0000_0000_0000_0000
  {
    Pow2Of32();
    Pow2Of48();
    Pow2Byte(48);
    Pow2Byte(56);
  }

  /** Bitwise exclusive or of two naturals. */
  function Xor(x: nat, y: nat): nat
    decreases x + y
  {
    if x == 0 && y == 0 then 0
    else 2 * Xor(x / 2, y / 2) + (if x % 2 == y % 2 then 0 else 1)
  }

  /** The lowest bit of x ^ y and the bits above it. */
  lemma XorBits(x: nat, y: nat)
    ensures Xor(x, y) % 2 == (if x % 2 == y % 2 then 0 else 1)
    ensures Xor(x, y) / 2 == Xor(x / 2, y / 2)
  {
  }

  /** Two naturals with the same lowest bit and the same bits above it are equal. */
  lemma SameBits(a: nat, b: nat)
    requires a % 2 == b % 2 && a / 2 == b / 2
    ensures a == b
  {
  }

  /** x ^ y has no more bits than its operands. */
  lemma {:induction false} XorBound(x: nat, y: nat, n: nat)
    requires x < Pow2(n) && y < Pow2(n)
    ensures Xor(x, y) < Pow2(n)
  {
    if n > 0 && !(x == 0 && y == 0) {
      XorBound(x / 2, y / 2, n - 1);
    }
  }

  lemma {:induction false} XorZero(x: nat)
    ensures Xor(x, 0) == x
    decreases x
  {
    if x != 0 {
      XorZero(x / 2);
    }
  }

  lemma {:induction false} XorSelf(x: nat)
    ensures Xor(x, x) == 0
    decreases x
  {
    if x != 0 {
      XorSelf(x / 2);
    }
  }

  lemma {:induction false} XorComm(x: nat, y: nat)
    ensures Xor(x, y) == Xor(y, x)
    decreases x + y
  {
    if !(x == 0 && y == 0) {
      XorComm(x / 2, y / 2);
    }
  }

  lemma {:induction false} XorAssoc(x: nat, y: nat, z: nat)
    ensures Xor(Xor(x, y), z) == Xor(x, Xor(y, z))
    decreases x + y + z
  {
    var l, r := Xor(Xor(x, y), z), Xor(x, Xor(y, z));
    XorBits(x, y);
    XorBits(y, z);
    XorBits(Xor(x, y), z);
    XorBits(x, Xor(y, z));
    if !(x == 0 && y == 0 && z == 0) {
      XorAssoc(x / 2, y / 2, z / 2);
    } else {
      XorZero(0);
    }
    SameBits(l, r);
  }

  /** `a ^ b` on two `ulong`s. */
  function Xor64(a: uint64, b: uint64): uint64
  {
    Pow2Of64();
    XorBound(a, b, 64);
    Xor(a, b)
  }

  /** Bit k of x (bit 0 is the least significant). */
  function Bit(x: nat, k: nat): (r: nat)
    ensures r < 2
  {
    if k == 0 then x % 2 else Bit(x / 2, k - 1)
  }

  /** Every bit of x ^ y is set exactly where the bits of x and y differ. */
  lemma {:induction false} XorBit(x: nat, y: nat, k: nat)
    ensures Bit(Xor(x, y), k) == (if Bit(x, k) == Bit(y, k) then 0 else 1)
  {
    XorBits(x, y);
    if k > 0 {
      XorBit(x / 2, y / 2, k - 1);
    }
  }

  /**
   * `a ^ b` on two `ulong`s is bitwise: each of its 64 bits is set exactly
   * where the bits of a and b differ. XORing either operand back in
   * recovers the other.
   */
  lemma Xor64Bitwise(a: uint64, b: uint64)
    ensures forall k: nat :: k < 64 ==> Bit(Xor64(a, b), k) == (if Bit(a, k) == Bit(b, k) then 0 else 1)
    ensures Xor64(Xor64(a, b), b) == a && Xor64(Xor64(a, b), a) == b
  {
    forall k: nat | k < 64
      ensures Bit(Xor64(a, b), k) == (if Bit(a, k) == Bit(b, k) then 0 else 1)
    {
      XorBit(a, b, k);
    }
    XorCancel(a, b);
  }

  /** (a ^ b) ^ b == a and (a ^ b) ^ a == b. */
  lemma XorCancel(a: nat, b: nat)
    ensures Xor(Xor(a, b), b) == a && Xor(Xor(a, b), a) == b
  {
    XorAssoc(a, b, b);
    XorSelf(b);
    XorZero(a);
    XorComm(a, b);
    XorAssoc(b, a, a);
    XorSelf(a);
    XorZero(b);
  }
}
