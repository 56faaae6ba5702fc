/**
 * Python's bitwise operators as the JT/T 808 code uses them: `a ^ b` on two
 * bytes for the check code, `x | flag` to raise a one-bit flag in the body
 * attributes and the location status, and `x & flag` to test one.
 */
module Bits {

  import opened Packing

  /** `2^k`. */
  function Pow2(k: nat): (r: nat)
    ensures r >= 1
  {
    if k == 0 then 1 else 2 * Pow2(k - 1)
  }

  /** The exclusive or of the lowest bits of `a` and `b`. */
  function XorBit(a: nat, b: nat): (r: nat)
    ensures r < 2
  {
    if a % 2 == b % 2 then 0 else 1
  }

  /** The exclusive or of the low `k` bits of `a` and `b`, lowest bit first. */
  function XorBits(a: nat, b: nat, k: nat): (r: nat)
    ensures r < Pow2(k)
  {
    if k == 0 then 0 else XorBit(a, b) + 2 * XorBits(a / 2, b / 2, k - 1)
  }

  /** `a ^ b` on two bytes. */
  function Xor(a: byte, b: byte): byte
  {
    assert Pow2(8) == 256;
    XorBits(a, b, 8)
  }

  /** The lowest bit of an exclusive or, and the bits above it. */
  lemma XorBitsStep(a: nat, b: nat, k: nat)
    requires k > 0
    ensures XorBits(a, b, k) % 2 == XorBit(a, b)
    ensures XorBits(a, b, k) / 2 == XorBits(a / 2, b / 2, k - 1)
  {
    var bit, y := XorBit(a, b), XorBits(a / 2, b / 2, k - 1);
    assert (bit + 2 * y) % 2 == bit && (bit + 2 * y) / 2 == y;
  }

  lemma {:induction false} XorBitsZero(a: nat, k: nat)
    requires a < Pow2(k)
    ensures XorBits(a, 0, k) == a && XorBits(0, a, k) == a
  {
    if k > 0 {
      XorBitsZero(a / 2, k - 1);
    }
  }

  lemma {:induction false} XorBitsCommutes(a: nat, b: nat, k: nat)
    ensures XorBits(a, b, k) == XorBits(b, a, k)
  {
    if k > 0 {
      XorBitsCommutes(a / 2, b / 2, k - 1);
    }
  }

  lemma {:induction false} XorBitsSelf(a: nat, k: nat)
    ensures XorBits(a, a, k) == 0
  {
    if k > 0 {
      XorBitsSelf(a / 2, k - 1);
    }
  }

  lemma {:induction false} XorBitsAssociates(a: nat, b: nat, c: nat, k: nat)
    ensures XorBits(XorBits(a, b, k), c, k) == XorBits(a, XorBits(b, c, k), k)
  {
    if k > 0 {
      var x, y := XorBits(a, b, k), XorBits(b, c, k);
      XorBitsStep(a, b, k);
      XorBitsStep(b, c, k);
      XorBitsAssociates(a / 2, b / 2, c / 2, k - 1);
      assert XorBit(x, c) == XorBit(a, y);
    }
  }

  lemma XorZero(a: byte)
    ensures Xor(a, 0) == a && Xor(0, a) == a
  {
    XorBitsZero(a, 8);
  }

  lemma XorCommutes(a: byte, b: byte)
    ensures Xor(a, b) == Xor(b, a)
  {
    XorBitsCommutes(a, b, 8);
  }

  lemma XorSelf(a: byte)
    ensures Xor(a, a) == 0
  {
    XorBitsSelf(a, 8);
  }

  lemma XorAssociates(a: byte, b: byte, c: byte)
    ensures Xor(Xor(a, b), c) == Xor(a, Xor(b, c))
  {
    XorBitsAssociates(a, b, c, 8);
  }

  /** Xor-ing with the same byte twice gives back the original. */
  lemma XorCancels(a: byte, b: byte)
    ensures Xor(a, Xor(a, b)) == b
  {
    XorAssociates(a, a, b);
    XorSelf(a);
    XorZero(b);
  }

  /** `x & flag != 0`, for a flag that is a power of two. */
  predicate HasFlag(x: nat, flag: nat)
    requires flag > 0
  {
    (x / flag) % 2 == 1
  }

  /** `x | flag`, for a flag that is a power of two. */
  function SetFlag(x: nat, flag: nat): nat
    requires flag > 0
  {
    if HasFlag(x, flag) then x else x + flag
  }

  /** Bits 2 and 3 of `x = 16 * q + low`, and the bits below and above them, are those of `low` and `q`. */
  lemma Nibble(q: nat, low: nat)
    requires low < 16
    ensures var x := 16 * q + low;
      && (HasFlag(x, 4) <==> 4 <= low < 8 || 12 <= low) && (HasFlag(x, 8) <==> low >= 8)
      && x % 4 == low % 4 && x / 16 == q
  {
    var x := 16 * q + low;
    assert x / 4 == 4 * q + low / 4;
    assert x / 8 == 2 * q + low / 8;
    assert (2 * (2 * q) + low / 4) % 2 == (low / 4) % 2;
    assert (2 * q + low / 8) % 2 == (low / 8) % 2;
  }

  /** Raising bit 2 sets it and keeps bit 3, the bits below and the bits above. */
  lemma SetFlag4Bits(x: nat)
    ensures var r := SetFlag(x, 4);
      && HasFlag(r, 4) && (HasFlag(r, 8) <==> HasFlag(x, 8))
      && r % 4 == x % 4 && r / 16 == x / 16
  {
    var q, low := x / 16, x % 16;
    assert x == 16 * q + low;
    Nibble(q, low);
    if low < 4 || 8 <= low < 12 {
      assert SetFlag(x, 4) == 16 * q + (low + 4);
      Nibble(q, low + 4);
    } else {
      assert SetFlag(x, 4) == x;
    }
  }

  /** Raising bit 3 sets it and keeps bit 2, the bits below and the bits above. */
  lemma SetFlag8Bits(x: nat)
    ensures var r := SetFlag(x, 8);
      && HasFlag(r, 8) && (HasFlag(r, 4) <==> HasFlag(x, 4))
      && r % 4 == x % 4 && r / 16 == x / 16
  {
    var q, low := x / 16, x % 16;
    assert x == 16 * q + low;
    Nibble(q, low);
    if low < 8 {
      assert SetFlag(x, 8) == 16 * q + (low + 8);
      Nibble(q, low + 8);
    } else {
      assert SetFlag(x, 8) == x;
    }
  }
}
