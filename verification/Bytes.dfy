/** Bytes and byte vectors, with exclusive-or written out on binary digits. */
module Bytes {
  import opened Division

  type byte = n: int | 0 <= n < 256

  function Zeros(n: nat): (z: seq<byte>)
    ensures |z| == n
    ensures forall i :: 0 <= i < n ==> z[i] == 0
  {
    seq(n, _ => 0)
  }

  /** Exclusive-or of two numbers of at most `bits` binary digits. */
  function BitXor(a: nat, b: nat, bits: nat): (x: nat)
  {
    if bits == 0 then 0 else 2 * BitXor(a / 2, b / 2, bits - 1) + (if a % 2 == b % 2 then 0 else 1)
  }

  function Pow2(k: nat): (p: nat)
    ensures p >= 1
  {
    if k == 0 then 1 else 2 * Pow2(k - 1)
  }

  lemma {:induction false} BitXorDigits(a: nat, b: nat, bits: nat)
    requires bits > 0
    ensures BitXor(a, b, bits) / 2 == BitXor(a / 2, b / 2, bits - 1)
    ensures BitXor(a, b, bits) % 2 == if a % 2 == b % 2 then 0 else 1
  {
  }

  lemma {:induction false} BitXorBound(a: nat, b: nat, bits: nat)
    ensures BitXor(a, b, bits) < Pow2(bits)
  {
    if bits > 0 { BitXorBound(a / 2, b / 2, bits - 1); }
  }

  lemma {:induction false} BitXorCommutes(a: nat, b: nat, bits: nat)
    ensures BitXor(a, b, bits) == BitXor(b, a, bits)
  {
    if bits > 0 { BitXorCommutes(a / 2, b / 2, bits - 1); }
  }

  lemma {:induction false} BitXorAssociates(a: nat, b: nat, c: nat, bits: nat)
    ensures BitXor(BitXor(a, b, bits), c, bits) == BitXor(a, BitXor(b, c, bits), bits)
  {
    if bits > 0 {
      BitXorAssociates(a / 2, b / 2, c / 2, bits - 1);
      BitXorDigits(a, b, bits);
      BitXorDigits(b, c, bits);
      BitXorDigits(BitXor(a, b, bits), c, bits);
      BitXorDigits(a, BitXor(b, c, bits), bits);
    }
  }

  lemma {:induction false} BitXorZero(a: nat, bits: nat)
    requires a < Pow2(bits)
    ensures BitXor(a, 0, bits) == a
  {
    if bits > 0 { BitXorZero(a / 2, bits - 1); }
  }

  lemma {:induction false} BitXorSelf(a: nat, bits: nat)
    ensures BitXor(a, a, bits) == 0
  {
    if bits > 0 { BitXorSelf(a / 2, bits - 1); }
  }

  lemma {:induction false} BytePow2()
    ensures Pow2(8) == 256
  {
    assert Pow2(4) == 16;
  }

  function XorByte(a: byte, b: byte): (x: byte)
  {
    BitXorBound(a, b, 8);
    BytePow2();
    BitXor(a, b, 8)
  }

  /** The k-th binary digit of an exclusive-or is one exactly if the operands differ there. */
  lemma {:induction false} XorDigit(a: nat, b: nat, bits: nat, k: nat)
    requires k < bits
    ensures BitXor(a, b, bits) / Pow2(k) % 2 == if a / Pow2(k) % 2 == b / Pow2(k) % 2 then 0 else 1
  {
    if k == 0 {
      assert Pow2(0) == 1;
      BitXorDigits(a, b, bits);
    } else {
      BitXorDigits(a, b, bits);
      XorDigit(a / 2, b / 2, bits - 1, k - 1);
      assert Pow2(k) == 2 * Pow2(k - 1);
      hide Pow2, BitXor;
      DivTwice(a, 2, Pow2(k - 1));
      DivTwice(b, 2, Pow2(k - 1));
      DivTwice(BitXor(a, b, bits), 2, Pow2(k - 1));
    }
  }

  function Xor(x: seq<byte>, y: seq<byte>): (z: seq<byte>)
    requires |x| == |y|
    ensures |z| == |x|
    ensures forall i :: 0 <= i < |x| ==> z[i] == XorByte(x[i], y[i])
  {
    seq(|x|, i requires 0 <= i < |x| => XorByte(x[i], y[i]))
  }

  lemma {:induction false} XorByteLaws(a: byte, b: byte, c: byte)
    ensures XorByte(a, b) == XorByte(b, a)
    ensures XorByte(XorByte(a, b), c) == XorByte(a, XorByte(b, c))
    ensures XorByte(a, 0) == a && XorByte(a, a) == 0
  {
    BytePow2();
    BitXorCommutes(a, b, 8);
    BitXorAssociates(a, b, c, 8);
    BitXorZero(a, 8);
    BitXorSelf(a, 8);
  }

  /** Exclusive-or makes the byte vectors of one length an abelian group of exponent two. */
  lemma {:induction false} XorLaws(x: seq<byte>, y: seq<byte>, z: seq<byte>)
    requires |x| == |y| == |z|
    ensures Xor(x, y) == Xor(y, x)
    ensures Xor(Xor(x, y), z) == Xor(x, Xor(y, z))
    ensures Xor(x, Zeros(|x|)) == x
    ensures Xor(Zeros(|x|), x) == x
    ensures Xor(x, x) == Zeros(|x|)
  {
    hide XorByte;
    forall i | 0 <= i < |x|
      ensures XorByte(x[i], y[i]) == XorByte(y[i], x[i])
      ensures XorByte(XorByte(x[i], y[i]), z[i]) == XorByte(x[i], XorByte(y[i], z[i]))
      ensures XorByte(x[i], 0) == x[i] && XorByte(0, x[i]) == x[i] && XorByte(x[i], x[i]) == 0
    {
      XorByteLaws(x[i], y[i], z[i]);
      XorByteLaws(0, x[i], x[i]);
      XorByteLaws(x[i], 0, x[i]);
    }
  }

  /** Adding a vector twice leaves what was there. */
  lemma {:induction false} XorCancels(x: seq<byte>, y: seq<byte>)
    requires |x| == |y|
    ensures Xor(Xor(x, y), y) == x
  {
    XorLaws(x, y, y);
    XorLaws(y, y, y);
  }
}
