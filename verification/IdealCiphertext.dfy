/** The meaning of the homomorphic operations: a ciphertext stands for the vector it decrypts to,
    and arithmetic on it is done position by position modulo 256. */
module IdealCiphertext {
  import opened Bytes

  type Ciphertext = seq<byte>

  function AddByte(a: byte, b: byte): byte
  {
    (a as int + b as int) % 256
  }

  function SubByte(a: byte, b: byte): byte
  {
    (a as int - b as int) % 256
  }

  function Add(x: Ciphertext, y: Ciphertext): (z: Ciphertext)
    requires |x| == |y|
    ensures |z| == |x|
    ensures forall i :: 0 <= i < |x| ==> z[i] == AddByte(x[i], y[i])
  {
    seq(|x|, i requires 0 <= i < |x| => AddByte(x[i], y[i]))
  }

  function Sub(x: Ciphertext, y: Ciphertext): (z: Ciphertext)
    requires |x| == |y|
    ensures |z| == |x|
    ensures forall i :: 0 <= i < |x| ==> z[i] == SubByte(x[i], y[i])
  {
    seq(|x|, i requires 0 <= i < |x| => SubByte(x[i], y[i]))
  }

  lemma {:induction false} ByteArithmetic(a: byte, b: byte)
    ensures AddByte(SubByte(a, b), b) == a
    ensures AddByte(0, a) == a == AddByte(a, 0)
  {
  }

  /** Product of an encrypted bit and a ciphertext. */
  function ExternalProduct(control: bool, x: Ciphertext): (z: Ciphertext)
    ensures |z| == |x|
  {
    if control then x else Zeros(|x|)
  }

  /** control * (d1 - d0) + d0 selects one of its two operands. */
  function CMux(control: bool, d1: Ciphertext, d0: Ciphertext): (z: Ciphertext)
    requires |d1| == |d0|
    ensures z == if control then d1 else d0
  {
    var z := Add(ExternalProduct(control, Sub(d1, d0)), d0);
    assert z == if control then d1 else d0 by { Selects(control, d1, d0); }
    z
  }

  lemma {:induction false} Selects(control: bool, d1: Ciphertext, d0: Ciphertext)
    requires |d1| == |d0|
    ensures Add(ExternalProduct(control, Sub(d1, d0)), d0) == if control then d1 else d0
  {
    hide AddByte, SubByte;
    forall i | 0 <= i < |d1|
      ensures AddByte(SubByte(d1[i], d0[i]), d0[i]) == d1[i]
      ensures AddByte(0, d0[i]) == d0[i]
    {
      ByteArithmetic(d1[i], d0[i]);
      ByteArithmetic(d0[i], d0[i]);
    }
  }

  lemma {:induction false} AddZero(x: Ciphertext)
    ensures Add(x, Zeros(|x|)) == x
    ensures Add(Zeros(|x|), x) == x
  {
    hide AddByte;
    forall i | 0 <= i < |x|
      ensures AddByte(x[i], 0) == x[i] == AddByte(0, x[i])
    {
      ByteArithmetic(x[i], 0);
    }
  }
}
