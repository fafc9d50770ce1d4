/** Counter-mode encryption as exclusive-or with a keystream that depends on the initialisation vector
    and the position only (section 6.5 of NIST SP 800-38A). The keystream itself is arbitrary. */
module CtrCipher {
  import opened Bytes

  const IV_SIZE: nat := 16

  datatype Cipher = Cipher(pad: (seq<byte>, nat) -> byte)

  function PadByte(c: Cipher, iv: seq<byte>, i: nat): byte
  {
    c.pad(iv, i)
  }

  function Keystream(c: Cipher, iv: seq<byte>, n: nat): (k: seq<byte>)
    ensures |k| == n
  {
    seq(n, i requires 0 <= i < n => PadByte(c, iv, i))
  }

  /** Encryption and decryption are the same operation. */
  function Crypt(c: Cipher, text: seq<byte>, iv: seq<byte>): (out: seq<byte>)
    ensures |out| == |text|
  {
    Xor(text, Keystream(c, iv, |text|))
  }

  lemma {:induction false} CryptInverts(c: Cipher, text: seq<byte>, iv: seq<byte>)
    ensures Crypt(c, Crypt(c, text, iv), iv) == text
  {
    XorCancels(text, Keystream(c, iv, |text|));
  }

  /** Every byte is masked with the cipher's pad for the initialisation vector and the position. */
  ghost predicate Masked(c: Cipher, f: seq<byte>, iv: seq<byte>, text: seq<byte>)
  {
    |f| == |text| && forall i :: 0 <= i < |text| ==> f[i] == XorByte(text[i], c.pad(iv, i))
  }

  lemma {:induction false} CryptMasks(c: Cipher, text: seq<byte>, iv: seq<byte>)
    ensures Masked(c, Crypt(c, text, iv), iv, text)
  {
    hide XorByte;
  }

  method GenerateIV() returns (iv: seq<byte>)
    ensures |iv| == IV_SIZE
  {
    iv := [];
    for i := 0 to IV_SIZE
      invariant |iv| == i
    {
      var b: byte :| true;
      iv := iv + [b];
    }
  }

  // ----- exclusive-or of many vectors -----

  ghost predicate AllOfSize(vectors: seq<seq<byte>>, n: nat)
  {
    forall i :: 0 <= i < |vectors| ==> |vectors[i]| == n
  }

  function XorAll(vectors: seq<seq<byte>>, n: nat): (x: seq<byte>)
    requires forall i :: 0 <= i < |vectors| ==> |vectors[i]| == n
    ensures |x| == n
  {
    if vectors == [] then Zeros(n) else Xor(XorAll(vectors[..|vectors| - 1], n), vectors[|vectors| - 1])
  }

  lemma {:induction false} XorAllSnoc(vectors: seq<seq<byte>>, k: nat, n: nat)
    requires AllOfSize(vectors, n) && k < |vectors|
    ensures XorAll(vectors[..k + 1], n) == Xor(XorAll(vectors[..k], n), vectors[k])
  {
    assert vectors[..k + 1][..k] == vectors[..k];
  }

  /** (a + b) + (c + d) == (a + c) + (b + d) */
  lemma {:induction false} XorRegroup(a: seq<byte>, b: seq<byte>, c: seq<byte>, d: seq<byte>)
    requires |a| == |b| == |c| == |d|
    ensures Xor(Xor(a, b), Xor(c, d)) == Xor(Xor(a, c), Xor(b, d))
  {
    XorLaws(a, b, Xor(c, d));
    XorLaws(b, c, d);
    XorLaws(c, b, d);
    XorLaws(a, c, Xor(b, d));
  }

  /** What the reader takes off the aggregate: the encryption of zeros for every slot but the target. */
  function Mask(c: Cipher, ivs: seq<seq<byte>>, flags: seq<bool>, n: nat): (masks: seq<seq<byte>>)
    requires |ivs| == |flags|
    ensures |masks| == |flags|
    ensures forall i :: 0 <= i < |masks| ==> |masks[i]| == n
  {
    seq(|flags|, i requires 0 <= i < |flags| => if flags[i] then Zeros(n) else Crypt(c, Zeros(n), ivs[i]))
  }

  /** All vectors other than the flagged ones encrypt zeros. */
  ghost predicate OthersAreDummies(c: Cipher, vectors: seq<seq<byte>>, ivs: seq<seq<byte>>, flags: seq<bool>, n: nat)
  {
    && |vectors| == |ivs| == |flags| && AllOfSize(vectors, n)
    && forall i :: 0 <= i < |flags| && !flags[i] ==> vectors[i] == Crypt(c, Zeros(n), ivs[i])
  }

  /** Stripping the dummies leaves the flagged vectors. */
  lemma {:induction false} StripDummies(c: Cipher, vectors: seq<seq<byte>>, ivs: seq<seq<byte>>, flags: seq<bool>,
                                        n: nat, target: nat, k: nat)
    requires OthersAreDummies(c, vectors, ivs, flags, n) && k <= |flags|
    requires forall i :: 0 <= i < |flags| ==> (flags[i] <==> i == target)
    ensures Xor(XorAll(vectors[..k], n), XorAll(Mask(c, ivs, flags, n)[..k], n))
         == if target < k then vectors[target] else Zeros(n)
  {
    hide Xor, Crypt, Zeros;
    var masks := Mask(c, ivs, flags, n);
    if k == 0 {
      XorLaws(Zeros(n), Zeros(n), Zeros(n));
    } else {
      StripDummies(c, vectors, ivs, flags, n, target, k - 1);
      XorAllSnoc(vectors, k - 1, n);
      XorAllSnoc(masks, k - 1, n);
      var v, m := XorAll(vectors[..k - 1], n), XorAll(masks[..k - 1], n);
      XorRegroup(v, vectors[k - 1], m, masks[k - 1]);
      XorLaws(vectors[k - 1], vectors[k - 1], Zeros(n));
      XorLaws(Xor(v, m), Zeros(n), Zeros(n));
    }
  }
}
