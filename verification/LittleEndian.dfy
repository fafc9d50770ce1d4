/** Unsigned integers as bytes, least significant byte first. */
module LittleEndian {
  import opened Bytes
  import opened Division

  const UINT64_LIMIT: nat := 0x1_0000_0000_0000_0000

  function Pow256(k: nat): (p: nat)
    ensures p >= 1
  {
    if k == 0 then 1 else 256 * Pow256(k - 1)
  }

  function Encode(value: nat, width: nat): (bytes: seq<byte>)
    ensures |bytes| == width
  {
    if width == 0 then [] else [value % 256] + Encode(value / 256, width - 1)
  }

  function Decode(bytes: seq<byte>): nat
  {
    if bytes == [] then 0 else bytes[0] + 256 * Decode(bytes[1..])
  }

  lemma {:induction false} Pow256Next(k: nat)
    ensures Pow256(k + 1) == 256 * Pow256(k)
  {
  }

  lemma {:induction false} DecodeEncode(value: nat, width: nat)
    requires value < Pow256(width)
    ensures Decode(Encode(value, width)) == value
  {
    if width > 0 {
      DecodeEncode(value / 256, width - 1);
      assert Encode(value, width)[1..] == Encode(value / 256, width - 1);
    }
  }

  lemma {:induction false} EncodeDecode(bytes: seq<byte>)
    ensures Encode(Decode(bytes), |bytes|) == bytes
    ensures Decode(bytes) < Pow256(|bytes|)
  {
    if bytes != [] {
      hide Pow256;
      var low, high := bytes[0], Decode(bytes[1..]);
      EncodeDecode(bytes[1..]);
      DivModIs(Decode(bytes), 256, high, low);
      Pow256Next(|bytes| - 1);
    }
  }

  /** Byte k of a written number is its k-th digit to the base 256. */
  lemma {:induction false} EncodeDigit(value: nat, width: nat, k: nat)
    requires k < width
    ensures Encode(value, width)[k] == value / Pow256(k) % 256
  {
    if k == 0 {
      assert Pow256(0) == 1;
    } else {
      EncodeDigit(value / 256, width - 1, k - 1);
      Pow256Next(k - 1);
      DivTwice(value, 256, Pow256(k - 1));
    }
  }

  /** The bytes of a number, least significant first. */
  ghost predicate IsNumber(bytes: seq<byte>, v: nat)
  {
    |bytes| == 8 && forall k :: 0 <= k < 8 ==> bytes[k] == v / Pow256(k) % 256
  }

  lemma {:induction false} EncodeIsNumber(v: nat)
    ensures IsNumber(Encode(v, 8), v)
  {
    hide Encode, Pow256;
    forall k | 0 <= k < 8
      ensures Encode(v, 8)[k] == v / Pow256(k) % 256
    {
      EncodeDigit(v, 8, k);
    }
  }

  lemma {:induction false} Uint64Limit()
    ensures Pow256(8) == UINT64_LIMIT
  {
    assert Pow256(4) == 0x1_0000_0000;
    assert Pow256(6) == 0x1_0000_0000_0000;
  }

  /** An unsigned 64-bit integer survives its eight bytes. */
  lemma {:induction false} Uint64RoundTrip(value: nat)
    requires value < UINT64_LIMIT
    ensures Decode(Encode(value, 8)) == value
  {
    Uint64Limit();
    DecodeEncode(value, 8);
  }
}
