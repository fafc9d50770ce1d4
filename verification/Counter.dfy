/** The counter block of AES in counter mode, as a 16-byte big-endian number. */
module Counter {
  import opened Bytes
  import opened Division
  import opened LittleEndian

  function BigEndian(bytes: seq<byte>): nat
  {
    if bytes == [] then 0 else 256 * BigEndian(bytes[..|bytes| - 1]) + bytes[|bytes| - 1]
  }

  lemma {:induction false} BigEndianBound(bytes: seq<byte>)
    ensures BigEndian(bytes) < Pow256(|bytes|)
  {
    if bytes != [] { BigEndianBound(bytes[..|bytes| - 1]); }
  }

  /** The first byte is the most significant one. */
  lemma {:induction false} BigEndianDigit(bytes: seq<byte>, k: nat)
    requires k < |bytes|
    ensures bytes[k] == BigEndian(bytes) / Pow256(|bytes| - 1 - k) % 256
  {
    var n := |bytes| - 1;
    var high := BigEndian(bytes[..n]);
    assert BigEndian(bytes) == 256 * high + bytes[n];
    if k == n {
      assert Pow256(0) == 1;
    } else {
      BigEndianDigit(bytes[..n], k);
      hide BigEndian, Pow256;
      Pow256Next(n - 1 - k);
      DivTwice(BigEndian(bytes), 256, Pow256(n - 1 - k));
      DivModIs(BigEndian(bytes), 256, high, bytes[n]);
    }
  }

  /** A number from its high and its low part. */
  lemma {:induction false} BigEndianSplit(high: seq<byte>, low: seq<byte>)
    ensures BigEndian(high + low) == BigEndian(high) * Pow256(|low|) + BigEndian(low)
  {
    if low == [] {
      assert high + low == high;
    } else {
      var m := |low| - 1;
      BigEndianSplit(high, low[..m]);
      assert (high + low)[..|high| + m] == high + low[..m];
      assert 256 * (BigEndian(high) * Pow256(m)) == BigEndian(high) * (256 * Pow256(m));
    }
  }

  /** While the carry runs from the last byte to the first: the bytes still to come and the carry above
      those already done add up to the sum. */
  ghost predicate Carrying(before: seq<byte>, now: seq<byte>, i: int, increment: nat, total: nat)
  {
    && |before| == |now| && -1 <= i < |now| && now[..i + 1] == before[..i + 1]
    && (BigEndian(now[..i + 1]) + increment) * Pow256(|now| - 1 - i) + BigEndian(now[i + 1..]) == total
  }

  function LowByte(x: nat): (b: byte)
    ensures b == x % 256
  {
    x % 256
  }

  lemma {:induction false} CarryStart(iv: seq<byte>, increment: nat)
    ensures Carrying(iv, iv, |iv| - 1, increment, BigEndian(iv) + increment)
  {
    assert iv[..|iv|] == iv && iv[|iv|..] == [];
  }

  lemma {:induction false} CarryStep(before: seq<byte>, now: seq<byte>, i: int, increment: nat, total: nat)
    requires Carrying(before, now, i, increment, total) && i >= 0
    ensures var sum := now[i] + increment % 256;
            Carrying(before, now[i := LowByte(sum)], i - 1, increment / 256 + sum / 256, total)
  {
    var sum := now[i] + increment % 256;
    var then' := now[i := LowByte(sum)];
    var p := Pow256(|now| - 1 - i);
    assert now[..i + 1][..i] == now[..i] == then'[..i];
    assert BigEndian(now[..i + 1]) == 256 * BigEndian(now[..i]) + now[i];
    assert then'[i..] == [then'[i]] + now[i + 1..];
    BigEndianSplit([then'[i]], now[i + 1..]);
    assert BigEndian([then'[i]]) == then'[i] by { assert [then'[i]][..0] == []; }
    var high := BigEndian(now[..i]) + increment / 256 + sum / 256;
    assert BigEndian(now[..i + 1]) + increment == 256 * high + sum % 256;
    CarryArithmetic(high, sum % 256, p);
  }

  lemma {:induction false} CarryArithmetic(high: nat, digit: nat, p: nat)
    ensures (256 * high + digit) * p == high * (256 * p) + digit * p
  {
  }

  /** The carry is used up or has left the number: what remains is the sum modulo the counter's size. */
  lemma {:induction false} CarryEnd(before: seq<byte>, now: seq<byte>, i: int, increment: nat, total: nat)
    requires Carrying(before, now, i, increment, total) && (i < 0 || increment == 0)
    ensures BigEndian(now) == total % Pow256(|now|)
  {
    BigEndianBound(now);
    var p := Pow256(|now|);
    if increment == 0 {
      BigEndianSplit(now[..i + 1], now[i + 1..]);
      assert now == now[..i + 1] + now[i + 1..];
      DivModIs(total, p, 0, BigEndian(now));
    } else {
      assert now[..0] == [] && now[0..] == now;
      DivModIs(total, p, increment, BigEndian(now));
    }
  }

  /** Adds to the counter modulo 2^128. The loop stops early once nothing is left to carry, and neither the
      carry nor the intermediate sum ever needs more than 64 bits. */
  method IncrementCounter(iv: array<byte>, amount: nat)
    requires iv.Length == 16 && amount < UINT64_LIMIT
    modifies iv
    ensures BigEndian(iv[..]) == (BigEndian(old(iv[..])) + amount) % Pow256(16)
  {
    hide Carrying, BigEndian, Pow256;
    var increment := amount;
    ghost var before, total := iv[..], BigEndian(iv[..]) + amount;
    CarryStart(iv[..], increment);
    var i := iv.Length - 1;
    while i >= 0 && increment > 0
      invariant -1 <= i < iv.Length && 0 <= increment < UINT64_LIMIT
      invariant Carrying(before, iv[..], i, increment, total)
      decreases i
    {
      CarryStep(before, iv[..], i, increment, total);
      ghost var now := iv[..];
      var sum := iv[i] + increment % 256;
      assert sum < UINT64_LIMIT;
      iv[i] := LowByte(sum);
      assert iv[..] == now[i := LowByte(sum)];
      increment := increment / 256 + sum / 256;
      i := i - 1;
    }
    CarryEnd(before, iv[..], i, increment, total);
  }
}
