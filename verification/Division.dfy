/** Division with remainder. */
module Division {
  lemma {:induction false} MultipleGrows(d: int, p: int)
    requires d >= 1 && p > 0
    ensures d * p >= p
  {
    assert (d - 1) * p >= 0;
  }

  /** Dividing twice is dividing by the product. */
  lemma {:induction false} DivTwice(v: nat, p: nat, q: nat)
    requires p > 0 && q > 0
    ensures p * q > 0 && v / (p * q) == v / p / q
  {
    MultipleGrows(p, q);
    var a, r := v / p, v % p;
    var b, t := a / q, a % q;
    Distributes(p, b * q, t);
    Swaps(p, b, q);
    Distributes(p, t, q - t);
    MultipleGrows(q - t, p);
    DivModIs(v, p * q, b, p * t + r);
  }

  lemma {:induction false} Distributes(p: int, x: int, y: int)
    ensures p * (x + y) == p * x + p * y
  {
  }

  lemma {:induction false} Swaps(p: int, x: int, y: int)
    ensures p * (x * y) == x * (p * y)
  {
  }

  lemma {:induction false} DivModIs(v: int, p: nat, q: int, r: int)
    requires p > 0 && v == q * p + r && 0 <= r < p
    ensures v / p == q && v % p == r
  {
    var d := q - v / p;
    assert d * p == v % p - r;
    if d > 0 {
      MultipleGrows(d, p);
    } else if d < 0 {
      MultipleGrows(-d, p);
    }
  }

  lemma {:induction false} NextWithRemainder(from: nat, p: nat, r: nat) returns (t: nat)
    requires r < p
    ensures from <= t < from + p && t % p == r
  {
    var q, c := from / p, from % p;
    if c <= r {
      t := from + (r - c);
      DivModIs(t, p, q, r);
    } else {
      t := from + (r - c) + p;
      assert (q + 1) * p == q * p + p;
      DivModIs(t, p, q + 1, r);
    }
  }

  lemma {:induction false} SameRemainder(t: nat, u: nat, p: nat)
    requires p > 0 && t % p == u % p && t < u + p && u < t + p
    ensures u == t
  {
    var d := u / p - t / p;
    assert u - t == d * p;
    if d > 0 {
      MultipleGrows(d, p);
    } else if d < 0 {
      MultipleGrows(-d, p);
    }
  }

  /** One more than n: the quotient grows exactly at the multiples. */
  lemma {:induction false} DivStep(n: nat, a: nat)
    requires a > 0
    ensures (n + 1) / a == n / a + if (n + 1) % a == 0 then 1 else 0
    ensures (n + 1) % a == if n % a + 1 == a then 0 else n % a + 1
  {
    var q := n / a;
    Distributes(a, q, 1);
    if n % a + 1 == a {
      DivModIs(n + 1, a, q + 1, 0);
    } else {
      DivModIs(n + 1, a, q, n % a + 1);
    }
  }
}
