/** Onion Ring's eviction order: leaves in bit-reversed order, so that the nodes of every level take turns. */
module OnionSchedule {
  import opened Bytes
  import opened Division
  import opened HeapTree

  /** The low k binary digits of v, in reverse order. */
  function Reverse(v: nat, k: nat): nat
  {
    if k == 0 then 0 else 2 * Reverse(v, k - 1) + Shr(v, k - 1) % 2
  }

  method ReverseBits(value: nat, numBits: nat) returns (reversed: nat)
    ensures reversed == Reverse(value, numBits)
    ensures forall i :: 0 <= i < numBits ==> Shr(reversed, i) % 2 == Shr(value, numBits - 1 - i) % 2
    ensures reversed < Pow2(numBits) && (value < Pow2(numBits) ==> Reverse(reversed, numBits) == value)
  {
    hide Pow2;
    reversed := 0;
    for i := 0 to numBits
      invariant reversed == Reverse(value, i)
    {
      reversed := 2 * reversed + Shr(value, i) % 2;
    }
    ReverseBound(value, numBits);
    ReverseInvolution(value, numBits);
    forall i | 0 <= i < numBits
      ensures Shr(reversed, i) % 2 == Shr(value, numBits - 1 - i) % 2
    {
      ReversePrefix(value, numBits, i);
      ReverseLast(value, numBits - 1 - i);
    }
    if value < Pow2(numBits) { DivModIs(value, Pow2(numBits), 0, value); }
  }

  lemma {:induction false} OneMoreDigit(v: nat, p: nat)
    requires p > 0
    ensures v / (2 * p) == v / p / 2 && v % (2 * p) == v % p + v / p % 2 * p
  {
    var q, r := v / p, v % p;
    var h, b := q / 2, q % 2;
    SplitDigit(q, h, b, p);
    DivModIs(v, 2 * p, h, b * p + r);
  }

  lemma {:induction false} SplitDigit(q: nat, h: nat, b: nat, p: nat)
    requires q == 2 * h + b && b < 2
    ensures q * p == h * (2 * p) + b * p
    ensures b * p == if b == 0 then 0 else p
  {
  }

  /** Dropping digits is division, and one more digit is kept by one more bit. */
  lemma {:induction false} LowDigits(v: nat, k: nat)
    ensures Shr(v, k) == v / Pow2(k)
    ensures v % Pow2(k + 1) == v % Pow2(k) + Shr(v, k) % 2 * Pow2(k)
  {
    if k > 0 {
      LowDigits(v, k - 1);
      OneMoreDigit(v, Pow2(k - 1));
    } else {
      assert Pow2(0) == 1;
    }
    OneMoreDigit(v, Pow2(k));
  }

  lemma {:induction false} ReverseBound(v: nat, k: nat)
    ensures Reverse(v, k) < Pow2(k)
  {
    if k > 0 { ReverseBound(v, k - 1); }
  }

  /** The first digit becomes the last. */
  lemma {:induction false} ReverseLow(v: nat, k: nat)
    requires k > 0
    ensures Reverse(v, k) == v % 2 * Pow2(k - 1) + Reverse(v / 2, k - 1)
  {
    if k > 1 {
      ReverseLow(v, k - 1);
      ShrAdds(v, 1, k - 2);
      assert Shr(v, 1) == v / 2;
      assert Pow2(k - 1) == 2 * Pow2(k - 2);
      assert v % 2 * (2 * Pow2(k - 2)) == 2 * (v % 2 * Pow2(k - 2));
    } else {
      assert Shr(v, 0) == v && Pow2(0) == 1;
    }
  }

  /** Reversing twice gives the low digits back. */
  lemma {:induction false} ReverseInvolution(v: nat, k: nat)
    ensures Reverse(Reverse(v, k), k) == v % Pow2(k)
  {
    if k > 0 {
      var u := Reverse(v, k);
      ReverseLow(u, k);
      assert u / 2 == Reverse(v, k - 1) && u % 2 == Shr(v, k - 1) % 2;
      ReverseInvolution(v, k - 1);
      LowDigits(v, k - 1);
    }
  }

  lemma {:induction false} ReversePrefix(v: nat, k: nat, drop: nat)
    requires drop <= k
    ensures Shr(Reverse(v, k), drop) == Reverse(v, k - drop)
  {
    if drop > 0 {
      ReversePrefix(v, k, drop - 1);
    }
  }

  lemma {:induction false} ReverseLast(v: nat, k: nat)
    ensures Reverse(v, k + 1) % 2 == Shr(v, k) % 2
  {
    var high, digit := Reverse(v, k), Shr(v, k) % 2;
    assert Reverse(v, k + 1) == 2 * high + digit;
    hide Shr, Reverse;
    DivModIs(2 * high + digit, 2, high, digit);
  }

  /** Only the low k digits matter. */
  lemma {:induction false} ReverseOfLow(v: nat, k: nat)
    ensures Reverse(v % Pow2(k), k) == Reverse(v, k)
  {
    hide Reverse, Pow2;
    var low := v % Pow2(k);
    ReverseInvolution(v, k);
    ReverseInvolution(Reverse(v, k), k);
    ReverseBound(v, k);
    DivModIs(Reverse(v, k), Pow2(k), 0, Reverse(v, k));
  }

  // ----- whose turn it is -----

  /** The leaf whose path the t-th eviction takes. */
  function EvictionLeaf(height: nat, t: nat): (leaf: nat)
    ensures leaf < NumLeaves(height)
  {
    ReverseBound(t % NumLeaves(height), height);
    Reverse(t % NumLeaves(height), height)
  }

  ghost predicate Visited(height: nat, t: nat, node: nat)
  {
    OnPath(height, node, EvictionLeaf(height, t))
  }

  /** The place of a node among those of its level. */
  function Place(node: nat): (p: nat)
    ensures p < Pow2(Level(node))
  {
    LevelRange(node);
    node + 1 - Pow2(Level(node))
  }

  /** The node's turn in the cycle of its level. */
  function Turn(node: nat): (r: nat)
    ensures r < Pow2(Level(node))
  {
    ReverseBound(Place(node), Level(node));
    Reverse(Place(node), Level(node))
  }

  /** The t-th eviction takes, on every level, the node at the reverse of t's low digits. */
  lemma {:induction false} EvictedNode(height: nat, t: nat, level: nat)
    requires level <= height
    ensures NodeAt(height, EvictionLeaf(height, t), level) == Pow2(level) - 1 + Reverse(t % Pow2(level), level)
  {
    hide Reverse;
    ReverseOfLow(t, height);
    ReversePrefix(t, height, height - level);
    ReverseOfLow(t, level);
  }

  /** A node is visited exactly when its turn comes round. */
  lemma {:induction false} VisitTimes(height: nat, t: nat, node: nat)
    requires node < NumNodes(height)
    ensures Visited(height, t, node) <==> t % Pow2(Level(node)) == Turn(node)
  {
    hide Reverse, NodeAt, Level, Pow2, EvictionLeaf;
    var level := Level(node);
    LevelInTree(height, node);
    EvictedNode(height, t, level);
    var low := t % Pow2(level);
    ReverseInvolution(low, level);
    ReverseInvolution(Place(node), level);
    DivModIs(low, Pow2(level), 0, low);
    DivModIs(Place(node), Pow2(level), 0, Place(node));
  }

  /** Any 2^l consecutive evictions visit every node of level l exactly once. */
  lemma {:induction false} EveryNodeOnce(height: nat, from: nat, node: nat) returns (t: nat)
    requires node < NumNodes(height)
    ensures from <= t < from + Pow2(Level(node)) && Visited(height, t, node)
    ensures forall u :: from <= u < from + Pow2(Level(node)) && Visited(height, u, node) ==> u == t
  {
    hide Visited, Turn, Pow2;
    t := NextWithRemainder(from, Pow2(Level(node)), Turn(node));
    VisitTimes(height, t, node);
    forall u: nat | from <= u < from + Pow2(Level(node)) && Visited(height, u, node)
      ensures u == t
    {
      VisitTimes(height, u, node);
      SameRemainder(t, u, Pow2(Level(node)));
    }
  }

  lemma {:induction false} ReverseHalf(v: nat, k: nat)
    requires k > 0
    ensures Reverse(v, k) == Reverse(v / 2, k - 1) || Reverse(v, k) == Reverse(v / 2, k - 1) + Pow2(k - 1)
  {
    hide Reverse;
    ReverseLow(v, k);
    var p := Pow2(k - 1);
    assert v % 2 * p == if v % 2 == 0 then 0 else p;
  }

  lemma {:induction false} ParentPlace(node: nat)
    requires node > 0
    ensures Level(node) == Level((node - 1) / 2) + 1
    ensures Place((node - 1) / 2) == Place(node) / 2
  {
    assert Pow2(Level(node)) == 2 * Pow2(Level(node) - 1);
  }

  /** A child's turn is its parent's or half a cycle later. */
  lemma {:induction false} ParentTurn(node: nat)
    requires node > 0
    ensures Level(node) == Level((node - 1) / 2) + 1
    ensures Turn(node) == Turn((node - 1) / 2) || Turn(node) == Turn((node - 1) / 2) + Pow2(Level(node) - 1)
  {
    hide Reverse, Place, Pow2, Level;
    ParentPlace(node);
    ReverseHalf(Place(node), Level(node));
  }

  /** The node was visited more recently than its parent's last other visit, or as recently: nothing has
      come down to it since it was emptied. */
  ghost predicate Rested(t: nat, node: nat)
    requires node > 0
  {
    (t - 1 - Turn(node)) % Pow2(Level(node)) < Pow2(Level(node) - 1)
  }

  /** The remainder of a number less r, from that of the number. */
  lemma {:induction false} RemainderShift(t: nat, r: nat, l: nat)
    requires r < l
    ensures (t - r) % l == if t % l >= r then t % l - r else t % l - r + l
    ensures (t - 1 - r) % l == if t % l > r then t % l - 1 - r else t % l - 1 - r + l
  {
    var c, q := t / l, t % l;
    assert (c - 1) * l == c * l - l;
    if q >= r { DivModIs(t - r, l, c, q - r); } else { DivModIs(t - r, l, c - 1, q - r + l); }
    if q > r { DivModIs(t - 1 - r, l, c, q - 1 - r); } else { DivModIs(t - 1 - r, l, c - 1, q - 1 - r + l); }
  }

  lemma {:induction false} RemainderHalf(t: nat, m: nat)
    requires m > 0
    ensures t % m == if t % (2 * m) < m then t % (2 * m) else t % (2 * m) - m
  {
    OneMoreDigit(t, m);
    var b := t / m % 2;
    assert b * m == if b == 0 then 0 else m;
  }

  lemma {:induction false} RestArithmetic(t: nat, r: nat, m: nat)
    requires m > 0 && r < 2 * m
    ensures t % (2 * m) == r ==> t % m == (if r < m then r else r - m)
    ensures t % m == (if r < m then r else r - m) && t % (2 * m) != r ==>
              (t - 1 - r) % (2 * m) < m && (t - r) % (2 * m) >= m
    ensures (t - r) % (2 * m) < m && t % (2 * m) != r ==>
              (t - 1 - r) % (2 * m) < m && t % m != (if r < m then r else r - m)
  {
    RemainderShift(t, r, 2 * m);
    RemainderHalf(t, m);
  }

  /** One eviction: a visited node has a visited parent; the other child of a visited parent was rested
      before and is not afterwards; a rested node that was not visited had been rested all along. */
  lemma {:induction false} RestStep(height: nat, t: nat, node: nat)
    requires 0 < node < NumNodes(height)
    ensures Visited(height, t, node) ==> Visited(height, t, (node - 1) / 2)
    ensures Visited(height, t, (node - 1) / 2) && !Visited(height, t, node) ==> Rested(t, node) && !Rested(t + 1, node)
    ensures Rested(t + 1, node) && !Visited(height, t, node) ==> Rested(t, node) && !Visited(height, t, (node - 1) / 2)
  {
    hide Visited, Turn;
    var m, r := Pow2(Level(node) - 1), Turn(node);
    assert Pow2(Level(node)) == 2 * m;
    ParentTurn(node);
    VisitTimes(height, t, node);
    VisitTimes(height, t, (node - 1) / 2);
    RestArithmetic(t, r, m);
  }
}
