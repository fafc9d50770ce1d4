/** Placing blocks into the buckets of one path. Bucket 0 is the deepest; a block of depth d fits in
    bucket d and in every bucket above it; every bucket takes at most `cap` blocks. */
module Placement {

  /** How many entries are equal to i. */
  function CountEq(s: seq<nat>, i: nat): (c: nat)
    ensures c <= |s|
  {
    if s == [] then 0 else CountEq(s[..|s| - 1], i) + (if s[|s| - 1] == i then 1 else 0)
  }

  /** How many entries are below k. */
  function CountLess(s: seq<nat>, k: nat): (c: nat)
    ensures c <= |s|
  {
    if s == [] then 0 else CountLess(s[..|s| - 1], k) + (if s[|s| - 1] < k then 1 else 0)
  }

  lemma {:induction false} CountLessStep(s: seq<nat>, k: nat)
    ensures CountLess(s, k + 1) == CountLess(s, k) + CountEq(s, k)
    ensures CountLess(s, 0) == 0
  {
    if s != [] { CountLessStep(s[..|s| - 1], k); }
  }

  /** The most blocks that fit into the deepest k buckets. */
  function Best(depths: seq<nat>, cap: nat, k: nat): (b: nat)
  {
    if k == 0 then 0 else
      var eligible := CountLess(depths, k);
      var full := Best(depths, cap, k - 1) + cap;
      if full < eligible then full else eligible
  }

  /** assignment[b] is the bucket of block b; `buckets` itself stands for the stash. */
  ghost predicate Legal(depths: seq<nat>, assignment: seq<nat>, buckets: nat, cap: nat)
  {
    && |assignment| == |depths|
    && (forall b :: 0 <= b < |depths| && assignment[b] < buckets ==> depths[b] <= assignment[b])
    && (forall i :: 0 <= i < buckets ==> CountEq(assignment, i) <= cap)
  }

  lemma {:induction false} CountLessMonotone(s: seq<nat>, t: seq<nat>, k: nat)
    requires |s| == |t|
    requires forall b :: 0 <= b < |s| && t[b] < k ==> s[b] <= t[b]
    ensures CountLess(t, k) <= CountLess(s, k)
  {
    if s != [] { CountLessMonotone(s[..|s| - 1], t[..|t| - 1], k); }
  }

  /** No legal placement puts more than Best blocks into the deepest k buckets. */
  lemma {:induction false} BestIsUpperBound(depths: seq<nat>, assignment: seq<nat>, buckets: nat, cap: nat, k: nat)
    requires Legal(depths, assignment, buckets, cap) && k <= buckets
    ensures CountLess(assignment, k) <= Best(depths, cap, k)
  {
    if k == 0 {
      CountLessStep(assignment, 0);
    } else {
      BestIsUpperBound(depths, assignment, buckets, cap, k - 1);
      CountLessStep(assignment, k - 1);
      CountLessMonotone(depths, assignment, k);
    }
  }

  // ----- block by block: first bucket from the leaf up that is legal and has room -----

  /** The first bucket from `from` on that holds fewer than cap blocks. */
  function FirstRoom(placed: seq<nat>, from: nat, buckets: nat, cap: nat): (i: nat)
    requires from <= buckets
    ensures from <= i <= buckets
    ensures i < buckets ==> CountEq(placed, i) < cap
    ensures forall j :: from <= j < i ==> CountEq(placed, j) >= cap
    decreases buckets - from
  {
    if from == buckets || CountEq(placed, from) < cap then from
    else FirstRoom(placed, from + 1, buckets, cap)
  }

  lemma {:induction false} FirstRoomIs(placed: seq<nat>, from: nat, buckets: nat, cap: nat, i: nat)
    requires from <= buckets && i <= buckets
    requires forall j :: 0 <= j < i ==> j < from || CountEq(placed, j) >= cap
    requires i < buckets ==> from <= i && CountEq(placed, i) < cap
    ensures i == FirstRoom(placed, from, buckets, cap)
  {
  }

  predicate Bounded(depths: seq<nat>, buckets: nat)
  {
    forall b :: 0 <= b < |depths| ==> depths[b] <= buckets
  }

  function FirstFit(depths: seq<nat>, buckets: nat, cap: nat): (assignment: seq<nat>)
    requires Bounded(depths, buckets)
    ensures |assignment| == |depths|
  {
    if depths == [] then [] else
      var before := FirstFit(depths[..|depths| - 1], buckets, cap);
      before + [FirstRoom(before, depths[|depths| - 1], buckets, cap)]
  }

  lemma {:induction false} FirstFitSnoc(depths: seq<nat>, p: nat, buckets: nat, cap: nat)
    requires Bounded(depths, buckets) && p < |depths|
    ensures FirstFit(depths[..p + 1], buckets, cap)
         == FirstFit(depths[..p], buckets, cap)
            + [FirstRoom(FirstFit(depths[..p], buckets, cap), depths[p], buckets, cap)]
  {
    assert depths[..p + 1][..p] == depths[..p];
  }

  lemma {:induction false} FirstFitLegal(depths: seq<nat>, buckets: nat, cap: nat)
    requires Bounded(depths, buckets)
    ensures Legal(depths, FirstFit(depths, buckets, cap), buckets, cap)
    ensures Bounded(FirstFit(depths, buckets, cap), buckets)
  {
    if depths != [] {
      var prefix := depths[..|depths| - 1];
      FirstFitLegal(prefix, buckets, cap);
      var before := FirstFit(prefix, buckets, cap);
      var all := FirstFit(depths, buckets, cap);
      assert all[..|all| - 1] == before;
    }
  }

  /** First fit passes over a legal bucket only if that is full. */
  lemma {:induction false} FirstFitBlocked(depths: seq<nat>, buckets: nat, cap: nat, p: nat, j: nat)
    requires Bounded(depths, buckets) && p < |depths|
    requires depths[p] <= j < FirstFit(depths, buckets, cap)[p]
    ensures j < buckets && CountEq(FirstFit(depths, buckets, cap), j) == cap
  {
    var prefix, d := depths[..|depths| - 1], depths[|depths| - 1];
    var before, all := FirstFit(prefix, buckets, cap), FirstFit(depths, buckets, cap);
    assert all == before + [FirstRoom(before, d, buckets, cap)];
    FirstFitLegal(depths, buckets, cap);
    assert CountEq(all, j) >= CountEq(before, j) by {
      assert all[..|before|] == before;
    }
    if p < |prefix| {
      hide FirstFit, CountEq;
      FirstFitBlocked(prefix, buckets, cap, p, j);
    }
  }

  lemma {:induction false} CountLessSnoc(s: seq<nat>, d: nat, k: nat)
    ensures CountLess(s + [d], k) == CountLess(s, k) + if d < k then 1 else 0
  {
    assert (s + [d])[..|s|] == s;
  }

  /** One more block of depth d raises the best count exactly from the first bucket with room on. */
  lemma {:induction false} BestWithOneMore(prefix: seq<nat>, d: nat, before: seq<nat>, i: nat, buckets: nat, cap: nat,
                                           k: nat)
    requires d <= buckets && i == FirstRoom(before, d, buckets, cap) && k <= buckets
    requires forall j :: 0 <= j <= k ==> CountLess(before, j) == Best(prefix, cap, j)
    requires forall j :: 0 <= j < buckets ==> CountEq(before, j) <= cap
    ensures Best(prefix + [d], cap, k) == Best(prefix, cap, k) + if i < k then 1 else 0
  {
    hide CountLess, CountEq, FirstRoom;
    if k > 0 {
      BestWithOneMore(prefix, d, before, i, buckets, cap, k - 1);
      CountLessSnoc(prefix, d, k);
      CountLessStep(before, k - 1);
      assert CountLess(before, k - 1) == Best(prefix, cap, k - 1);
    }
  }

  /** First fit attains the best count for every k at once, whatever the order of the blocks. */
  lemma {:induction false} FirstFitOptimal(depths: seq<nat>, buckets: nat, cap: nat, k: nat)
    requires Bounded(depths, buckets)
    requires k <= buckets
    ensures CountLess(FirstFit(depths, buckets, cap), k) == Best(depths, cap, k)
  {
    if depths == [] {
      BestOfNothing(cap, k);
    } else {
      var prefix, d := depths[..|depths| - 1], depths[|depths| - 1];
      var before := FirstFit(prefix, buckets, cap);
      var i := FirstRoom(before, d, buckets, cap);
      forall j | 0 <= j <= k
        ensures CountLess(before, j) == Best(prefix, cap, j)
      {
        FirstFitOptimal(prefix, buckets, cap, j);
      }
      FirstFitLegal(prefix, buckets, cap);
      BestWithOneMore(prefix, d, before, i, buckets, cap, k);
      assert prefix + [d] == depths;
      assert (before + [i])[..|before|] == before;
    }
  }

  lemma {:induction false} BestOfNothing(cap: nat, k: nat)
    ensures Best([], cap, k) == 0
  {
    if k > 0 { BestOfNothing(cap, k - 1); }
  }

  /** The greedy write-back is optimal: no legal placement fills the deepest k buckets better, for any k. */
  lemma {:induction false} GreedyIsOptimal(depths: seq<nat>, other: seq<nat>, buckets: nat, cap: nat, k: nat)
    requires Bounded(depths, buckets)
    requires Legal(depths, other, buckets, cap) && k <= buckets
    ensures Legal(depths, FirstFit(depths, buckets, cap), buckets, cap)
    ensures CountLess(other, k) <= CountLess(FirstFit(depths, buckets, cap), k)
  {
    FirstFitLegal(depths, buckets, cap);
    FirstFitOptimal(depths, buckets, cap, k);
    BestIsUpperBound(depths, other, buckets, cap, k);
  }

  lemma {:induction false} CountLessOrderFree(s: seq<nat>, t: seq<nat>, k: nat)
    requires multiset(s) == multiset(t)
    ensures CountLess(s, k) == CountLess(t, k)
    decreases |s|
  {
    if s == [] {
      assert |multiset(t)| == 0;
    } else {
      var x := s[|s| - 1];
      assert x in multiset(t);
      var p :| 0 <= p < |t| && t[p] == x;
      var t' := t[..p] + t[p + 1..];
      assert t == t[..p] + [x] + t[p + 1..];
      assert s == s[..|s| - 1] + [x];
      assert multiset(t') == multiset(t) - multiset{x} == multiset(s[..|s| - 1]);
      CountLessOrderFree(s[..|s| - 1], t', k);
      CountLessRemove(t, p, k);
    }
  }

  lemma {:induction false} CountLessRemove(t: seq<nat>, p: nat, k: nat)
    requires p < |t|
    ensures CountLess(t, k) == CountLess(t[..p] + t[p + 1..], k) + if t[p] < k then 1 else 0
    decreases |t|
  {
    var t' := t[..p] + t[p + 1..];
    if p == |t| - 1 {
      assert t' == t[..|t| - 1];
    } else {
      var u := t[..|t| - 1];
      CountLessRemove(u, p, k);
      assert t'[..|t'| - 1] == u[..p] + u[p + 1..];
    }
  }

  /** The counts first fit reaches do not depend on the order in which the stash lists its blocks. */
  lemma {:induction false} GreedyOrderFree(depths: seq<nat>, shuffled: seq<nat>, buckets: nat, cap: nat, k: nat)
    requires multiset(depths) == multiset(shuffled)
    requires Bounded(depths, buckets)
    requires k <= buckets
    ensures Bounded(shuffled, buckets)
    ensures CountLess(FirstFit(depths, buckets, cap), k) == CountLess(FirstFit(shuffled, buckets, cap), k)
  {
    forall b | 0 <= b < |shuffled|
      ensures shuffled[b] <= buckets
    {
      assert shuffled[b] in multiset(shuffled) && shuffled[b] in multiset(depths);
    }
    FirstFitOptimal(depths, buckets, cap, k);
    FirstFitOptimal(shuffled, buckets, cap, k);
    BestOrderFree(depths, shuffled, cap, k);
  }

  lemma {:induction false} BestOrderFree(s: seq<nat>, t: seq<nat>, cap: nat, k: nat)
    requires multiset(s) == multiset(t)
    ensures Best(s, cap, k) == Best(t, cap, k)
  {
    if k > 0 {
      CountLessOrderFree(s, t, k);
      BestOrderFree(s, t, cap, k - 1);
    }
  }

  lemma {:induction false} CountSplits(s: seq<nat>, limit: nat)
    requires Bounded(s, limit)
    ensures CountLess(s, limit) + CountEq(s, limit) == |s|
  {
    if s != [] { CountSplits(s[..|s| - 1], limit); }
  }

  /** How many blocks the deepest k buckets hold. */
  function Filled<T>(buckets: seq<seq<T>>, k: nat): nat
    requires k <= |buckets|
  {
    if k == 0 then 0 else Filled(buckets, k - 1) + |buckets[k - 1]|
  }

  lemma {:induction false} FilledCounts<T>(buckets: seq<seq<T>>, assignment: seq<nat>, k: nat)
    requires k <= |buckets|
    requires forall i :: 0 <= i < |buckets| ==> |buckets[i]| == CountEq(assignment, i)
    ensures Filled(buckets, k) == CountLess(assignment, k)
  {
    if k == 0 {
      CountLessStep(assignment, 0);
    } else {
      FilledCounts(buckets, assignment, k - 1);
      CountLessStep(assignment, k - 1);
    }
  }

  // ----- splitting a list by an assignment -----

  /** The items assigned to i, in order. */
  function Pick<T>(items: seq<T>, assignment: seq<nat>, i: nat): (picked: seq<T>)
    requires |items| == |assignment|
    ensures |picked| == CountEq(assignment, i)
  {
    if items == [] then [] else
      var n := |items| - 1;
      Pick(items[..n], assignment[..n], i) + (if assignment[n] == i then [items[n]] else [])
  }

  lemma {:induction false} PickMembers<T>(items: seq<T>, assignment: seq<nat>, i: nat, x: T)
    requires |items| == |assignment|
    ensures x in Pick(items, assignment, i) <==> exists p :: 0 <= p < |items| && items[p] == x && assignment[p] == i
  {
    if items != [] {
      var n := |items| - 1;
      PickMembers(items[..n], assignment[..n], i, x);
      if x in Pick(items[..n], assignment[..n], i) {
        var p :| 0 <= p < n && items[..n][p] == x && assignment[..n][p] == i;
        assert items[p] == x && assignment[p] == i;
      }
      if p :| 0 <= p < |items| && items[p] == x && assignment[p] == i {
        assert p < n ==> items[..n][p] == x && assignment[..n][p] == i;
      }
    }
  }

  lemma {:induction false} PickSnoc<T>(items: seq<T>, assignment: seq<nat>, x: T, a: nat, i: nat)
    requires |items| == |assignment|
    ensures Pick(items + [x], assignment + [a], i) == Pick(items, assignment, i) + if a == i then [x] else []
  {
    assert (items + [x])[..|items|] == items && (assignment + [a])[..|items|] == assignment;
  }
}
