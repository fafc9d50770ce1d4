/** Permutations of the first n numbers. */
module Permutations {

  predicate IsPermutation(p: seq<int>)
  {
    && (forall d :: 0 <= d < |p| ==> 0 <= p[d] < |p|)
    && (forall d, e :: 0 <= d < e < |p| ==> p[d] != p[e])
  }

  function Iota(n: nat): (s: seq<nat>)
    ensures |s| == n
    ensures forall i :: 0 <= i < n ==> s[i] == i
  {
    seq(n, i => i)
  }

  predicate Within(p: seq<nat>, n: nat)
  {
    forall d :: 0 <= d < |p| ==> p[d] < n
  }

  /** The vector whose entry d is s[p[d]]. */
  function Permuted<T>(s: seq<T>, p: seq<nat>): (r: seq<T>)
    requires Within(p, |s|)
    ensures |r| == |p|
    ensures forall d :: 0 <= d < |p| ==> r[d] == s[p[d]]
  {
    seq(|p|, d requires 0 <= d < |p| => s[p[d]])
  }

  /** A permutation of the first n numbers hits each of them. */
  lemma {:induction false} PermutationCovers(p: seq<int>, x: nat)
    requires IsPermutation(p) && x < |p|
    ensures exists d :: 0 <= d < |p| && p[d] == x
  {
    if forall d :: 0 <= d < |p| ==> p[d] != x {
      var hit := set d | 0 <= d < |p| :: p[d];
      ImageSize(p, |p|);
      assert hit <= Below(|p|) - {x};
      SubsetSize(hit, Below(|p|) - {x});
      assert false;
    }
  }

  function Below(n: nat): (s: set<int>)
    ensures |s| == n
    ensures forall x :: x in s <==> 0 <= x < n
  {
    if n == 0 then {} else Below(n - 1) + {n - 1}
  }

  lemma {:induction false} ImageSize(p: seq<int>, n: nat)
    requires IsPermutation(p) && n <= |p|
    ensures |set d | 0 <= d < n :: p[d]| == n
  {
    var image := set d | 0 <= d < n :: p[d];
    if n > 0 {
      ImageSize(p, n - 1);
      assert image == (set d | 0 <= d < n - 1 :: p[d]) + {p[n - 1]};
    }
  }

  lemma {:induction false} SubsetSize<T>(a: set<T>, b: set<T>)
    requires a <= b
    ensures |a| <= |b|
    decreases |a|
  {
    if a != {} {
      var x :| x in a;
      SubsetSize(a - {x}, b - {x});
    }
  }

  method MakePermutation(size: nat) returns (permutation: seq<nat>)
    ensures |permutation| == size && IsPermutation(permutation)
  {
    permutation := Iota(size);
    for i := 0 to size
      invariant |permutation| == size && IsPermutation(permutation)
    {
      var j :| i <= j < size;
      permutation := permutation[i := permutation[j]][j := permutation[i]];
    }
  }
}
