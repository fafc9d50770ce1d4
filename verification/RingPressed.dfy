/** Ring ORAM: no rewritten bucket has room for a block that stays behind. */
module RingPressed {
  import opened Bytes
  import opened HeapTree
  import opened RingPlacement
  import opened RingState
  import opened RingTrace

  /** Bucket n is full, or no block of the stash may live in it. */
  ghost predicate Pressed(contents: seq<seq<RingBlock>>, stash: seq<RingBlock>, depth: nat, cap: nat, n: nat)
  {
    n < |contents| && (|contents[n]| == cap || forall x :: x in stash ==> !OnPath(depth, n, x.leaf))
  }

  /** A bucket that has just been filled from the stash. */
  lemma {:induction false} FilledPressed(contents: seq<seq<RingBlock>>, stash: seq<RingBlock>, depth: nat, cap: nat,
                                         n: nat)
    requires n < |contents| && contents[n] == Taken(stash, depth, n, cap)
    ensures Pressed(contents, Kept(stash, depth, n, cap), depth, cap, n)
  {
    hide Taken, Kept, OnPath;
    forall x | x in Kept(stash, depth, n, cap) && |Taken(stash, depth, n, cap)| < cap
      ensures !OnPath(depth, n, x.leaf)
    {
      TakenMembers(stash, depth, n, cap, x);
    }
  }

  // ----- the first fill -----

  /** The buckets from index `from` on are pressed, by the stash and by each other. */
  ghost predicate PressedFrom(contents: seq<seq<RingBlock>>, stash: seq<RingBlock>, depth: nat, cap: nat, from: nat)
  {
    && (forall n: nat :: from <= n < |contents| ==> Pressed(contents, stash, depth, cap, n))
    && (forall n, m, x :: from <= n < m < |contents| && x in contents[n] && OnPath(depth, m, x.leaf) ==>
          |contents[m]| == cap)
  }

  lemma {:induction false} PressedNext(contents: seq<seq<RingBlock>>, stash: seq<RingBlock>, depth: nat, cap: nat,
                                       n: nat)
    requires n < |contents| && PressedFrom(contents, stash, depth, cap, n + 1)
    ensures PressedFrom(contents[n := Taken(stash, depth, n, cap)], Kept(stash, depth, n, cap), depth, cap, n)
  {
    hide Taken, Kept, OnPath;
    var after, rest := contents[n := Taken(stash, depth, n, cap)], Kept(stash, depth, n, cap);
    FilledPressed(after, stash, depth, cap, n);
    forall m: nat | n < m < |contents|
      ensures Pressed(after, rest, depth, cap, m)
    {
      assert Pressed(contents, stash, depth, cap, m);
      forall x | x in rest
        ensures x in stash
      {
        TakenMembers(stash, depth, n, cap, x);
      }
    }
    forall m: nat, x: RingBlock | n < m < |contents| && x in after[n] && OnPath(depth, m, x.leaf)
      ensures |after[m]| == cap
    {
      TakenMembers(stash, depth, n, cap, x);
      assert Pressed(contents, stash, depth, cap, m);
    }
  }

  lemma {:induction false} NonePressed(contents: seq<seq<RingBlock>>, stash: seq<RingBlock>, depth: nat, cap: nat)
    ensures PressedFrom(contents, stash, depth, cap, |contents|)
  {
  }

  /** Every block is as deep as there was room: it found all buckets further down its path full, and a block
      that stays in the stash found all buckets of its path full. */
  ghost predicate Deepest(contents: seq<seq<RingBlock>>, stash: seq<RingBlock>, depth: nat, cap: nat)
  {
    && (forall x, m: nat :: x in stash && m < |contents| && OnPath(depth, m, x.leaf) ==> |contents[m]| == cap)
    && (forall n: nat, x, m: nat :: n < |contents| && x in contents[n] && m < |contents| ==>
          Level(n) < Level(m) && OnPath(depth, m, x.leaf) ==> |contents[m]| == cap)
  }

  lemma {:induction false} AllPressed(contents: seq<seq<RingBlock>>, stash: seq<RingBlock>, depth: nat, cap: nat)
    requires PressedFrom(contents, stash, depth, cap, 0)
    ensures Deepest(contents, stash, depth, cap)
  {
    hide OnPath, Level;
    forall x, m: nat | x in stash && m < |contents| && OnPath(depth, m, x.leaf)
      ensures |contents[m]| == cap
    {
      assert Pressed(contents, stash, depth, cap, m);
    }
    forall n: nat, x: RingBlock, m: nat | n < |contents| && x in contents[n] && m < |contents|
      ensures Level(n) < Level(m) && OnPath(depth, m, x.leaf) ==> |contents[m]| == cap
    {
      if Level(n) < Level(m) { DeeperIsLater(n, m); }
    }
  }

  lemma {:induction false} DeeperIsLater(n: nat, m: nat)
    requires Level(n) < Level(m)
    ensures n < m
  {
    hide Level, Pow2;
    LevelRange(n);
    LevelRange(m);
    Pow2Monotone(Level(n) + 1, Level(m));
  }

  // ----- rewriting a bucket of a filled tree -----

  /** Two nodes of one path: the higher one is on every path that visits the lower one. */
  lemma {:induction false} HigherNode(depth: nat, m: nat, n: nat, leaf: nat, other: nat)
    requires OnPath(depth, m, leaf) && OnPath(depth, n, leaf) && Level(m) <= Level(n) && OnPath(depth, n, other)
    ensures OnPath(depth, m, other)
  {
    ShrAgreeUp(leaf, other, depth - Level(n), depth - Level(m));
  }

  /** No path visits m below n. */
  ghost predicate NotBelow(depth: nat, m: nat, n: nat)
  {
    forall leaf: nat :: OnPath(depth, m, leaf) && OnPath(depth, n, leaf) ==> Level(m) < Level(n)
  }

  lemma {:induction false} NoneTaken(stash: seq<RingBlock>, depth: nat, n: nat, cap: nat)
    requires forall x :: x in stash ==> !OnPath(depth, n, x.leaf)
    ensures Taken(stash, depth, n, cap) == [] && Kept(stash, depth, n, cap) == stash
  {
    hide Taken, Kept, OnPath;
    if stash == [] {
      NothingTaken(depth, n, cap);
    } else {
      var init, last := stash[..|stash| - 1], stash[|stash| - 1];
      assert stash == init + [last];
      assert last in stash && forall x :: x in init ==> x in stash;
      NoneTaken(init, depth, n, cap);
      TakenSnoc(init, last, depth, n, cap);
    }
  }

  /** If no other block may live in the bucket, its own blocks all go back. */
  lemma {:induction false} AllBack(stash: seq<RingBlock>, own: seq<RingBlock>, depth: nat, n: nat, cap: nat)
    requires |own| <= cap
    requires forall x :: x in stash ==> !OnPath(depth, n, x.leaf)
    requires forall x :: x in own ==> OnPath(depth, n, x.leaf)
    ensures Taken(stash + own, depth, n, cap) == own && Kept(stash + own, depth, n, cap) == stash
  {
    hide Taken, Kept, OnPath;
    if own == [] {
      assert stash + own == stash;
      NoneTaken(stash, depth, n, cap);
    } else {
      var init, last := own[..|own| - 1], own[|own| - 1];
      assert own == init + [last];
      assert last in own && forall x :: x in init ==> x in own;
      AllBack(stash, init, depth, n, cap);
      TakenSnoc(stash + init, last, depth, n, cap);
      assert stash + own == stash + init + [last];
    }
  }

  /** Rewriting bucket n with its own blocks and the stash's disturbs no pressed bucket that is not below it. */
  lemma {:induction false} StaysPressed(contents: seq<seq<RingBlock>>, stash: seq<RingBlock>, depth: nat, cap: nat,
                                        m: nat, n: nat)
    requires Pressed(contents, stash, depth, cap, m) && n < |contents| && m != n && NotBelow(depth, m, n)
    requires |contents[n]| <= cap && forall x :: x in contents[n] ==> OnPath(depth, n, x.leaf)
    ensures var all := stash + contents[n];
            Pressed(contents[n := Taken(all, depth, n, cap)], Kept(all, depth, n, cap), depth, cap, m)
  {
    hide Taken, Kept, OnPath, Level;
    var all := stash + contents[n];
    if |contents[m]| != cap {
      forall y | y in Kept(all, depth, n, cap)
        ensures !OnPath(depth, m, y.leaf)
      {
        if OnPath(depth, m, y.leaf) {
          TakenMembers(all, depth, n, cap, y);
          assert y in contents[n];
          forall x | x in stash
            ensures !OnPath(depth, n, x.leaf)
          {
            if OnPath(depth, n, x.leaf) { HigherNode(depth, m, n, y.leaf, x.leaf); }
          }
          AllBack(stash, contents[n], depth, n, cap);
          assert false;
        }
      }
    }
  }

  /** What the rewriting of the worn buckets among the first i of a path has made of stash and buckets. */
  ghost predicate Reshuffled(depth: nat, cap: nat, s: nat, path: seq<nat>, counts: seq<nat>, i: nat,
                             contents: seq<seq<RingBlock>>, stash: seq<RingBlock>, contents': seq<seq<RingBlock>>,
                             stash': seq<RingBlock>)
  {
    && |contents'| == |contents| == |counts|
    && (forall n: nat :: n < |contents| ==>
          if Worn(path, counts, s, i, n) then Pressed(contents', stash', depth, cap, n) else contents'[n] == contents[n])
    && (forall m: nat :: Pressed(contents, stash, depth, cap, m) && AboveWorn(depth, path, counts, s, i, m) ==>
          Pressed(contents', stash', depth, cap, m))
    && (forall x :: x in stash ==> x in stash' || Settled(path, counts, s, i, contents', x))
  }

  ghost predicate Worn(path: seq<nat>, counts: seq<nat>, s: nat, i: nat, n: nat)
  {
    i <= |path| && n in path[..i] && n < |counts| && counts[n] >= s
  }

  /** No path visits m below or at a worn bucket. */
  ghost predicate AboveWorn(depth: nat, path: seq<nat>, counts: seq<nat>, s: nat, i: nat, m: nat)
  {
    forall n: nat :: Worn(path, counts, s, i, n) ==> m != n && NotBelow(depth, m, n)
  }

  /** The block is in one of the worn buckets. */
  ghost predicate Settled(path: seq<nat>, counts: seq<nat>, s: nat, i: nat, contents: seq<seq<RingBlock>>, x: RingBlock)
  {
    exists n: nat :: Worn(path, counts, s, i, n) && n < |contents| && x in contents[n]
  }

  lemma {:induction false} ReshuffleStart(depth: nat, cap: nat, s: nat, path: seq<nat>, counts: seq<nat>,
                                          contents: seq<seq<RingBlock>>, stash: seq<RingBlock>)
    requires |contents| == |counts|
    ensures Reshuffled(depth, cap, s, path, counts, 0, contents, stash, contents, stash)
  {
    hide Pressed, NotBelow;
  }

  lemma {:induction false} WornNext(path: seq<nat>, counts: seq<nat>, s: nat, i: nat, n: nat)
    requires i < |path| && path[i] < |counts|
    ensures Worn(path, counts, s, i + 1, n) <==> Worn(path, counts, s, i, n) || (n == path[i] && counts[n] >= s)
  {
    assert path[..i + 1] == path[..i] + [path[i]];
  }

  /** A bucket that is not worn is passed over. */
  lemma {:induction false} ReshufflePasses(depth: nat, cap: nat, s: nat, path: seq<nat>, counts: seq<nat>, i: nat,
                                           contents: seq<seq<RingBlock>>, stash: seq<RingBlock>,
                                           contents': seq<seq<RingBlock>>, stash': seq<RingBlock>)
    requires Reshuffled(depth, cap, s, path, counts, i, contents, stash, contents', stash')
    requires i < |path| && path[i] < |counts| && counts[path[i]] < s
    ensures Reshuffled(depth, cap, s, path, counts, i + 1, contents, stash, contents', stash')
  {
    forall n: nat
      ensures Worn(path, counts, s, i + 1, n) <==> Worn(path, counts, s, i, n)
    {
      WornNext(path, counts, s, i, n);
    }
    hide Worn, Pressed, NotBelow;
  }

  /** A worn bucket is rewritten. */
  lemma {:induction false} ReshuffleRewrites(depth: nat, cap: nat, s: nat, path: seq<nat>, counts: seq<nat>, i: nat,
                                             leaf: nat, contents: seq<seq<RingBlock>>, stash: seq<RingBlock>,
                                             contents': seq<seq<RingBlock>>, stash': seq<RingBlock>)
    requires leaf < NumLeaves(depth) && path == PathNodes(depth, leaf)
    requires Reshuffled(depth, cap, s, path, counts, i, contents, stash, contents', stash')
    requires i < |path| && path[i] < |counts| && counts[path[i]] >= s
    requires |contents'[path[i]]| <= cap && forall x :: x in contents'[path[i]] ==> OnPath(depth, path[i], x.leaf)
    ensures var n, all := path[i], stash' + contents'[path[i]];
            Reshuffled(depth, cap, s, path, counts, i + 1, contents, stash,
                       contents'[n := Taken(all, depth, n, cap)], Kept(all, depth, n, cap))
  {
    var n, all := path[i], stash' + contents'[path[i]];
    var after, rest := contents'[n := Taken(all, depth, n, cap)], Kept(all, depth, n, cap);
    forall m: nat
      ensures Worn(path, counts, s, i + 1, m) <==> Worn(path, counts, s, i, m) || m == n
      ensures Worn(path, counts, s, i, m) ==> m != n && NotBelow(depth, m, n)
    {
      WornNext(path, counts, s, i, m);
      if Worn(path, counts, s, i, m) { EarlierAbove(depth, path, leaf, i, m); }
    }
    hide Worn, Taken, Kept, OnPath, PathNodes;
    FilledPressed(after, all, depth, cap, n);
    hide NotBelow;
    forall m: nat | Pressed(contents', stash', depth, cap, m) && m != n && NotBelow(depth, m, n)
      ensures Pressed(after, rest, depth, cap, m)
    {
      StaysPressed(contents', stash', depth, cap, m, n);
    }
    hide Pressed;
    forall x | x in stash
      ensures x in rest || Settled(path, counts, s, i + 1, after, x)
    {
      TakenMembers(all, depth, n, cap, x);
      if x !in rest {
        if x in stash' {
          assert Worn(path, counts, s, i + 1, n) && x in after[n];
        } else {
          StaysSettled(path, counts, s, i, contents', after, x);
        }
      }
    }
  }

  lemma {:induction false} StaysSettled(path: seq<nat>, counts: seq<nat>, s: nat, i: nat, contents: seq<seq<RingBlock>>,
                                        contents': seq<seq<RingBlock>>, x: RingBlock)
    requires Settled(path, counts, s, i, contents, x) && |contents'| == |contents|
    requires forall n: nat :: n < |contents| && Worn(path, counts, s, i, n) ==>
               contents'[n] == contents[n] && Worn(path, counts, s, i + 1, n)
    ensures Settled(path, counts, s, i + 1, contents', x)
  {
    hide Worn;
    var n: nat :| Worn(path, counts, s, i, n) && n < |contents| && x in contents[n];
    assert Worn(path, counts, s, i + 1, n) && x in contents'[n];
  }

  lemma {:induction false} EarlierAbove(depth: nat, path: seq<nat>, leaf: nat, i: nat, m: nat)
    requires leaf < NumLeaves(depth) && path == PathNodes(depth, leaf) && i < |path| && m in path[..i]
    ensures m != path[i] && NotBelow(depth, m, path[i])
  {
    var j :| 0 <= j < i && path[j] == m;
    NodeAtRange(depth, leaf, i);
    NodeAtRange(depth, leaf, j);
    hide OnPath, NodeAt;
  }

  /** A path that was not read is disturbed nowhere: none of its buckets is below another path's. */
  lemma {:induction false} ApartAbove(depth: nat, path: seq<nat>, counts: seq<nat>, s: nat, i: nat, leaf: nat, m: nat)
    requires OnPath(depth, m, leaf)
    requires forall n: nat :: Worn(path, counts, s, i, n) ==> !OnPath(depth, n, leaf)
    ensures AboveWorn(depth, path, counts, s, i, m)
  {
    hide Worn, OnPath, Level;
    forall n: nat, other: nat | Worn(path, counts, s, i, n) && OnPath(depth, m, other) && OnPath(depth, n, other)
      ensures Level(m) < Level(n)
    {
      if Level(n) <= Level(m) { HigherNode(depth, n, m, other, leaf); }
    }
  }

  // ----- writing a path back -----

  /** Only the buckets of path[i..] have changed. */
  ghost predicate OffPath(contents: seq<seq<RingBlock>>, contents': seq<seq<RingBlock>>, path: seq<nat>, i: nat)
  {
    && |contents'| == |contents| && i <= |path|
    && forall n: nat :: n < |contents| && n !in path[i..] ==> contents'[n] == contents[n]
  }

  lemma {:induction false} OffPathNext(contents: seq<seq<RingBlock>>, contents': seq<seq<RingBlock>>, path: seq<nat>,
                                       i: nat, blocks: seq<RingBlock>)
    requires OffPath(contents, contents', path, i + 1) && i < |path| && path[i] < |contents'|
    ensures OffPath(contents, contents'[path[i] := blocks], path, i)
  {
    assert path[i..] == [path[i]] + path[i + 1..];
  }

  lemma {:induction false} OffPathStart(contents: seq<seq<RingBlock>>, path: seq<nat>)
    ensures OffPath(contents, contents, path, |path|)
  {
  }

  // ----- everything an access rewrites -----

  /** Rewritten buckets are pressed, the others hold what they held. */
  ghost predicate Tidy(depth: nat, cap: nat, rewritten: set<nat>, contents: seq<seq<RingBlock>>,
                       contents': seq<seq<RingBlock>>, stash': seq<RingBlock>)
  {
    && |contents'| == |contents|
    && forall n: nat :: n < |contents| ==>
         if n in rewritten then Pressed(contents', stash', depth, cap, n) else contents'[n] == contents[n]
  }

  /** The buckets of a path that have been read at least s times. */
  function WornNodes(path: seq<nat>, counts: seq<nat>, s: nat): (w: set<nat>)
  {
    set n | n in path && n < |counts| && counts[n] >= s
  }

  lemma {:induction false} NoneWorn(counts: seq<nat>, s: nat)
    ensures WornNodes([], counts, s) == {}
  {
  }

  /** One more bucket of the path. */
  lemma {:induction false} WornCount(path: seq<nat>, counts: seq<nat>, s: nat, i: nat)
    requires i < |path| && path[i] < |counts| && path[i] !in path[..i]
    ensures |WornNodes(path[..i + 1], counts, s)|
         == |WornNodes(path[..i], counts, s)| + if counts[path[i]] >= s then 1 else 0
  {
    assert path[..i + 1] == path[..i] + [path[i]];
    assert WornNodes(path[..i + 1], counts, s)
        == WornNodes(path[..i], counts, s) + if counts[path[i]] >= s then {path[i]} else {};
  }

  lemma {:induction false} NothingRewritten(depth: nat, cap: nat, contents: seq<seq<RingBlock>>, stash: seq<RingBlock>)
    ensures Tidy(depth, cap, {}, contents, contents, stash)
  {
  }

  /** A path that has been filled from the leaf up. */
  lemma {:induction false} RefillTidy(contents: seq<seq<RingBlock>>, contents': seq<seq<RingBlock>>,
                                      all: seq<RingBlock>, depth: nat, leaf: nat, cap: nat)
    requires leaf < NumLeaves(depth) && OffPath(contents, contents', PathNodes(depth, leaf), 0)
    requires PathFilled(contents', all, depth, leaf, cap, 0)
    ensures Tidy(depth, cap, NodeSet(PathNodes(depth, leaf)), contents, contents',
                 FillFromLeaf(all, depth, leaf, cap, depth + 1))
  {
    hide FillOf, FillFromLeaf, NodeAt, OnPath;
    var path, stash := PathNodes(depth, leaf), FillFromLeaf(all, depth, leaf, cap, depth + 1);
    assert path[0..] == path;
    forall n: nat | n in path
      ensures Pressed(contents', stash, depth, cap, n)
    {
      var j: nat :| j <= depth && path[j] == n;
      assert NodeAt(depth, leaf, j) < |contents'|;
      forall x | x in stash && OnPath(depth, n, x.leaf)
        ensures |contents'[n]| == cap
      {
        LeftoverBlocked(all, depth, leaf, cap, depth - j, x);
      }
    }
  }

  /** Every block of the path found all buckets of the path further down its own path full. */
  ghost predicate PathDeepest(contents: seq<seq<RingBlock>>, depth: nat, cap: nat, path: set<nat>)
  {
    forall n: nat, x, m: nat :: n in path && n < |contents| && x in contents[n] && m in path && m < |contents| ==>
      Level(n) < Level(m) && OnPath(depth, m, x.leaf) ==> |contents[m]| == cap
  }

  lemma {:induction false} RefillDeepest(contents: seq<seq<RingBlock>>, all: seq<RingBlock>, depth: nat, leaf: nat,
                                         cap: nat)
    requires leaf < NumLeaves(depth) && PathFilled(contents, all, depth, leaf, cap, 0)
    ensures PathDeepest(contents, depth, cap, NodeSet(PathNodes(depth, leaf)))
  {
    hide FillOf, FillFromLeaf, NodeAt, OnPath, Level;
    var path := PathNodes(depth, leaf);
    forall n: nat, x: RingBlock, m: nat | n in path && n < |contents| && x in contents[n] && m in path && m < |contents|
      ensures Level(n) < Level(m) && OnPath(depth, m, x.leaf) ==> |contents[m]| == cap
    {
      var j: nat :| j <= depth && path[j] == n;
      var k: nat :| k <= depth && path[k] == m;
      NodeAtRange(depth, leaf, j);
      NodeAtRange(depth, leaf, k);
      assert contents[NodeAt(depth, leaf, j)] == FillOf(all, depth, leaf, cap, depth - j);
      assert contents[NodeAt(depth, leaf, k)] == FillOf(all, depth, leaf, cap, depth - k);
      if j < k && OnPath(depth, m, x.leaf) { PassedOver(all, depth, leaf, cap, depth - k, depth - j, x); }
    }
  }

  /** A block that went into a higher bucket was offered to the lower ones first. */
  lemma {:induction false} PassedOver(all: seq<RingBlock>, height: nat, leaf: nat, cap: nat, i: nat, k: nat,
                                      x: RingBlock)
    requires i < k <= height && x in FillOf(all, height, leaf, cap, k)
    requires OnPath(height, NodeAt(height, leaf, height - i), x.leaf)
    ensures |FillOf(all, height, leaf, cap, i)| == cap
  {
    hide Kept, Taken, NodeAt, OnPath;
    TakenMembers(FillFromLeaf(all, height, leaf, cap, k), height, NodeAt(height, leaf, height - k), cap, x);
    FillShrinks(all, height, leaf, cap, i + 1, k, x);
    TakenMembers(FillFromLeaf(all, height, leaf, cap, i), height, NodeAt(height, leaf, height - i), cap, x);
  }

  /** An eviction of one path and the reshuffle of another, where no worn bucket is on the evicted path. */
  lemma {:induction false} TidyBoth(depth: nat, cap: nat, s: nat, evicted: set<nat>, leaf: nat, path: seq<nat>,
                                    counts: seq<nat>, contents: seq<seq<RingBlock>>, mid: seq<seq<RingBlock>>,
                                    stash: seq<RingBlock>, contents': seq<seq<RingBlock>>, stash': seq<RingBlock>)
    requires Tidy(depth, cap, evicted, contents, mid, stash)
    requires forall m: nat :: m in evicted ==> OnPath(depth, m, leaf)
    requires forall n: nat :: n in WornNodes(path, counts, s) ==> evicted == {} || !OnPath(depth, n, leaf)
    requires Reshuffled(depth, cap, s, path, counts, |path|, mid, stash, contents', stash')
    ensures Tidy(depth, cap, evicted + WornNodes(path, counts, s), contents, contents', stash')
  {
    assert path[..|path|] == path;
    forall n: nat
      ensures Worn(path, counts, s, |path|, n) <==> n in WornNodes(path, counts, s)
    {
    }
    hide Worn, WornNodes, Pressed, OnPath, NotBelow;
    forall n: nat | n < |contents| && n in evicted && !Worn(path, counts, s, |path|, n)
      ensures Pressed(contents', stash', depth, cap, n)
    {
      ApartAbove(depth, path, counts, s, |path|, leaf, n);
    }
  }

  /** The reshuffle of another path leaves the evicted buckets alone. */
  lemma {:induction false} StaysDeepest(depth: nat, cap: nat, s: nat, evicted: set<nat>, leaf: nat, path: seq<nat>,
                                        counts: seq<nat>, mid: seq<seq<RingBlock>>, stash: seq<RingBlock>,
                                        contents': seq<seq<RingBlock>>, stash': seq<RingBlock>)
    requires forall m: nat :: m in evicted ==> OnPath(depth, m, leaf)
    requires forall n: nat :: n in WornNodes(path, counts, s) ==> !OnPath(depth, n, leaf)
    requires Reshuffled(depth, cap, s, path, counts, |path|, mid, stash, contents', stash')
    ensures PathDeepest(mid, depth, cap, evicted) ==> PathDeepest(contents', depth, cap, evicted)
  {
    hide Pressed, NotBelow, OnPath, Level;
    assert path[..|path|] == path;
    forall n: nat | n < |mid| && n in evicted
      ensures contents'[n] == mid[n]
    {
      assert Worn(path, counts, s, |path|, n) ==> n in WornNodes(path, counts, s);
    }
  }

  /** The buckets that an access reading the path of a leaf rewrites: the evicted path, when one is due, and the
      worn buckets of the leaf's own path. */
  function RewrittenBy(cfg: Config, p: Public, leaf: nat): (r: set<nat>)
    requires cfg.a > 0
  {
    (if (p.round + 1) % cfg.a == 0 then NodeSet(EvictionPath(cfg, p.evictions)) else {})
    + WornNodes(PathNodes(cfg.treeDepth, leaf), CountsBeforeReshuffle(cfg, p, leaf), cfg.s)
  }

  /** A bucket that has just been rewritten by the eviction is not worn. */
  lemma {:induction false} EvictedFresh(cfg: Config, p: Public, leaf: nat)
    requires cfg.a > 0 && cfg.s > 0 && (p.round + 1) % cfg.a == 0
    ensures var top := p.evictions % NumLeaves(cfg.treeDepth);
            && (forall m: nat :: m in NodeSet(EvictionPath(cfg, p.evictions)) ==> OnPath(cfg.treeDepth, m, top))
            && (forall n: nat :: n in WornNodes(PathNodes(cfg.treeDepth, leaf), CountsBeforeReshuffle(cfg, p, leaf), cfg.s)
                  ==> !OnPath(cfg.treeDepth, n, top))
  {
    hide OnPath, Bump, PathNodes;
    var top := p.evictions % NumLeaves(cfg.treeDepth);
    forall m: nat
      ensures m in EvictionPath(cfg, p.evictions) <==> OnPath(cfg.treeDepth, m, top)
    {
      PathMembers(cfg.treeDepth, top, m);
    }
  }

  /** The rewriting that follows a read. */
  lemma {:induction false} AccessTidy(cfg: Config, p: Public, leaf: nat, contents: seq<seq<RingBlock>>,
                                      mid: seq<seq<RingBlock>>, stash: seq<RingBlock>,
                                      contents': seq<seq<RingBlock>>, stash': seq<RingBlock>)
    requires cfg.a > 0 && cfg.s > 0
    requires if (p.round + 1) % cfg.a == 0
             then Tidy(cfg.treeDepth, cfg.z, NodeSet(EvictionPath(cfg, p.evictions)), contents, mid, stash)
             else mid == contents
    requires Reshuffled(cfg.treeDepth, cfg.z, cfg.s, PathNodes(cfg.treeDepth, leaf), CountsBeforeReshuffle(cfg, p, leaf),
                        cfg.treeDepth + 1, mid, stash, contents', stash')
    ensures Tidy(cfg.treeDepth, cfg.z, RewrittenBy(cfg, p, leaf), contents, contents', stash')
    ensures (p.round + 1) % cfg.a == 0
            && PathDeepest(mid, cfg.treeDepth, cfg.z, NodeSet(EvictionPath(cfg, p.evictions))) ==>
              PathDeepest(contents', cfg.treeDepth, cfg.z, NodeSet(EvictionPath(cfg, p.evictions)))
  {
    hide Tidy, Reshuffled, OnPath, CountsBeforeReshuffle, EvictionPath, WornNodes, NodeSet;
    var evicted := if (p.round + 1) % cfg.a == 0 then NodeSet(EvictionPath(cfg, p.evictions)) else {};
    if (p.round + 1) % cfg.a == 0 {
      EvictedFresh(cfg, p, leaf);
      StaysDeepest(cfg.treeDepth, cfg.z, cfg.s, evicted, p.evictions % NumLeaves(cfg.treeDepth),
                   PathNodes(cfg.treeDepth, leaf), CountsBeforeReshuffle(cfg, p, leaf), mid, stash, contents', stash');
    } else {
      NothingRewritten(cfg.treeDepth, cfg.z, contents, stash);
    }
    TidyBoth(cfg.treeDepth, cfg.z, cfg.s, evicted, p.evictions % NumLeaves(cfg.treeDepth), PathNodes(cfg.treeDepth, leaf),
             CountsBeforeReshuffle(cfg, p, leaf), contents, mid, stash, contents', stash');
  }
}
