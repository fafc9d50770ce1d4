/** Path ORAM: what the stash, the tree and the position map must agree on. */
module PathState {
  import opened Bytes
  import opened HeapTree
  import opened Placement
  import opened Ram
  import opened Results

  const DUMMY: nat := 0xFFFF_FFFF_FFFF_FFFF
  const BUCKET_SIZE: nat := 4
  const BLOCK_SIZE: nat := 256
  const STASH: int := -1

  datatype Block = Block(id: nat, data: seq<byte>)

  type Bucket = seq<Block>

  function UpTo(blocks: seq<Block>, capacity: nat): seq<Block>
  {
    if |blocks| <= capacity then blocks else blocks[..capacity]
  }

  /** The blocks of a bucket that are not padding. */
  function Reals(bucket: Bucket): (r: seq<Block>)
  {
    if bucket == [] then [] else
      var last := bucket[|bucket| - 1];
      Reals(bucket[..|bucket| - 1]) + (if last.id != DUMMY then [last] else [])
  }

  ghost predicate Distinct(blocks: seq<Block>)
  {
    forall i, j :: 0 <= i < j < |blocks| ==> blocks[i].id != blocks[j].id
  }

  /** Block b is the current copy of its address, and the address lives at `at`. */
  predicate Here(mem: Memory, loc: map<nat, int>, b: Block, at: int)
  {
    b.id in mem && b.id in loc && loc[b.id] == at && b.data == mem[b.id]
  }

  /** The stash and the buckets outside `stale` hold exactly the current blocks, each once, and every
      block in the tree is on the path of its leaf. Buckets in `stale` have been read into the stash
      and are about to be rewritten. */
  ghost predicate Placed(height: nat, stash: seq<Block>, tree: seq<Bucket>, pos: seq<nat>, mem: Memory,
                         loc: map<nat, int>, stale: set<nat>)
  {
    && Distinct(stash)
    && (forall n :: 0 <= n < |tree| && n !in stale ==> Distinct(Reals(tree[n])))
    && (forall b :: b in stash <==> Here(mem, loc, b, STASH))
    && (forall n, b :: 0 <= n < |tree| && n !in stale ==> (b in Reals(tree[n]) <==> Here(mem, loc, b, n)))
    && Located(height, |tree|, pos, mem, loc, stale)
  }

  ghost predicate Located(height: nat, nodes: nat, pos: seq<nat>, mem: Memory, loc: map<nat, int>, stale: set<nat>)
  {
    && loc.Keys == mem.Keys
    && (forall a :: a in mem ==> a < |pos| && a != DUMMY)
    && (forall a :: a in loc && loc[a] != STASH ==>
          0 <= loc[a] < nodes && loc[a] !in stale && a < |pos| && OnPath(height, loc[a], pos[a]))
  }

  lemma {:induction false} RealsOfReals(blocks: seq<Block>)
    requires forall b :: b in blocks ==> b.id != DUMMY
    ensures Reals(blocks) == blocks
  {
    if blocks != [] {
      var init, last := blocks[..|blocks| - 1], blocks[|blocks| - 1];
      assert Reals(blocks) == Reals(init) + if last.id != DUMMY then [last] else [];
      hide Reals;
      assert blocks == init + [last];
      forall b | b in init
        ensures b.id != DUMMY
      {
        assert b in init + [last];
      }
      assert last in init + [last];
      RealsOfReals(init);
    }
  }

  // ----- reading a bucket into the stash -----

  /** Everything at node n moves to the stash. */
  ghost function Absorbed(loc: map<nat, int>, n: nat): map<nat, int>
  {
    map a | a in loc :: if loc[a] == n then STASH else loc[a]
  }

  lemma {:induction false} AbsorbDistinct(stash: seq<Block>, reals: seq<Block>, mem: Memory, loc: map<nat, int>, n: nat)
    requires Distinct(stash) && Distinct(reals)
    requires forall b :: b in stash <==> Here(mem, loc, b, STASH)
    requires forall b :: b in reals <==> Here(mem, loc, b, n)
    ensures Distinct(stash + reals)
  {
    var all := stash + reals;
    forall i, j | 0 <= i < j < |all|
      ensures all[i].id != all[j].id
    {
      if i < |stash| <= j {
        assert all[i] in stash && all[j] in reals;
      }
    }
  }

  lemma {:induction false} AbsorbBucket(height: nat, stash: seq<Block>, tree: seq<Bucket>, pos: seq<nat>, mem: Memory,
                                        loc: map<nat, int>, stale: set<nat>, n: nat)
    requires Placed(height, stash, tree, pos, mem, loc, stale)
    requires n < |tree| && n !in stale
    ensures Placed(height, stash + Reals(tree[n]), tree, pos, mem, Absorbed(loc, n), stale + {n})
  {
    var reals, loc', stale' := Reals(tree[n]), Absorbed(loc, n), stale + {n};
    assert forall b :: b in reals <==> Here(mem, loc, b, n);
    AbsorbDistinct(stash, reals, mem, loc, n);
    forall b
      ensures b in stash + reals <==> Here(mem, loc', b, STASH)
    {
      assert b in stash <==> Here(mem, loc, b, STASH);
    }
    forall m, b | 0 <= m < |tree| && m !in stale'
      ensures b in Reals(tree[m]) <==> Here(mem, loc', b, m)
    {
      assert b in Reals(tree[m]) <==> Here(mem, loc, b, m);
    }
  }

  // ----- writing the stash back -----

  /** `buckets` and `rest` split the stash: nothing is lost and nothing is duplicated. */
  ghost predicate Splits(stash: seq<Block>, buckets: seq<Bucket>, rest: seq<Block>)
  {
    && Distinct(rest)
    && (forall i :: 0 <= i < |buckets| ==> Distinct(buckets[i]))
    && (forall b :: b in rest ==> b in stash && Where(buckets, b) == |buckets|)
    && (forall i, b :: 0 <= i < |buckets| ==> (b in buckets[i] <==> b in stash && Where(buckets, b) == i))
    && (forall b :: b in stash && Where(buckets, b) == |buckets| ==> b in rest)
  }

  /** The last bucket that holds b, or |buckets| when there is none. */
  function Where(buckets: seq<Bucket>, b: Block): (i: nat)
    ensures i <= |buckets|
    ensures i < |buckets| ==> b in buckets[i]
    ensures i == |buckets| ==> forall j :: 0 <= j < |buckets| ==> b !in buckets[j]
  {
    if buckets == [] then 0 else
      var n := |buckets| - 1;
      if b in buckets[n] then n else
        var i := Where(buckets[..n], b);
        assert i == n ==> forall j :: 0 <= j < n ==> buckets[j] == buckets[..n][j];
        if i == n then n + 1 else i
  }

  /** Where each address is once the stash has been written to the path. */
  ghost function Written(loc: map<nat, int>, mem: Memory, path: seq<nat>, buckets: seq<Bucket>): map<nat, int>
    requires loc.Keys == mem.Keys && |path| == |buckets|
  {
    map a | a in loc ::
      if loc[a] != STASH then loc[a] else
        var i := Where(buckets, Block(a, mem[a]));
        if i < |buckets| then path[i] else STASH
  }

  lemma {:induction false} WrittenAt(loc: map<nat, int>, mem: Memory, path: seq<nat>, buckets: seq<Bucket>,
                                     stash: seq<Block>, rest: seq<Block>, b: Block)
    requires loc.Keys == mem.Keys && |path| == |buckets| && Splits(stash, buckets, rest)
    requires b in stash <==> Here(mem, loc, b, STASH)
    ensures b in rest <==> Here(mem, Written(loc, mem, path, buckets), b, STASH)
    ensures b in stash ==> b.id in loc && b == Block(b.id, mem[b.id]) && loc[b.id] == STASH
  {
  }

  ghost predicate PathInTree(path: seq<nat>, nodes: nat)
  {
    && (forall i :: 0 <= i < |path| ==> path[i] < nodes)
    && (forall i, j :: 0 <= i < j < |path| ==> path[i] != path[j])
  }

  /** The tree after the buckets of one path have been replaced. */
  ghost predicate Rewritten(tree: seq<Bucket>, tree': seq<Bucket>, path: seq<nat>, buckets: seq<Bucket>)
  {
    && |tree'| == |tree| && |path| == |buckets| && PathInTree(path, |tree|)
    && (forall i :: 0 <= i < |path| ==> Reals(tree'[path[i]]) == buckets[i])
    && (forall n :: 0 <= n < |tree| && n !in path ==> tree'[n] == tree[n])
  }

  lemma {:induction false} BucketAfterWrite(height: nat, stash: seq<Block>, rest: seq<Block>, tree: seq<Bucket>,
                                            tree': seq<Bucket>, pos: seq<nat>, mem: Memory, loc: map<nat, int>,
                                            path: seq<nat>, buckets: seq<Bucket>, n: nat, b: Block)
    requires Placed(height, stash, tree, pos, mem, loc, NodeSet(path))
    requires Splits(stash, buckets, rest) && Rewritten(tree, tree', path, buckets) && n < |tree|
    ensures b in Reals(tree'[n]) <==> Here(mem, Written(loc, mem, path, buckets), b, n)
  {
    assert b in stash <==> Here(mem, loc, b, STASH);
    WrittenAt(loc, mem, path, buckets, stash, rest, b);
    if n in path {
      var i :| 0 <= i < |path| && path[i] == n;
      assert b in buckets[i] <==> b in stash && Where(buckets, b) == i;
    } else {
      assert b in Reals(tree[n]) <==> Here(mem, loc, b, n);
    }
  }

  lemma {:induction false} WriteBack(height: nat, stash: seq<Block>, rest: seq<Block>, tree: seq<Bucket>,
                                     tree': seq<Bucket>, pos: seq<nat>, mem: Memory, loc: map<nat, int>,
                                     path: seq<nat>, buckets: seq<Bucket>)
    requires Placed(height, stash, tree, pos, mem, loc, NodeSet(path))
    requires Splits(stash, buckets, rest) && Rewritten(tree, tree', path, buckets)
    requires forall i, b :: 0 <= i < |path| && b in buckets[i] ==> b.id < |pos| && OnPath(height, path[i], pos[b.id])
    ensures loc.Keys == mem.Keys
    ensures Placed(height, rest, tree', pos, mem, Written(loc, mem, path, buckets), {})
  {
    var loc' := Written(loc, mem, path, buckets);
    forall b
      ensures b in rest <==> Here(mem, loc', b, STASH)
    {
      assert b in stash <==> Here(mem, loc, b, STASH);
      WrittenAt(loc, mem, path, buckets, stash, rest, b);
    }
    forall n, b | 0 <= n < |tree'|
      ensures b in Reals(tree'[n]) <==> Here(mem, loc', b, n)
    {
      BucketAfterWrite(height, stash, rest, tree, tree', pos, mem, loc, path, buckets, n, b);
    }
    forall n | 0 <= n < |tree'|
      ensures Distinct(Reals(tree'[n]))
    {
      if n in path {
        var i :| 0 <= i < |path| && path[i] == n;
      }
    }
    WrittenLocated(height, |tree|, pos, mem, loc, path, buckets);
  }

  lemma {:induction false} WrittenLocated(height: nat, nodes: nat, pos: seq<nat>, mem: Memory, loc: map<nat, int>,
                                          path: seq<nat>, buckets: seq<Bucket>)
    requires |path| == |buckets| && PathInTree(path, nodes)
    requires Located(height, nodes, pos, mem, loc, NodeSet(path))
    requires forall i, b :: 0 <= i < |path| && b in buckets[i] ==> b.id < |pos| && OnPath(height, path[i], pos[b.id])
    ensures Located(height, nodes, pos, mem, Written(loc, mem, path, buckets), {})
  {
    var loc' := Written(loc, mem, path, buckets);
    forall a | a in loc' && loc'[a] != STASH
      ensures 0 <= loc'[a] < nodes && a < |pos| && OnPath(height, loc'[a], pos[a])
    {
      if loc[a] == STASH {
        var i := Where(buckets, Block(a, mem[a]));
        assert Block(a, mem[a]) in buckets[i];
      }
    }
  }

  lemma {:induction false} PickDistinct(stash: seq<Block>, assignment: seq<nat>, i: nat)
    requires Distinct(stash) && |assignment| == |stash|
    ensures Distinct(Pick(stash, assignment, i))
  {
    if stash != [] {
      var n := |stash| - 1;
      PickDistinct(stash[..n], assignment[..n], i);
      var picked := Pick(stash[..n], assignment[..n], i);
      forall j | 0 <= j < |picked|
        ensures picked[j].id != stash[n].id
      {
        PickMembers(stash[..n], assignment[..n], i, picked[j]);
      }
    }
  }

  lemma {:induction false} DistinctMember(stash: seq<Block>, p: nat, q: nat)
    requires Distinct(stash) && p < |stash| && q < |stash| && stash[p].id == stash[q].id
    ensures p == q
  {
  }

  /** Each stash position goes to one place only. */
  lemma {:induction false} PickedOnce(stash: seq<Block>, assignment: seq<nat>, i: nat, j: nat, b: Block)
    requires Distinct(stash) && |assignment| == |stash|
    requires b in Pick(stash, assignment, i) && b in Pick(stash, assignment, j)
    ensures i == j && b in stash
  {
    PickMembers(stash, assignment, i, b);
    PickMembers(stash, assignment, j, b);
    var p :| 0 <= p < |stash| && stash[p] == b && assignment[p] == i;
    var q :| 0 <= q < |stash| && stash[q] == b && assignment[q] == j;
    DistinctMember(stash, p, q);
  }

  lemma {:induction false} PickedSomewhere(stash: seq<Block>, assignment: seq<nat>, limit: nat, b: Block)
    returns (i: nat)
    requires |assignment| == |stash| && Bounded(assignment, limit) && b in stash
    ensures i <= limit && b in Pick(stash, assignment, i)
  {
    var p :| 0 <= p < |stash| && stash[p] == b;
    i := assignment[p];
    PickMembers(stash, assignment, i, b);
  }

  ghost predicate Picked(stash: seq<Block>, assignment: seq<nat>, buckets: seq<Bucket>)
  {
    && Distinct(stash) && |assignment| == |stash| && Bounded(assignment, |buckets|)
    && (forall i :: 0 <= i < |buckets| ==> buckets[i] == Pick(stash, assignment, i))
  }

  lemma {:induction false} PickedAt(stash: seq<Block>, assignment: seq<nat>, buckets: seq<Bucket>, i: nat, b: Block)
    requires Picked(stash, assignment, buckets) && i <= |buckets|
    requires b in Pick(stash, assignment, i)
    ensures b in stash && i == Where(buckets, b)
  {
    hide Pick;
    PickedOnce(stash, assignment, i, i, b);
    if Where(buckets, b) < |buckets| {
      PickedOnce(stash, assignment, i, Where(buckets, b), b);
    }
  }

  lemma {:induction false} PickedWhere(stash: seq<Block>, assignment: seq<nat>, buckets: seq<Bucket>, i: nat, b: Block)
    requires Picked(stash, assignment, buckets) && i <= |buckets|
    ensures b in Pick(stash, assignment, i) <==> b in stash && Where(buckets, b) == i
  {
    hide Pick;
    if b in stash {
      var j := PickedSomewhere(stash, assignment, |buckets|, b);
      PickedAt(stash, assignment, buckets, j, b);
    }
    if b in Pick(stash, assignment, i) {
      PickedAt(stash, assignment, buckets, i, b);
    }
  }

  lemma {:induction false} PickSplits(stash: seq<Block>, assignment: seq<nat>, buckets: seq<Bucket>, rest: seq<Block>)
    requires Picked(stash, assignment, buckets)
    requires rest == Pick(stash, assignment, |buckets|)
    ensures Splits(stash, buckets, rest)
  {
    hide Pick, Where;
    forall i: nat | i <= |buckets|
      ensures Distinct(Pick(stash, assignment, i))
    {
      PickDistinct(stash, assignment, i);
    }
    forall b
      ensures b in rest <==> b in stash && Where(buckets, b) == |buckets|
    {
      PickedWhere(stash, assignment, buckets, |buckets|, b);
    }
    forall i, b | 0 <= i < |buckets|
      ensures b in buckets[i] <==> b in stash && Where(buckets, b) == i
    {
      PickedWhere(stash, assignment, buckets, i, b);
    }
  }

  // ----- legality of the write-back -----

  /** For every stash block, the height at which its path meets the path being written. */
  function Depths(stash: seq<Block>, pos: seq<nat>, leaf: nat): (depths: seq<nat>)
    requires forall b :: b in stash ==> b.id < |pos|
    ensures |depths| == |stash|
  {
    seq(|stash|, p requires 0 <= p < |stash| => Meeting(pos[stash[p].id], leaf))
  }

  lemma {:induction false} DepthAt(stash: seq<Block>, pos: seq<nat>, leaf: nat, p: nat)
    requires forall b :: b in stash ==> b.id < |pos|
    requires p < |stash|
    ensures stash[p].id < |pos| && Depths(stash, pos, leaf)[p] == Meeting(pos[stash[p].id], leaf)
  {
  }

  ghost predicate LeavesInRange(pos: seq<nat>, height: nat)
  {
    forall a :: 0 <= a < |pos| ==> pos[a] < NumLeaves(height)
  }

  lemma {:induction false} DepthsBounded(stash: seq<Block>, pos: seq<nat>, leaf: nat, height: nat)
    requires forall b :: b in stash ==> b.id < |pos|
    requires LeavesInRange(pos, height) && leaf < NumLeaves(height)
    ensures Bounded(Depths(stash, pos, leaf), height)
    ensures Bounded(Depths(stash, pos, leaf), height + 1)
  {
    forall p | 0 <= p < |stash|
      ensures Depths(stash, pos, leaf)[p] <= height
    {
      assert stash[p] in stash;
      MeetingBound(pos[stash[p].id], leaf, height);
    }
  }

  /** Blocks picked for bucket i may live there. */
  lemma {:induction false} PickedOnPath(stash: seq<Block>, pos: seq<nat>, leaf: nat, height: nat,
                                        assignment: seq<nat>, cap: nat, i: nat, b: Block)
    requires forall b :: b in stash ==> b.id < |pos|
    requires LeavesInRange(pos, height) && leaf < NumLeaves(height)
    requires Legal(Depths(stash, pos, leaf), assignment, height + 1, cap)
    requires i <= height && b in Pick(stash, assignment, i)
    ensures b.id < |pos| && OnPath(height, NodeAt(height, leaf, height - i), pos[b.id])
  {
    PickMembers(stash, assignment, i, b);
    var p :| 0 <= p < |stash| && stash[p] == b && assignment[p] == i;
    assert stash[p] in stash;
    MeetingAgrees(pos[b.id], leaf, i);
    SharedNode(height, pos[b.id], leaf, i);
  }

  /** Bucket i and the remaining stash hold what an assignment gives them, in stash order. */
  ghost predicate SplitBy(stash: seq<Block>, assignment: seq<nat>, buckets: seq<Bucket>, rest: seq<Block>)
  {
    && |assignment| == |stash| && Bounded(assignment, |buckets|)
    && (forall i :: 0 <= i < |buckets| ==> buckets[i] == Pick(stash, assignment, i))
    && rest == Pick(stash, assignment, |buckets|)
  }

  lemma {:induction false} SplitOneMore(stash: seq<Block>, assignment: seq<nat>, buckets: seq<Bucket>,
                                        rest: seq<Block>, block: Block, room: nat)
    requires SplitBy(stash, assignment, buckets, rest) && room <= |buckets|
    ensures SplitBy(stash + [block], assignment + [room],
                    if room < |buckets| then buckets[room := buckets[room] + [block]] else buckets,
                    if room < |buckets| then rest else rest + [block])
  {
    hide Pick;
    forall i: nat | i <= |buckets|
      ensures Pick(stash + [block], assignment + [room], i)
           == Pick(stash, assignment, i) + if room == i then [block] else []
    {
      PickSnoc(stash, assignment, block, room, i);
    }
  }

  lemma {:induction false} SplitSizes(stash: seq<Block>, assignment: seq<nat>, buckets: seq<Bucket>, rest: seq<Block>)
    requires SplitBy(stash, assignment, buckets, rest)
    ensures forall i :: 0 <= i < |buckets| ==> |buckets[i]| == CountEq(assignment, i)
    ensures |rest| == CountEq(assignment, |buckets|)
  {
  }

  /** The write-back of a whole stash is split by first fit. */
  ghost predicate Evicted(stash: seq<Block>, pos: seq<nat>, leaf: nat, height: nat, buckets: seq<Bucket>,
                          rest: seq<Block>)
  {
    && (forall b :: b in stash ==> b.id < |pos|)
    && |buckets| == height + 1
    && Bounded(Depths(stash, pos, leaf), height + 1)
    && SplitBy(stash, FirstFit(Depths(stash, pos, leaf), height + 1, BUCKET_SIZE), buckets, rest)
  }

  /** The write-back after the first p blocks of the stash. */
  ghost predicate Evicting(stash: seq<Block>, pos: seq<nat>, leaf: nat, height: nat, p: nat, fit: seq<nat>,
                           buckets: seq<Bucket>, rest: seq<Block>)
  {
    && (forall b :: b in stash ==> b.id < |pos|)
    && p <= |stash| && |buckets| == height + 1
    && Bounded(Depths(stash, pos, leaf), height + 1)
    && fit == FirstFit(Depths(stash, pos, leaf)[..p], height + 1, BUCKET_SIZE)
    && SplitBy(stash[..p], fit, buckets, rest)
  }

  lemma {:induction false} EvictingStart(stash: seq<Block>, pos: seq<nat>, leaf: nat, height: nat, buckets: seq<Bucket>)
    requires forall b :: b in stash ==> b.id < |pos|
    requires LeavesInRange(pos, height) && leaf < NumLeaves(height)
    requires |buckets| == height + 1 && forall i :: 0 <= i < |buckets| ==> buckets[i] == []
    ensures Evicting(stash, pos, leaf, height, 0, [], buckets, [])
  {
    DepthsBounded(stash, pos, leaf, height);
  }

  lemma {:induction false} EvictingHere(stash: seq<Block>, pos: seq<nat>, leaf: nat, height: nat, p: nat,
                                        fit: seq<nat>, buckets: seq<Bucket>, rest: seq<Block>)
    requires Evicting(stash, pos, leaf, height, p, fit, buckets, rest) && p < |stash|
    ensures stash[p].id < |pos| && Meeting(pos[stash[p].id], leaf) <= height + 1 == |buckets|
    ensures forall i :: 0 <= i < |buckets| ==> |buckets[i]| == CountEq(fit, i)
  {
    DepthAt(stash, pos, leaf, p);
    SplitSizes(stash[..p], fit, buckets, rest);
  }

  lemma {:induction false} EvictingStep(stash: seq<Block>, pos: seq<nat>, leaf: nat, height: nat, p: nat,
                                        fit: seq<nat>, buckets: seq<Bucket>, rest: seq<Block>, room: nat)
    requires Evicting(stash, pos, leaf, height, p, fit, buckets, rest) && p < |stash|
    requires stash[p].id < |pos| && Meeting(pos[stash[p].id], leaf) <= height + 1
    requires room == FirstRoom(fit, Meeting(pos[stash[p].id], leaf), height + 1, BUCKET_SIZE)
    ensures Evicting(stash, pos, leaf, height, p + 1, fit + [room],
                     if room < height + 1 then buckets[room := buckets[room] + [stash[p]]] else buckets,
                     if room < height + 1 then rest else rest + [stash[p]])
  {
    hide Pick, FirstFit, Depths;
    DepthAt(stash, pos, leaf, p);
    FirstFitSnoc(Depths(stash, pos, leaf), p, height + 1, BUCKET_SIZE);
    SplitOneMore(stash[..p], fit, buckets, rest, stash[p], room);
    assert stash[..p + 1] == stash[..p] + [stash[p]];
  }

  lemma {:induction false} EvictingEnd(stash: seq<Block>, pos: seq<nat>, leaf: nat, height: nat, fit: seq<nat>,
                                       buckets: seq<Bucket>, rest: seq<Block>)
    requires Evicting(stash, pos, leaf, height, |stash|, fit, buckets, rest)
    ensures Evicted(stash, pos, leaf, height, buckets, rest)
  {
    assert stash[..|stash|] == stash;
    assert Depths(stash, pos, leaf)[..|stash|] == Depths(stash, pos, leaf);
  }

  /** The write-back loses nothing, duplicates nothing, and respects capacity and paths. */
  lemma {:induction false} EvictedSplits(stash: seq<Block>, pos: seq<nat>, leaf: nat, height: nat,
                                         buckets: seq<Bucket>, rest: seq<Block>)
    requires Evicted(stash, pos, leaf, height, buckets, rest) && Distinct(stash)
    requires LeavesInRange(pos, height) && leaf < NumLeaves(height)
    ensures Splits(stash, buckets, rest)
    ensures forall i :: 0 <= i < |buckets| ==> |buckets[i]| <= BUCKET_SIZE
    ensures forall i, b :: 0 <= i < |buckets| && b in buckets[i] ==>
              b in stash && b.id < |pos| && OnPath(height, NodeAt(height, leaf, height - i), pos[b.id])
  {
    hide Pick, FirstFit, Depths, NodeAt, OnPath;
    var depths := Depths(stash, pos, leaf);
    var fit := FirstFit(depths, height + 1, BUCKET_SIZE);
    FirstFitLegal(depths, height + 1, BUCKET_SIZE);
    SplitSizes(stash, fit, buckets, rest);
    PickSplits(stash, fit, buckets, rest);
    forall i, b | 0 <= i < |buckets| && b in buckets[i]
      ensures b in stash && b.id < |pos| && OnPath(height, NodeAt(height, leaf, height - i), pos[b.id])
    {
      PickedOnPath(stash, pos, leaf, height, fit, BUCKET_SIZE, i, b);
    }
  }

  /** The write-back is optimal: for every k it puts as many blocks into the deepest k buckets as any
      legal placement of the same stash does, and so leaves the fewest possible in the stash. */
  lemma {:induction false} EvictedIsOptimal(stash: seq<Block>, pos: seq<nat>, leaf: nat, height: nat,
                                            buckets: seq<Bucket>, rest: seq<Block>, other: seq<nat>, k: nat)
    requires Evicted(stash, pos, leaf, height, buckets, rest) && k <= height + 1
    requires Legal(Depths(stash, pos, leaf), other, height + 1, BUCKET_SIZE) && Bounded(other, height + 1)
    ensures Filled(buckets, k) == Best(Depths(stash, pos, leaf), BUCKET_SIZE, k)
    ensures CountLess(other, k) <= Filled(buckets, k)
    ensures |rest| <= CountEq(other, height + 1)
  {
    hide Pick, FirstFit, Depths, CountEq, CountLess;
    var depths := Depths(stash, pos, leaf);
    var fit := FirstFit(depths, height + 1, BUCKET_SIZE);
    FirstFitLegal(depths, height + 1, BUCKET_SIZE);
    SplitSizes(stash, fit, buckets, rest);
    FilledCounts(buckets, fit, k);
    FirstFitOptimal(depths, height + 1, BUCKET_SIZE, k);
    BestIsUpperBound(depths, other, height + 1, BUCKET_SIZE, k);
    GreedyIsOptimal(depths, other, height + 1, BUCKET_SIZE, height + 1);
    CountSplits(fit, height + 1);
    CountSplits(other, height + 1);
  }

  /** The stash that a write-back leaves is as small as any legal placement can make it. */
  ghost predicate OptimalRest(stash: seq<Block>, pos: seq<nat>, leaf: nat, height: nat, rest: seq<Block>)
  {
    && (forall b :: b in stash ==> b.id < |pos|)
    && |rest| + Best(Depths(stash, pos, leaf), BUCKET_SIZE, height + 1) == |stash|
  }

  lemma {:induction false} EvictedRest(stash: seq<Block>, pos: seq<nat>, leaf: nat, height: nat, buckets: seq<Bucket>,
                                       rest: seq<Block>)
    requires Evicted(stash, pos, leaf, height, buckets, rest)
    ensures OptimalRest(stash, pos, leaf, height, rest)
  {
    hide Pick, FirstFit, Depths, CountEq, CountLess;
    var depths := Depths(stash, pos, leaf);
    var fit := FirstFit(depths, height + 1, BUCKET_SIZE);
    FirstFitLegal(depths, height + 1, BUCKET_SIZE);
    SplitSizes(stash, fit, buckets, rest);
    FirstFitOptimal(depths, height + 1, BUCKET_SIZE, height + 1);
    CountSplits(fit, height + 1);
  }

  // ----- what a write-back leaves -----

  /** Every block to a bucket of both its path and the path of the leaf, or to the stash. */
  ghost predicate LegalPlacement(all: seq<Block>, pos: seq<nat>, leaf: nat, height: nat, placement: seq<nat>)
    requires forall b :: b in all ==> b.id < |pos|
  {
    Legal(Depths(all, pos, leaf), placement, height + 1, BUCKET_SIZE) && Bounded(placement, height + 1)
  }

  /** No legal placement of the blocks on the path leaves fewer of them over. */
  ghost predicate LeastRest(all: seq<Block>, pos: seq<nat>, leaf: nat, height: nat, rest: seq<Block>)
  {
    && (forall b :: b in all ==> b.id < |pos|)
    && forall other :: LegalPlacement(all, pos, leaf, height, other) ==> |rest| <= CountEq(other, height + 1)
  }

  lemma {:induction false} EvictedLeast(all: seq<Block>, pos: seq<nat>, leaf: nat, height: nat, buckets: seq<Bucket>,
                                        rest: seq<Block>)
    requires Evicted(all, pos, leaf, height, buckets, rest)
    ensures LeastRest(all, pos, leaf, height, rest)
  {
    hide Legal, Bounded, CountEq, FirstFit;
    forall other | LegalPlacement(all, pos, leaf, height, other)
      ensures |rest| <= CountEq(other, height + 1)
    {
      EvictedIsOptimal(all, pos, leaf, height, buckets, rest, other, height + 1);
    }
  }

  /** A block that went to height k, or stayed over, found every lower bucket of its path full. */
  lemma {:induction false} EvictedBlocked(all: seq<Block>, pos: seq<nat>, leaf: nat, height: nat, buckets: seq<Bucket>,
                                          rest: seq<Block>, b: Block, k: nat, j: nat)
    requires Evicted(all, pos, leaf, height, buckets, rest)
    requires LeavesInRange(pos, height) && leaf < NumLeaves(height)
    requires j < k <= height + 1 && j <= height && b in if k <= height then buckets[k] else rest
    requires b.id < |pos| && OnPath(height, NodeAt(height, leaf, height - j), pos[b.id])
    ensures |buckets[j]| == BUCKET_SIZE
  {
    hide FirstFit, CountEq, NodeAt, OnPath, Pick;
    var depths := Depths(all, pos, leaf);
    var fit := FirstFit(depths, height + 1, BUCKET_SIZE);
    PickMembers(all, fit, k, b);
    var p :| 0 <= p < |all| && all[p] == b && fit[p] == k;
    MeetingAgrees(pos[b.id], leaf, j);
    SharedNode(height, pos[b.id], leaf, j);
    FirstFitBlocked(depths, height + 1, BUCKET_SIZE, p, j);
  }

  /** The path has no room for a block of the stash, nor deeper down for a block of its own. */
  ghost predicate Settled(height: nat, tree: seq<Bucket>, stash: seq<Block>, pos: seq<nat>, leaf: nat)
  {
    && (forall b, n: nat :: b in stash && n < |tree| && OnPath(height, n, leaf) ==>
          b.id < |pos| && (OnPath(height, n, pos[b.id]) ==> |Reals(tree[n])| == BUCKET_SIZE))
    && (forall b, n: nat, m: nat :: n < |tree| && m < |tree| && OnPath(height, n, leaf) && OnPath(height, m, leaf)
                                    && b in Reals(tree[n]) ==>
          b.id < |pos| && (Level(n) < Level(m) && OnPath(height, m, pos[b.id]) ==> |Reals(tree[m])| == BUCKET_SIZE))
  }

  /** The path to a leaf, leaf first. */
  function UpPath(height: nat, leaf: nat): (path: seq<nat>)
    ensures |path| == height + 1
    ensures forall i :: 0 <= i <= height ==> path[i] == NodeAt(height, leaf, height - i)
  {
    seq(height + 1, i requires 0 <= i <= height => NodeAt(height, leaf, height - i))
  }

  lemma {:induction false} WrittenSettled(height: nat, all: seq<Block>, pos: seq<nat>, leaf: nat, buckets: seq<Bucket>,
                                          rest: seq<Block>, tree: seq<Bucket>, tree': seq<Bucket>)
    requires Evicted(all, pos, leaf, height, buckets, rest)
    requires LeavesInRange(pos, height) && leaf < NumLeaves(height)
    requires Rewritten(tree, tree', UpPath(height, leaf), buckets)
    ensures Settled(height, tree', rest, pos, leaf)
  {
    hide FirstFit, NodeAt, OnPath, Reals, Level, Depths, Pick;
    var path := UpPath(height, leaf);
    forall n: nat | OnPath(height, n, leaf)
      ensures Level(n) <= height && path[height - Level(n)] == n
    {
      LevelOnPath(height, n, leaf);
    }
    forall b | b in rest
      ensures b.id < |pos|
    {
      SplitFrom(all, pos, leaf, height, buckets, rest, b, height + 1);
    }
    forall b: Block, n: nat | b in rest && n < |tree'| && OnPath(height, n, leaf) && OnPath(height, n, pos[b.id])
      ensures |Reals(tree'[n])| == BUCKET_SIZE
    {
      EvictedBlocked(all, pos, leaf, height, buckets, rest, b, height + 1, height - Level(n));
    }
    forall b: Block, n: nat | n < |tree'| && OnPath(height, n, leaf) && b in Reals(tree'[n])
      ensures b.id < |pos|
    {
      SplitFrom(all, pos, leaf, height, buckets, rest, b, height - Level(n));
    }
    forall b: Block, n: nat, m: nat | n < |tree'| && m < |tree'| && OnPath(height, n, leaf) && OnPath(height, m, leaf)
                                      && b in Reals(tree'[n]) && Level(n) < Level(m) && OnPath(height, m, pos[b.id])
      ensures |Reals(tree'[m])| == BUCKET_SIZE
    {
      EvictedBlocked(all, pos, leaf, height, buckets, rest, b, height - Level(n), height - Level(m));
    }
  }

  lemma {:induction false} LevelOnPath(height: nat, n: nat, leaf: nat)
    requires OnPath(height, n, leaf)
    ensures Level(n) <= height && NodeAt(height, leaf, Level(n)) == n
  {
  }

  lemma {:induction false} SplitFrom(all: seq<Block>, pos: seq<nat>, leaf: nat, height: nat, buckets: seq<Bucket>,
                                     rest: seq<Block>, b: Block, k: nat)
    requires Evicted(all, pos, leaf, height, buckets, rest) && k <= height + 1
    requires b in if k <= height then buckets[k] else rest
    ensures b.id < |pos|
  {
    hide FirstFit, CountEq, Pick;
    PickMembers(all, FirstFit(Depths(all, pos, leaf), height + 1, BUCKET_SIZE), k, b);
  }

  // ----- one access from outside -----

  /** The real blocks of some buckets, one bucket after the other. */
  ghost function Along(tree: seq<Bucket>, path: seq<nat>): seq<Block>
    requires forall i :: 0 <= i < |path| ==> path[i] < |tree|
  {
    if path == [] then [] else Along(tree, path[..|path| - 1]) + Reals(tree[path[|path| - 1]])
  }

  lemma {:induction false} AlongNext(tree: seq<Bucket>, path: seq<nat>, i: nat)
    requires PathInTree(path, |tree|) && i < |path|
    ensures Along(tree, path[..i + 1]) == Along(tree, path[..i]) + Reals(tree[path[i]])
    ensures path[i] !in NodeSet(path[..i]) && NodeSet(path[..i + 1]) == NodeSet(path[..i]) + {path[i]}
  {
    hide Reals;
    assert path[..i + 1] == path[..i] + [path[i]] && path[..i + 1][..i] == path[..i];
  }

  lemma {:induction false} AlongNothing(tree: seq<Bucket>, path: seq<nat>)
    requires PathInTree(path, |tree|)
    ensures Along(tree, path[..0]) == [] && NodeSet(path[..0]) == {}
  {
  }

  /** The blocks in hand when a request has been applied to them. */
  function Applied(stash: seq<Block>, r: Request): seq<Block>
  {
    if r.op == WRITE then Remove(stash, r.addr) + [Block(r.addr, r.data)] else stash
  }

  datatype Snapshot = Snapshot(stash: seq<Block>, tree: seq<Bucket>, pos: seq<nat>)

  /** What one access does: the address gets a new leaf; of the stash and the old path, with the request applied,
      as much as possible goes back to that path, every block as deep as there is room; nothing else changes. */
  ghost predicate WrittenBack(height: nat, before: Snapshot, after: Snapshot, r: Request)
  {
    && r.addr < |before.pos| == |after.pos| && after.pos == before.pos[r.addr := after.pos[r.addr]]
    && after.pos[r.addr] < NumLeaves(height) && |after.tree| == |before.tree|
    && var leaf := before.pos[r.addr];
    && (forall n: nat :: n < |after.tree| && !OnPath(height, n, leaf) ==> after.tree[n] == before.tree[n])
    && Settled(height, after.tree, after.stash, after.pos, leaf)
    && (forall i :: 0 <= i <= height ==> UpPath(height, leaf)[i] < |before.tree|)
    && LeastRest(Applied(before.stash + Along(before.tree, UpPath(height, leaf)), r), after.pos, leaf, height,
                 after.stash)
  }

  lemma {:induction false} IsWrittenBack(height: nat, before: Snapshot, after: Snapshot, r: Request)
    requires r.addr < |before.pos| == |after.pos| && after.pos == before.pos[r.addr := after.pos[r.addr]]
    requires after.pos[r.addr] < NumLeaves(height) && |after.tree| == |before.tree|
    requires before.pos[r.addr] < NumLeaves(height)
    requires forall n :: 0 <= n < |after.tree| && n !in PathNodes(height, before.pos[r.addr]) ==>
               after.tree[n] == before.tree[n]
    requires Settled(height, after.tree, after.stash, after.pos, before.pos[r.addr])
    requires PathInTree(UpPath(height, before.pos[r.addr]), |before.tree|)
    requires LeastRest(Applied(before.stash + Along(before.tree, UpPath(height, before.pos[r.addr])), r), after.pos,
                       before.pos[r.addr], height, after.stash)
    ensures WrittenBack(height, before, after, r)
  {
    hide Settled, LeastRest, Applied, Along, NodeAt, OnPath, PathNodes;
    forall n: nat | n < |after.tree| && !OnPath(height, n, before.pos[r.addr])
      ensures after.tree[n] == before.tree[n]
    {
      PathMembers(height, before.pos[r.addr], n);
    }
  }

  /** Every block of the stash has an address. */
  lemma {:induction false} StashInRange(height: nat, stash: seq<Block>, tree: seq<Bucket>, pos: seq<nat>, mem: Memory,
                                        loc: map<nat, int>, stale: set<nat>)
    requires Placed(height, stash, tree, pos, mem, loc, stale)
    ensures Distinct(stash) && forall b :: b in stash ==> b.id < |pos| && b.id != DUMMY
  {
    forall b | b in stash
      ensures b.id < |pos| && b.id != DUMMY
    {
      assert Here(mem, loc, b, STASH);
    }
  }

  /** What a write-back of the stash hands to the server. */
  lemma {:induction false} EvictedFits(height: nat, stash: seq<Block>, tree: seq<Bucket>, pos: seq<nat>, mem: Memory,
                                       loc: map<nat, int>, stale: set<nat>, leaf: nat, buckets: seq<Bucket>,
                                       rest: seq<Block>)
    requires Placed(height, stash, tree, pos, mem, loc, stale)
    requires Evicted(stash, pos, leaf, height, buckets, rest)
    requires LeavesInRange(pos, height) && leaf < NumLeaves(height)
    ensures Splits(stash, buckets, rest) && OptimalRest(stash, pos, leaf, height, rest)
    ensures forall i :: 0 <= i < |buckets| ==> |buckets[i]| <= BUCKET_SIZE && Reals(buckets[i]) == buckets[i]
    ensures forall i, b :: 0 <= i < |buckets| && b in buckets[i] ==>
              b.id < |pos| && OnPath(height, NodeAt(height, leaf, height - i), pos[b.id])
  {
    hide Reals, NodeAt, OnPath, FirstFit, Best, Depths, Pick;
    StashInRange(height, stash, tree, pos, mem, loc, stale);
    EvictedSplits(stash, pos, leaf, height, buckets, rest);
    EvictedRest(stash, pos, leaf, height, buckets, rest);
    forall i | 0 <= i < |buckets|
      ensures Reals(buckets[i]) == buckets[i]
    {
      RealsOfReals(buckets[i]);
    }
  }

  /** The address read from its path is now in the stash, so remapping it harms nothing. */
  lemma {:induction false} RemapRead(height: nat, stash: seq<Block>, tree: seq<Bucket>, pos: seq<nat>, mem: Memory,
                                     loc: map<nat, int>, stale: set<nat>, addr: nat, newLeaf: nat)
    requires addr < |pos| && pos[addr] < NumLeaves(height)
    requires stale == NodeSet(PathNodes(height, pos[addr]))
    requires Placed(height, stash, tree, pos, mem, loc, stale)
    ensures Placed(height, stash, tree, pos[addr := newLeaf], mem, loc, stale)
    ensures addr in loc ==> loc[addr] == STASH
  {
    if addr in loc && loc[addr] != STASH {
      PathMembers(height, pos[addr], loc[addr]);
    }
    Remap(height, |tree|, pos, mem, loc, stale, addr, newLeaf);
  }

  // ----- requests on the stash -----

  function Remove(stash: seq<Block>, id: nat): seq<Block>
  {
    if stash == [] then [] else
      var last := stash[|stash| - 1];
      Remove(stash[..|stash| - 1], id) + (if last.id != id then [last] else [])
  }

  lemma {:induction false} RemoveMembers(stash: seq<Block>, id: nat, b: Block)
    ensures b in Remove(stash, id) <==> b in stash && b.id != id
  {
    if stash != [] {
      RemoveMembers(stash[..|stash| - 1], id, b);
      assert stash == stash[..|stash| - 1] + [stash[|stash| - 1]];
    }
  }

  lemma {:induction false} RemoveDistinct(stash: seq<Block>, id: nat)
    requires Distinct(stash)
    ensures Distinct(Remove(stash, id))
  {
    if stash != [] {
      var n := |stash| - 1;
      var kept := Remove(stash[..n], id);
      RemoveDistinct(stash[..n], id);
      forall i | 0 <= i < |kept|
        ensures kept[i].id != stash[n].id
      {
        RemoveMembers(stash[..n], id, kept[i]);
      }
    }
  }

  lemma {:induction false} RemoveAbsent(stash: seq<Block>, id: nat)
    requires forall i :: 0 <= i < |stash| ==> stash[i].id != id
    ensures Remove(stash, id) == stash
  {
    if stash != [] {
      RemoveAbsent(stash[..|stash| - 1], id);
    }
  }

  /** Writing an address whose block is in the stash, or nowhere. */
  lemma {:induction false} StoreInStash(height: nat, stash: seq<Block>, tree: seq<Bucket>, pos: seq<nat>, mem: Memory,
                                        loc: map<nat, int>, stale: set<nat>, addr: nat, data: seq<byte>)
    requires Placed(height, stash, tree, pos, mem, loc, stale)
    requires addr in loc ==> loc[addr] == STASH
    requires addr < |pos| && addr != DUMMY
    ensures Placed(height, Remove(stash, addr) + [Block(addr, data)], tree, pos, mem[addr := data],
                   loc[addr := STASH], stale)
  {
    var stash', mem', loc' := Remove(stash, addr) + [Block(addr, data)], mem[addr := data], loc[addr := STASH];
    StoreDistinct(stash, addr, data);
    forall b
      ensures b in stash' <==> Here(mem', loc', b, STASH)
    {
      RemoveMembers(stash, addr, b);
      assert b in stash <==> Here(mem, loc, b, STASH);
    }
    forall n, b | 0 <= n < |tree| && n !in stale
      ensures b in Reals(tree[n]) <==> Here(mem', loc', b, n)
    {
      assert b in Reals(tree[n]) <==> Here(mem, loc, b, n);
    }
  }

  lemma {:induction false} StoreDistinct(stash: seq<Block>, addr: nat, data: seq<byte>)
    requires Distinct(stash)
    ensures Distinct(Remove(stash, addr) + [Block(addr, data)])
  {
    var kept := Remove(stash, addr);
    RemoveDistinct(stash, addr);
    forall i | 0 <= i < |kept|
      ensures kept[i].id != addr
    {
      RemoveMembers(stash, addr, kept[i]);
    }
  }

  /** Looking an address up in the stash answers from the memory. */
  lemma {:induction false} FoundInMemory(height: nat, stash: seq<Block>, tree: seq<Bucket>, pos: seq<nat>,
                                         mem: Memory, loc: map<nat, int>, stale: set<nat>, addr: nat,
                                         found: Option<Block>)
    requires Placed(height, stash, tree, pos, mem, loc, stale)
    requires addr in loc ==> loc[addr] == STASH
    requires found.Some? ==> found.value in stash && found.value.id == addr
    requires found.None? ==> forall i :: 0 <= i < |stash| ==> stash[i].id != addr
    ensures (if found.Some? then found.value.data else Zeros(BLOCK_SIZE)) == Load(mem, addr, BLOCK_SIZE)
  {
    if found.Some? {
      assert Here(mem, loc, found.value, STASH);
    } else if addr in mem {
      assert Here(mem, loc, Block(addr, mem[addr]), STASH);
    }
  }

  /** Remapping an address that is not in the tree. */
  lemma {:induction false} Remap(height: nat, nodes: nat, pos: seq<nat>, mem: Memory, loc: map<nat, int>,
                                 stale: set<nat>, addr: nat, leaf: nat)
    requires Located(height, nodes, pos, mem, loc, stale) && addr < |pos|
    requires addr in loc ==> loc[addr] == STASH
    ensures Located(height, nodes, pos[addr := leaf], mem, loc, stale)
  {
  }

  // ----- the initial tree -----

  /** The tree as the server builds it: block i in leaf bucket i, padding elsewhere. */
  ghost predicate Initial(height: nat, tree: seq<Bucket>, blocks: seq<Block>)
  {
    && |tree| == NumNodes(height) && |blocks| <= NumLeaves(height)
    && (forall n :: 0 <= n < |tree| ==> |tree[n]| == BUCKET_SIZE)
    && (forall n :: 0 <= n < |tree| ==> Reals(tree[n]) == Reals(InitialBucket(height, blocks, n)))
  }

  function InitialBucket(height: nat, blocks: seq<Block>, n: nat): Bucket
  {
    var leafOffset := Pow2(height) - 1;
    if leafOffset <= n && n - leafOffset < |blocks| then [blocks[n - leafOffset]] else []
  }

  function ContentsOf(blocks: seq<Block>): Memory
  {
    if blocks == [] then map[] else
      var last := blocks[|blocks| - 1];
      ContentsOf(blocks[..|blocks| - 1])[last.id := last.data]
  }

  ghost function LeavesOf(height: nat, blocks: seq<Block>): map<nat, int>
  {
    if blocks == [] then map[] else
      var n := |blocks| - 1;
      LeavesOf(height, blocks[..n])[blocks[n].id := Pow2(height) - 1 + n]
  }

  lemma {:induction false} InitialAt(height: nat, blocks: seq<Block>, b: Block, n: int)
    requires Distinct(blocks)
    ensures Here(ContentsOf(blocks), LeavesOf(height, blocks), b, n)
       <==> 0 <= n - (Pow2(height) - 1) < |blocks| && blocks[n - (Pow2(height) - 1)] == b
  {
    if blocks != [] {
      InitialAt(height, blocks[..|blocks| - 1], b, n);
      if b.id == blocks[|blocks| - 1].id {
        InitialFresh(height, blocks[..|blocks| - 1], b.id);
      }
    }
  }

  lemma {:induction false} InitialFresh(height: nat, blocks: seq<Block>, id: nat)
    requires forall i :: 0 <= i < |blocks| ==> blocks[i].id != id
    ensures id !in ContentsOf(blocks) && id !in LeavesOf(height, blocks)
  {
    if blocks != [] {
      InitialFresh(height, blocks[..|blocks| - 1], id);
    }
  }

  lemma {:induction false} InitialKeys(height: nat, blocks: seq<Block>)
    ensures ContentsOf(blocks).Keys == LeavesOf(height, blocks).Keys
  {
    if blocks != [] {
      InitialKeys(height, blocks[..|blocks| - 1]);
    }
  }

  lemma {:induction false} InitialLeaf(height: nat, blocks: seq<Block>, a: nat) returns (i: nat)
    requires a in LeavesOf(height, blocks)
    ensures i < |blocks| && blocks[i].id == a && LeavesOf(height, blocks)[a] == Pow2(height) - 1 + i
  {
    i := |blocks| - 1;
    if a != blocks[i].id {
      i := InitialLeaf(height, blocks[..i], a);
    }
  }

  lemma {:induction false} InitialNode(height: nat, tree: seq<Bucket>, blocks: seq<Block>, n: nat, b: Block)
    requires Initial(height, tree, blocks) && n < |tree| && Distinct(blocks)
    requires forall i :: 0 <= i < |blocks| ==> blocks[i].id != DUMMY
    ensures Distinct(Reals(tree[n]))
    ensures b in Reals(tree[n]) <==> Here(ContentsOf(blocks), LeavesOf(height, blocks), b, n)
  {
    hide ContentsOf, LeavesOf, Here, Reals, Pow2;
    InitialAt(height, blocks, b, n);
    var bucket := InitialBucket(height, blocks, n);
    RealsOfReals(bucket);
  }

  /** A position map that matches the initial blocks establishes the invariant. */
  lemma {:induction false} InitialPlaced(height: nat, tree: seq<Bucket>, pos: seq<nat>, blocks: seq<Block>)
    requires Initial(height, tree, blocks) && Distinct(blocks) && |pos| <= DUMMY
    requires forall i :: 0 <= i < |blocks| ==> blocks[i].id < |pos| && pos[blocks[i].id] == i
    ensures Placed(height, [], tree, pos, ContentsOf(blocks), LeavesOf(height, blocks), {})
  {
    hide ContentsOf, LeavesOf, Initial, Reals;
    var mem, loc := ContentsOf(blocks), LeavesOf(height, blocks);
    forall n, b | 0 <= n < |tree|
      ensures b in Reals(tree[n]) <==> Here(mem, loc, b, n)
    {
      InitialNode(height, tree, blocks, n, b);
    }
    forall n | 0 <= n < |tree|
      ensures Distinct(Reals(tree[n]))
    {
      InitialNode(height, tree, blocks, n, Block(0, []));
    }
    forall b
      ensures !Here(mem, loc, b, STASH)
    {
      InitialAt(height, blocks, b, STASH);
    }
    InitialSize(height, tree, blocks);
    InitialLocated(height, |tree|, pos, blocks);
  }

  lemma {:induction false} InitialSize(height: nat, tree: seq<Bucket>, blocks: seq<Block>)
    requires Initial(height, tree, blocks)
    ensures |tree| == NumNodes(height) && |blocks| <= NumLeaves(height)
  {
  }

  lemma {:induction false} InitialLocated(height: nat, nodes: nat, pos: seq<nat>, blocks: seq<Block>)
    requires Distinct(blocks) && |pos| <= DUMMY && |blocks| <= NumLeaves(height) && nodes == NumNodes(height)
    requires forall i :: 0 <= i < |blocks| ==> blocks[i].id < |pos| && pos[blocks[i].id] == i
    ensures Located(height, nodes, pos, ContentsOf(blocks), LeavesOf(height, blocks), {})
  {
    hide ContentsOf, LeavesOf, OnPath, Pow2;
    InitialKeys(height, blocks);
    var loc := LeavesOf(height, blocks);
    forall a | a in loc
      ensures a < |pos| && 0 <= loc[a] < nodes && OnPath(height, loc[a], pos[a])
    {
      var i := InitialLeaf(height, blocks, a);
      NodeAtRange(height, i, height);
      LeafNode(height, i);
    }
  }

  lemma {:induction false} LeafNode(height: nat, leaf: nat)
    ensures NodeAt(height, leaf, height) == Pow2(height) - 1 + leaf
  {
  }
}
