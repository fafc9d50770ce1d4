/** Ring ORAM: what the server gets to see. Everything here is a function of the leaves that are read
    and of the configuration: addresses, operations and data do not occur. */
module RingTrace {
  import opened Division
  import opened HeapTree
  import opened RingState

  datatype Command =
    | ReadMetadata(leaf: nat)
    | XorSlots(leaf: nat)
    | FetchBucket(node: nat)
    | ReplaceBucket(node: nat)
    | FetchCount(node: nat)
    | InitTree

  /** The counters of the client and the read counts of the buckets. */
  datatype Public = Public(round: nat, evictions: nat, counts: seq<nat>)

  function Bump(counts: seq<nat>, path: seq<nat>): (c: seq<nat>)
    ensures |c| == |counts|
  {
    seq(|counts|, n requires 0 <= n < |counts| => if n in path then counts[n] + 1 else counts[n])
  }

  function Reset(counts: seq<nat>, path: seq<nat>): (c: seq<nat>)
    ensures |c| == |counts|
  {
    seq(|counts|, n requires 0 <= n < |counts| => if n in path then 0 else counts[n])
  }

  function ResetWorn(counts: seq<nat>, path: seq<nat>, s: nat): (c: seq<nat>)
    ensures |c| == |counts|
  {
    seq(|counts|, n requires 0 <= n < |counts| => if n in path && counts[n] >= s then 0 else counts[n])
  }

  function Fetches(path: seq<nat>): (t: seq<Command>)
    ensures |t| == |path|
  {
    seq(|path|, i requires 0 <= i < |path| => FetchBucket(path[i]))
  }

  /** Rewrites from the leaf up. */
  function Replaces(path: seq<nat>): seq<Command>
  {
    if path == [] then [] else [ReplaceBucket(path[|path| - 1])] + Replaces(path[..|path| - 1])
  }

  function EvictTrace(path: seq<nat>): seq<Command>
  {
    Fetches(path) + Replaces(path)
  }

  function ReshuffleTrace(counts: seq<nat>, path: seq<nat>, s: nat): seq<Command>
  {
    if path == [] then [] else
      var n := path[|path| - 1];
      ReshuffleTrace(counts, path[..|path| - 1], s) + [FetchCount(n)]
      + (if n < |counts| && counts[n] >= s then [FetchBucket(n), ReplaceBucket(n)] else [])
  }

  function EvictionPath(cfg: Config, evictions: nat): seq<nat>
  {
    PathNodes(cfg.treeDepth, evictions % NumLeaves(cfg.treeDepth))
  }

  /** The counts when the access has read its path and, every a-th time, evicted. */
  function CountsBeforeReshuffle(cfg: Config, p: Public, leaf: nat): seq<nat>
    requires cfg.a > 0
  {
    var read := Bump(p.counts, PathNodes(cfg.treeDepth, leaf));
    if (p.round + 1) % cfg.a == 0 then Reset(read, EvictionPath(cfg, p.evictions)) else read
  }

  function NextPublic(cfg: Config, p: Public, leaf: nat): Public
    requires cfg.a > 0
  {
    var round := (p.round + 1) % cfg.a;
    Public(round, if round == 0 then p.evictions + 1 else p.evictions,
           ResetWorn(CountsBeforeReshuffle(cfg, p, leaf), PathNodes(cfg.treeDepth, leaf), cfg.s))
  }

  /** The commands of one access that reads the path of `leaf`. */
  function AccessTrace(cfg: Config, p: Public, leaf: nat): seq<Command>
    requires cfg.a > 0
  {
    [ReadMetadata(leaf), XorSlots(leaf)]
    + (if (p.round + 1) % cfg.a == 0 then EvictTrace(EvictionPath(cfg, p.evictions)) else [])
    + ReshuffleTrace(CountsBeforeReshuffle(cfg, p, leaf), PathNodes(cfg.treeDepth, leaf), cfg.s)
  }

  function RunPublic(cfg: Config, p: Public, leaves: seq<nat>): Public
    requires cfg.a > 0
  {
    if leaves == [] then p else NextPublic(cfg, RunPublic(cfg, p, leaves[..|leaves| - 1]), leaves[|leaves| - 1])
  }

  /** The commands of a run, from the leaves it reads. */
  function RunTrace(cfg: Config, p: Public, leaves: seq<nat>): seq<Command>
    requires cfg.a > 0
  {
    if leaves == [] then [] else
      var before := leaves[..|leaves| - 1];
      RunTrace(cfg, p, before) + AccessTrace(cfg, RunPublic(cfg, p, before), leaves[|leaves| - 1])
  }

  predicate AllBelow(counts: seq<nat>, limit: nat)
  {
    forall n :: 0 <= n < |counts| ==> counts[n] < limit
  }

  /** The dummy budget: counts below s stay below s, whatever the leaves. */
  lemma {:induction false} BudgetKept(cfg: Config, p: Public, leaf: nat)
    requires cfg.a > 0 && cfg.s > 0 && AllBelow(p.counts, cfg.s)
    ensures AllBelow(CountsBeforeReshuffle(cfg, p, leaf), cfg.s + 1)
    ensures AllBelow(NextPublic(cfg, p, leaf).counts, cfg.s)
  {
  }

  lemma {:induction false} BumpBelow(counts: seq<nat>, path: seq<nat>, limit: nat)
    requires AllBelow(counts, limit)
    ensures AllBelow(Bump(counts, path), limit + 1)
  {
  }

  /** The budget never runs out in any run. */
  lemma {:induction false} BudgetNeverRunsOut(cfg: Config, p: Public, leaves: seq<nat>)
    requires cfg.a > 0 && cfg.s > 0 && AllBelow(p.counts, cfg.s)
    ensures AllBelow(RunPublic(cfg, p, leaves).counts, cfg.s)
  {
    if leaves != [] {
      BudgetNeverRunsOut(cfg, p, leaves[..|leaves| - 1]);
      BudgetKept(cfg, RunPublic(cfg, p, leaves[..|leaves| - 1]), leaves[|leaves| - 1]);
    }
  }

  // ----- the loops over a path, one node at a time -----

  lemma {:induction false} PathGrows(path: seq<nat>, i: nat)
    requires i < |path| && forall i, j :: 0 <= i < j < |path| ==> path[i] != path[j]
    ensures path[i] !in NodeSet(path[..i]) && NodeSet(path[..i + 1]) == NodeSet(path[..i]) + {path[i]}
    ensures Fetches(path[..i + 1]) == Fetches(path[..i]) + [FetchBucket(path[i])]
  {
    assert path[..i + 1] == path[..i] + [path[i]];
  }

  lemma {:induction false} PathShrinks(path: seq<nat>, i: nat)
    requires i < |path| && forall i, j :: 0 <= i < j < |path| ==> path[i] != path[j]
    ensures path[i] in NodeSet(path[..i + 1]) && NodeSet(path[..i + 1]) - {path[i]} == NodeSet(path[..i])
    ensures Replaces(path[..i + 1]) == [ReplaceBucket(path[i])] + Replaces(path[..i])
  {
    assert path[..i + 1] == path[..i] + [path[i]];
  }

  lemma {:induction false} ResetNothing(counts: seq<nat>)
    ensures Reset(counts, []) == counts
  {
  }

  lemma {:induction false} ResetOneMore(counts: seq<nat>, path: seq<nat>, i: nat)
    requires i < |path| && path[i] < |counts|
    ensures Reset(counts, path[i..]) == Reset(counts, path[i + 1..])[path[i] := 0]
  {
    assert path[i..] == [path[i]] + path[i + 1..];
  }

  lemma {:induction false} WornNothing(counts: seq<nat>, s: nat)
    ensures ResetWorn(counts, [], s) == counts
    ensures ReshuffleTrace(counts, [], s) == []
  {
  }

  lemma {:induction false} WornOneMore(counts: seq<nat>, path: seq<nat>, i: nat, s: nat)
    requires i < |path| && path[i] < |counts|
    requires forall i, j :: 0 <= i < j < |path| ==> path[i] != path[j]
    ensures ResetWorn(counts, path[..i], s)[path[i]] == counts[path[i]]
    ensures ResetWorn(counts, path[..i + 1], s)
         == if counts[path[i]] >= s then ResetWorn(counts, path[..i], s)[path[i] := 0] else ResetWorn(counts, path[..i], s)
    ensures ReshuffleTrace(counts, path[..i + 1], s)
         == ReshuffleTrace(counts, path[..i], s) + [FetchCount(path[i])]
            + if counts[path[i]] >= s then [FetchBucket(path[i]), ReplaceBucket(path[i])] else []
  {
    assert path[..i + 1] == path[..i] + [path[i]] && path[..i + 1][..i] == path[..i];
  }

  lemma {:induction false} WornTraceNext(counts: seq<nat>, path: seq<nat>, i: nat, s: nat, trace: seq<Command>)
    requires i < |path| && path[i] < |counts|
    ensures trace + ReshuffleTrace(counts, path[..i], s) + [FetchCount(path[i])]
            + (if counts[path[i]] >= s then [FetchBucket(path[i]), ReplaceBucket(path[i])] else [])
         == trace + ReshuffleTrace(counts, path[..i + 1], s)
  {
    assert path[..i + 1][..i] == path[..i];
  }

  // ----- the order of evictions -----

  /** Evictions take the leaves in plain counter order. */
  lemma {:induction false} EvictionOrder(cfg: Config, t: nat)
    ensures |EvictionPath(cfg, t)| == cfg.treeDepth + 1
    ensures EvictionPath(cfg, t)[cfg.treeDepth] == NumLeaves(cfg.treeDepth) - 1 + t % NumLeaves(cfg.treeDepth)
  {
  }

  /** Any 2^depth consecutive evictions take every leaf exactly once. */
  lemma {:induction false} EveryLeafOnce(cfg: Config, from: nat, leaf: nat) returns (t: nat)
    requires leaf < NumLeaves(cfg.treeDepth)
    ensures from <= t < from + NumLeaves(cfg.treeDepth) && EvictionPath(cfg, t) == PathNodes(cfg.treeDepth, leaf)
    ensures forall u: nat :: from <= u < from + NumLeaves(cfg.treeDepth) ==>
              EvictionPath(cfg, u) == PathNodes(cfg.treeDepth, leaf) ==> u == t
  {
    t := NextWithRemainder(from, NumLeaves(cfg.treeDepth), leaf);
    assert PathNodes(cfg.treeDepth, leaf)[cfg.treeDepth] == NumLeaves(cfg.treeDepth) - 1 + leaf;
    hide EvictionPath, PathNodes, NumLeaves;
    forall u: nat | from <= u < from + NumLeaves(cfg.treeDepth)
                    && EvictionPath(cfg, u) == PathNodes(cfg.treeDepth, leaf)
      ensures u == t
    {
      EvictionOrder(cfg, u);
      SameRemainder(t, u, NumLeaves(cfg.treeDepth));
    }
  }

  /** Every a accesses there is one eviction, in every run. */
  lemma {:induction false} RunRounds(cfg: Config, p: Public, leaves: seq<nat>)
    requires cfg.a > 0 && p.round < cfg.a
    ensures var q := RunPublic(cfg, p, leaves);
            && q.round == (p.round + |leaves|) % cfg.a
            && q.evictions == p.evictions + (p.round + |leaves|) / cfg.a
  {
    if leaves == [] {
      DivModIs(p.round, cfg.a, 0, p.round);
    } else {
      var n := |leaves| - 1;
      RunRounds(cfg, p, leaves[..n]);
      DivStep(p.round + n, cfg.a);
      DivModIs(RunPublic(cfg, p, leaves[..n]).round, cfg.a, 0, RunPublic(cfg, p, leaves[..n]).round);
      DivStep(RunPublic(cfg, p, leaves[..n]).round, cfg.a);
    }
  }
}
