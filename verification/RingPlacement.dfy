/** Ring ORAM: the blocks of the stash and of the tree, and how reads, evictions and fills move them. */
module RingPlacement {
  import opened HeapTree
  import opened Placement
  import opened Ram
  import opened RingState

  type PositionMap = map<nat, nat>

  /** Block x is the current copy of its address, labelled with its current leaf, and lives at `at`. */
  predicate Here(cfg: Config, pos: PositionMap, mem: Memory, loc: map<nat, int>, x: RingBlock, at: int)
  {
    && x.addr in loc && x.addr in pos && loc[x.addr] == at
    && x.leaf == pos[x.addr] && x.data == Load(mem, x.addr, cfg.blockSize)
  }

  function Current(cfg: Config, pos: PositionMap, mem: Memory, addr: nat): RingBlock
    requires addr in pos
  {
    RingBlock(addr, pos[addr], Load(mem, addr, cfg.blockSize))
  }

  /** Every address is in the stash, in the bucket of one node of its path, or in the client's hands
      (limbo). Buckets in `stale` have been read into the stash and are about to be rewritten. */
  ghost predicate Located(cfg: Config, nodes: nat, pos: PositionMap, loc: map<nat, int>, stale: set<nat>)
  {
    && loc.Keys == pos.Keys && (forall a: nat :: a in pos <==> a < cfg.numBlocks)
    && (forall a :: a in pos ==> pos[a] < NumLeaves(cfg.treeDepth))
    && (forall a :: a in loc && loc[a] != STASH && loc[a] != LIMBO ==>
          0 <= loc[a] < nodes && loc[a] !in stale && OnPath(cfg.treeDepth, loc[a], pos[a]))
  }

  ghost predicate Placed(cfg: Config, stash: seq<RingBlock>, contents: seq<seq<RingBlock>>, pos: PositionMap,
                         mem: Memory, loc: map<nat, int>, stale: set<nat>)
  {
    && Distinct(stash)
    && (forall n :: 0 <= n < |contents| && n !in stale ==> Distinct(contents[n]))
    && (forall x :: x in stash <==> Here(cfg, pos, mem, loc, x, STASH))
    && (forall n, x :: 0 <= n < |contents| && n !in stale ==> (x in contents[n] <==> Here(cfg, pos, mem, loc, x, n)))
    && Located(cfg, |contents|, pos, loc, stale)
  }

  // ----- reading a path -----

  /** Reading for an address along a set of nodes takes its block out of them. */
  ghost predicate ReadAlong(contents: seq<seq<RingBlock>>, contents': seq<seq<RingBlock>>, nodes: set<nat>, addr: nat)
  {
    && |contents'| == |contents|
    && forall n :: 0 <= n < |contents| ==>
         contents'[n] == if n in nodes then Remove(contents[n], addr) else contents[n]
  }

  /** The buckets when an address has been taken out of some of them. */
  ghost function WithoutAddr(contents: seq<seq<RingBlock>>, nodes: set<nat>, addr: nat): (c: seq<seq<RingBlock>>)
    ensures |c| == |contents|
    ensures forall n :: 0 <= n < |c| ==> c[n] == if n in nodes then Remove(contents[n], addr) else contents[n]
  {
    seq(|contents|, n requires 0 <= n < |contents| => if n in nodes then Remove(contents[n], addr) else contents[n])
  }

  lemma {:induction false} ReadIs(contents: seq<seq<RingBlock>>, contents': seq<seq<RingBlock>>, nodes: set<nat>,
                                  addr: nat)
    requires ReadAlong(contents, contents', nodes, addr)
    ensures contents' == WithoutAddr(contents, nodes, addr)
  {
    hide Remove;
  }

  /** The address is in a bucket of this leaf's path. */
  ghost predicate InPath(depth: nat, loc: map<nat, int>, addr: nat, leaf: nat)
  {
    addr in loc && loc[addr] >= 0 && OnPath(depth, loc[addr], leaf)
  }

  ghost function AfterRead(depth: nat, loc: map<nat, int>, addr: nat, leaf: nat): map<nat, int>
  {
    if InPath(depth, loc, addr, leaf) then loc[addr := LIMBO] else loc
  }

  /** After a read of its own path the block is in the client's hands exactly if it was in the tree, and
      returning it to the stash leaves no block in the client's hands. */
  lemma {:induction false} AfterReadFacts(depth: nat, loc: map<nat, int>, addr: nat, leaf: nat)
    requires addr in loc && (loc[addr] == STASH || (loc[addr] >= 0 && OnPath(depth, loc[addr], leaf)))
    requires forall a :: a in loc ==> loc[a] != LIMBO
    ensures var read := AfterRead(depth, loc, addr, leaf);
            && addr in read && (read[addr] == LIMBO || read[addr] == STASH)
            && (read[addr] == LIMBO <==> InPath(depth, loc, addr, leaf))
    ensures forall a :: a in loc && a != addr ==> AfterRead(depth, loc, addr, leaf)[a] != LIMBO
    ensures AfterRead(depth, loc, addr, leaf).Keys == loc.Keys
  {
  }

  lemma {:induction false} ReadPlaced(cfg: Config, stash: seq<RingBlock>, contents: seq<seq<RingBlock>>,
                                      contents': seq<seq<RingBlock>>, pos: PositionMap, mem: Memory,
                                      loc: map<nat, int>, addr: nat, leaf: nat)
    requires Placed(cfg, stash, contents, pos, mem, loc, {}) && |contents| == NumNodes(cfg.treeDepth)
    requires leaf < NumLeaves(cfg.treeDepth)
    requires ReadAlong(contents, contents', NodeSet(PathNodes(cfg.treeDepth, leaf)), addr)
    ensures Placed(cfg, stash, contents', pos, mem, AfterRead(cfg.treeDepth, loc, addr, leaf), {})
  {
    hide PathNodes;
    var loc' := AfterRead(cfg.treeDepth, loc, addr, leaf);
    forall x
      ensures x in stash <==> Here(cfg, pos, mem, loc', x, STASH)
    {
      assert x in stash <==> Here(cfg, pos, mem, loc, x, STASH);
    }
    forall n, x | 0 <= n < |contents'|
      ensures x in contents'[n] <==> Here(cfg, pos, mem, loc', x, n)
    {
      ReadPlacedAt(cfg, stash, contents, contents', pos, mem, loc, addr, leaf, n, x);
    }
    forall n | 0 <= n < |contents'|
      ensures Distinct(contents'[n])
    {
      RemoveDistinct(contents[n], addr);
    }
  }

  lemma {:induction false} ReadPlacedAt(cfg: Config, stash: seq<RingBlock>, contents: seq<seq<RingBlock>>,
                                        contents': seq<seq<RingBlock>>, pos: PositionMap, mem: Memory,
                                        loc: map<nat, int>, addr: nat, leaf: nat, n: nat, x: RingBlock)
    requires Placed(cfg, stash, contents, pos, mem, loc, {}) && |contents| == NumNodes(cfg.treeDepth)
    requires leaf < NumLeaves(cfg.treeDepth)
    requires ReadAlong(contents, contents', NodeSet(PathNodes(cfg.treeDepth, leaf)), addr)
    requires n < |contents|
    ensures x in contents'[n] <==> Here(cfg, pos, mem, AfterRead(cfg.treeDepth, loc, addr, leaf), x, n)
  {
    assert x in contents[n] <==> Here(cfg, pos, mem, loc, x, n);
    RemoveMembers(contents[n], addr, x);
    PathMembers(cfg.treeDepth, leaf, n);
  }

  // ----- the client's own block -----

  /** Taking a block out of the stash. */
  lemma {:induction false} TakePlaced(cfg: Config, stash: seq<RingBlock>, contents: seq<seq<RingBlock>>,
                                      pos: PositionMap, mem: Memory, loc: map<nat, int>, addr: nat)
    requires Placed(cfg, stash, contents, pos, mem, loc, {}) && addr in loc && loc[addr] == STASH
    ensures Placed(cfg, Remove(stash, addr), contents, pos, mem, loc[addr := LIMBO], {})
    ensures Current(cfg, pos, mem, addr) in stash
  {
    var loc' := loc[addr := LIMBO];
    assert Here(cfg, pos, mem, loc, Current(cfg, pos, mem, addr), STASH);
    RemoveDistinct(stash, addr);
    forall x
      ensures x in Remove(stash, addr) <==> Here(cfg, pos, mem, loc', x, STASH)
    {
      RemoveMembers(stash, addr, x);
      assert x in stash <==> Here(cfg, pos, mem, loc, x, STASH);
    }
    forall n, x | 0 <= n < |contents|
      ensures x in contents[n] <==> Here(cfg, pos, mem, loc', x, n)
    {
      assert x in contents[n] <==> Here(cfg, pos, mem, loc, x, n);
    }
  }

  /** While a block is in the client's hands no copy of it is anywhere else. */
  lemma {:induction false} InLimbo(cfg: Config, stash: seq<RingBlock>, contents: seq<seq<RingBlock>>,
                                   pos: PositionMap, mem: Memory, loc: map<nat, int>, addr: nat)
    requires Placed(cfg, stash, contents, pos, mem, loc, {}) && addr in loc && loc[addr] == LIMBO
    ensures forall x :: x in stash ==> x.addr != addr
  {
    forall x | x in stash
      ensures x.addr != addr
    {
      assert Here(cfg, pos, mem, loc, x, STASH);
    }
  }

  /** Putting the block back with a new leaf and new data. */
  lemma {:induction false} PutPlaced(cfg: Config, stash: seq<RingBlock>, contents: seq<seq<RingBlock>>,
                                     pos: PositionMap, mem: Memory, loc: map<nat, int>, addr: nat, leaf: nat,
                                     mem': Memory)
    requires Placed(cfg, stash, contents, pos, mem, loc, {}) && addr in loc && loc[addr] == LIMBO
    requires leaf < NumLeaves(cfg.treeDepth)
    requires forall a :: a != addr ==> Load(mem', a, cfg.blockSize) == Load(mem, a, cfg.blockSize)
    ensures Placed(cfg, stash + [Current(cfg, pos[addr := leaf], mem', addr)], contents, pos[addr := leaf], mem',
                   loc[addr := STASH], {})
  {
    hide Load, OnPath;
    var pos', loc' := pos[addr := leaf], loc[addr := STASH];
    var b := Current(cfg, pos', mem', addr);
    InLimbo(cfg, stash, contents, pos, mem, loc, addr);
    forall x
      ensures x in stash + [b] <==> Here(cfg, pos', mem', loc', x, STASH)
    {
      assert x in stash <==> Here(cfg, pos, mem, loc, x, STASH);
    }
    assert forall i :: 0 <= i < |stash| ==> stash[i] in stash;
    forall n, x | 0 <= n < |contents|
      ensures x in contents[n] <==> Here(cfg, pos', mem', loc', x, n)
    {
      assert x in contents[n] <==> Here(cfg, pos, mem, loc, x, n);
    }
  }

  // ----- moving a whole bucket -----

  ghost function Absorbed(loc: map<nat, int>, n: nat): map<nat, int>
  {
    map a | a in loc :: if loc[a] == n then STASH else loc[a]
  }

  lemma {:induction false} AbsorbPlaced(cfg: Config, stash: seq<RingBlock>, contents: seq<seq<RingBlock>>,
                                        pos: PositionMap, mem: Memory, loc: map<nat, int>, stale: set<nat>, n: nat)
    requires Placed(cfg, stash, contents, pos, mem, loc, stale) && n < |contents| && n !in stale
    ensures Placed(cfg, stash + contents[n], contents, pos, mem, Absorbed(loc, n), stale + {n})
  {
    var loc', stale' := Absorbed(loc, n), stale + {n};
    AbsorbDistinct(cfg, stash, contents, pos, mem, loc, stale, n);
    forall x
      ensures x in stash + contents[n] <==> Here(cfg, pos, mem, loc', x, STASH)
    {
      assert x in stash <==> Here(cfg, pos, mem, loc, x, STASH);
      assert x in contents[n] <==> Here(cfg, pos, mem, loc, x, n);
    }
    forall m, x | 0 <= m < |contents| && m !in stale'
      ensures x in contents[m] <==> Here(cfg, pos, mem, loc', x, m)
    {
      assert x in contents[m] <==> Here(cfg, pos, mem, loc, x, m);
    }
  }

  lemma {:induction false} AbsorbDistinct(cfg: Config, stash: seq<RingBlock>, contents: seq<seq<RingBlock>>,
                                          pos: PositionMap, mem: Memory, loc: map<nat, int>, stale: set<nat>, n: nat)
    requires Placed(cfg, stash, contents, pos, mem, loc, stale) && n < |contents| && n !in stale
    ensures Distinct(stash + contents[n])
    ensures forall x, y :: x in stash && y in contents[n] ==> x.addr != y.addr
  {
    forall x, y | x in stash && y in contents[n]
      ensures x.addr != y.addr
    {
      assert Here(cfg, pos, mem, loc, x, STASH) && Here(cfg, pos, mem, loc, y, n);
    }
    var all := stash + contents[n];
    forall i, j | 0 <= i < j < |all|
      ensures all[i].addr != all[j].addr
    {
      if i < |stash| <= j {
        assert all[i] in stash && all[j] in contents[n];
      }
    }
  }

  /** The first `cap` blocks of the stash that may live at node n, and the others. */
  function Taken(stash: seq<RingBlock>, depth: nat, n: nat, cap: nat): (t: seq<RingBlock>)
    ensures |t| <= cap
  {
    if stash == [] then [] else
      var last, t := stash[|stash| - 1], Taken(stash[..|stash| - 1], depth, n, cap);
      if |t| < cap && OnPath(depth, n, last.leaf) then t + [last] else t
  }

  function Kept(stash: seq<RingBlock>, depth: nat, n: nat, cap: nat): (k: seq<RingBlock>)
    ensures |k| + |Taken(stash, depth, n, cap)| == |stash|
  {
    if stash == [] then [] else
      var last, prefix := stash[|stash| - 1], stash[..|stash| - 1];
      Kept(prefix, depth, n, cap)
      + if |Taken(prefix, depth, n, cap)| < cap && OnPath(depth, n, last.leaf) then [] else [last]
  }

  lemma {:induction false} TakenMembers(stash: seq<RingBlock>, depth: nat, n: nat, cap: nat, x: RingBlock)
    ensures x in stash <==> x in Taken(stash, depth, n, cap) || x in Kept(stash, depth, n, cap)
    ensures x in Taken(stash, depth, n, cap) ==> OnPath(depth, n, x.leaf)
    ensures x in Kept(stash, depth, n, cap) && |Taken(stash, depth, n, cap)| < cap ==> !OnPath(depth, n, x.leaf)
  {
    hide Taken, Kept, OnPath;
    if stash == [] {
      NothingTaken(depth, n, cap);
    } else {
      var prefix, last := stash[..|stash| - 1], stash[|stash| - 1];
      TakenMembers(prefix, depth, n, cap, x);
      TakenSnoc(prefix, last, depth, n, cap);
      assert stash == prefix + [last];
    }
  }

  ghost predicate Apart(x: seq<RingBlock>, y: seq<RingBlock>)
  {
    Distinct(x) && Distinct(y) && forall b, c :: b in x && c in y ==> b.addr != c.addr
  }

  lemma {:induction false} ApartSnoc(x: seq<RingBlock>, y: seq<RingBlock>, b: RingBlock)
    requires Apart(x, y) && forall c :: c in x || c in y ==> c.addr != b.addr
    ensures Apart(x + [b], y) && Apart(x, y + [b])
  {
    assert forall i :: 0 <= i < |x| ==> x[i] in x;
    assert forall i :: 0 <= i < |y| ==> y[i] in y;
  }

  lemma {:induction false} TakenApart(stash: seq<RingBlock>, depth: nat, n: nat, cap: nat)
    requires Distinct(stash)
    ensures Apart(Taken(stash, depth, n, cap), Kept(stash, depth, n, cap))
  {
    if stash != [] {
      hide OnPath, Apart;
      var prefix, last := stash[..|stash| - 1], stash[|stash| - 1];
      TakenApart(prefix, depth, n, cap);
      forall x | x in Taken(prefix, depth, n, cap) || x in Kept(prefix, depth, n, cap)
        ensures x.addr != last.addr
      {
        TakenMembers(prefix, depth, n, cap, x);
      }
      ApartSnoc(Taken(prefix, depth, n, cap), Kept(prefix, depth, n, cap), last);
      assert Kept(prefix, depth, n, cap) + [] == Kept(prefix, depth, n, cap);
    }
  }

  lemma {:induction false} TakenDistinct(stash: seq<RingBlock>, depth: nat, n: nat, cap: nat)
    requires Distinct(stash)
    ensures Distinct(Taken(stash, depth, n, cap)) && Distinct(Kept(stash, depth, n, cap))
    ensures forall x, y :: x in Taken(stash, depth, n, cap) && y in Kept(stash, depth, n, cap) ==> x.addr != y.addr
  {
    hide Taken, Kept;
    TakenApart(stash, depth, n, cap);
  }

  ghost function MovedTo(cfg: Config, stash: seq<RingBlock>, pos: PositionMap, mem: Memory, loc: map<nat, int>, n: nat)
    : map<nat, int>
    requires loc.Keys == pos.Keys
  {
    map a | a in loc :: if Current(cfg, pos, mem, a) in Taken(stash, cfg.treeDepth, n, cfg.z) then n else loc[a]
  }

  /** Rewriting one bucket from the stash. */
  lemma {:induction false} FillPlaced(cfg: Config, stash: seq<RingBlock>, contents: seq<seq<RingBlock>>,
                                      pos: PositionMap, mem: Memory, loc: map<nat, int>, stale: set<nat>, n: nat)
    requires Placed(cfg, stash, contents, pos, mem, loc, stale) && n < |contents| && n in stale
    ensures loc.Keys == pos.Keys
    ensures Placed(cfg, Kept(stash, cfg.treeDepth, n, cfg.z), contents[n := Taken(stash, cfg.treeDepth, n, cfg.z)],
                   pos, mem, MovedTo(cfg, stash, pos, mem, loc, n), stale - {n})
  {
    var taken, kept := Taken(stash, cfg.treeDepth, n, cfg.z), Kept(stash, cfg.treeDepth, n, cfg.z);
    var contents', loc' := contents[n := taken], MovedTo(cfg, stash, pos, mem, loc, n);
    hide Taken, Kept, Load, OnPath;
    TakenDistinct(stash, cfg.treeDepth, n, cfg.z);
    forall x
      ensures x in kept <==> Here(cfg, pos, mem, loc', x, STASH)
    {
      FillStash(cfg, stash, contents, pos, mem, loc, stale, n, x);
    }
    forall m, x | 0 <= m < |contents| && m !in stale - {n}
      ensures x in contents'[m] <==> Here(cfg, pos, mem, loc', x, m)
    {
      FillNode(cfg, stash, contents, pos, mem, loc, stale, n, m, x);
    }
    FillLocated(cfg, stash, contents, pos, mem, loc, stale, n);
  }

  lemma {:induction false} FillStash(cfg: Config, stash: seq<RingBlock>, contents: seq<seq<RingBlock>>,
                                     pos: PositionMap, mem: Memory, loc: map<nat, int>, stale: set<nat>, n: nat,
                                     x: RingBlock)
    requires Placed(cfg, stash, contents, pos, mem, loc, stale) && n < |contents| && n in stale
    ensures x in Kept(stash, cfg.treeDepth, n, cfg.z) <==> Here(cfg, pos, mem, MovedTo(cfg, stash, pos, mem, loc, n), x, STASH)
  {
    hide Taken, Kept, Load, OnPath;
    assert x in stash <==> Here(cfg, pos, mem, loc, x, STASH);
    TakenMembers(stash, cfg.treeDepth, n, cfg.z, x);
    TakenDistinct(stash, cfg.treeDepth, n, cfg.z);
    if x.addr in pos {
      TakenMembers(stash, cfg.treeDepth, n, cfg.z, Current(cfg, pos, mem, x.addr));
    }
  }

  lemma {:induction false} FillNode(cfg: Config, stash: seq<RingBlock>, contents: seq<seq<RingBlock>>,
                                    pos: PositionMap, mem: Memory, loc: map<nat, int>, stale: set<nat>, n: nat,
                                    m: nat, x: RingBlock)
    requires Placed(cfg, stash, contents, pos, mem, loc, stale) && n < |contents| && n in stale
    requires m < |contents| && m !in stale - {n}
    ensures x in contents[n := Taken(stash, cfg.treeDepth, n, cfg.z)][m]
       <==> Here(cfg, pos, mem, MovedTo(cfg, stash, pos, mem, loc, n), x, m)
  {
    hide Taken, Kept, Load, OnPath;
    TakenMembers(stash, cfg.treeDepth, n, cfg.z, x);
    assert x in stash <==> Here(cfg, pos, mem, loc, x, STASH);
    if x.addr in pos {
      var c := Current(cfg, pos, mem, x.addr);
      TakenMembers(stash, cfg.treeDepth, n, cfg.z, c);
      assert c in stash <==> Here(cfg, pos, mem, loc, c, STASH);
    }
    if m != n {
      assert x in contents[m] <==> Here(cfg, pos, mem, loc, x, m);
    }
  }

  lemma {:induction false} FillLocated(cfg: Config, stash: seq<RingBlock>, contents: seq<seq<RingBlock>>,
                                       pos: PositionMap, mem: Memory, loc: map<nat, int>, stale: set<nat>, n: nat)
    requires Placed(cfg, stash, contents, pos, mem, loc, stale) && n < |contents| && n in stale
    ensures Located(cfg, |contents|, pos, MovedTo(cfg, stash, pos, mem, loc, n), stale - {n})
  {
    hide Taken, Load;
    forall a | a in loc && Current(cfg, pos, mem, a) in Taken(stash, cfg.treeDepth, n, cfg.z)
      ensures OnPath(cfg.treeDepth, n, pos[a])
    {
      TakenMembers(stash, cfg.treeDepth, n, cfg.z, Current(cfg, pos, mem, a));
    }
  }

  lemma {:induction false} TakenSnoc(prefix: seq<RingBlock>, x: RingBlock, depth: nat, n: nat, cap: nat)
    ensures var taken, kept := Taken(prefix, depth, n, cap), Kept(prefix, depth, n, cap);
            if |taken| < cap && OnPath(depth, n, x.leaf)
            then Taken(prefix + [x], depth, n, cap) == taken + [x] && Kept(prefix + [x], depth, n, cap) == kept
            else Taken(prefix + [x], depth, n, cap) == taken && Kept(prefix + [x], depth, n, cap) == kept + [x]
  {
    assert (prefix + [x])[..|prefix|] == prefix;
  }

  /** Once the bucket is full the rest of the stash stays where it is. */
  lemma {:induction false} TakenFull(prefix: seq<RingBlock>, rest: seq<RingBlock>, depth: nat, n: nat, cap: nat)
    requires |Taken(prefix, depth, n, cap)| == cap
    ensures Taken(prefix + rest, depth, n, cap) == Taken(prefix, depth, n, cap)
    ensures Kept(prefix + rest, depth, n, cap) == Kept(prefix, depth, n, cap) + rest
  {
    hide Taken, Kept;
    if rest == [] {
      assert prefix + rest == prefix;
    } else {
      var m := |rest| - 1;
      TakenFull(prefix, rest[..m], depth, n, cap);
      TakenSnoc(prefix + rest[..m], rest[m], depth, n, cap);
      assert prefix + rest == prefix + rest[..m] + [rest[m]];
    }
  }

  /** The blocks that may live at node n, in their order. */
  function Eligible(stash: seq<RingBlock>, depth: nat, n: nat): seq<RingBlock>
  {
    if stash == [] then [] else
      var last := stash[|stash| - 1];
      Eligible(stash[..|stash| - 1], depth, n) + if OnPath(depth, n, last.leaf) then [last] else []
  }

  /** The blocks whose addresses are not among the given ones, in their order. */
  function Except(stash: seq<RingBlock>, gone: seq<RingBlock>): seq<RingBlock>
  {
    if stash == [] then [] else
      var last := stash[|stash| - 1];
      Except(stash[..|stash| - 1], gone) + if last in gone then [] else [last]
  }

  /** The first eligible blocks go, up to the capacity. */
  lemma {:induction false} TakenAreFirst(stash: seq<RingBlock>, depth: nat, n: nat, cap: nat)
    ensures var e := Eligible(stash, depth, n);
            Taken(stash, depth, n, cap) == if |e| <= cap then e else e[..cap]
  {
    if stash != [] {
      hide OnPath;
      TakenAreFirst(stash[..|stash| - 1], depth, n, cap);
    }
  }

  lemma {:induction false} ExceptMore(stash: seq<RingBlock>, gone: seq<RingBlock>, x: RingBlock)
    requires x !in stash
    ensures Except(stash, gone + [x]) == Except(stash, gone)
  {
    if stash != [] {
      var init, last := stash[..|stash| - 1], stash[|stash| - 1];
      assert stash == init + [last];
      assert last in init + [last] && forall y :: y in init ==> y in init + [last];
      ExceptMore(init, gone, x);
    }
  }

  /** All others stay, in their order. */
  lemma {:induction false} KeptAreOthers(stash: seq<RingBlock>, depth: nat, n: nat, cap: nat)
    requires Distinct(stash)
    ensures Kept(stash, depth, n, cap) == Except(stash, Taken(stash, depth, n, cap))
  {
    if stash != [] {
      var init, last := stash[..|stash| - 1], stash[|stash| - 1];
      assert stash == init + [last];
      KeptAreOthers(init, depth, n, cap);
      TakenMembers(init, depth, n, cap, last);
      assert forall i :: 0 <= i < |init| ==> init[i] == stash[i] && init[i].addr != last.addr;
      hide OnPath;
      ExceptMore(init, Taken(init, depth, n, cap), last);
    }
  }

  // ----- the fill is optimal -----

  /** For every block, the height at which its path meets the path of `leaf`. */
  function MeetingsOf(stash: seq<RingBlock>, leaf: nat): (depths: seq<nat>)
    ensures |depths| == |stash|
  {
    seq(|stash|, p requires 0 <= p < |stash| => Meeting(stash[p].leaf, leaf))
  }

  predicate LeavesBelow(stash: seq<RingBlock>, limit: nat)
  {
    forall p :: 0 <= p < |stash| ==> stash[p].leaf < limit
  }

  /** Filling the bucket at height i takes eligible blocks up to its capacity. */
  lemma {:induction false} TakenCount(stash: seq<RingBlock>, depth: nat, leaf: nat, i: nat, cap: nat)
    requires leaf < NumLeaves(depth) && LeavesBelow(stash, NumLeaves(depth)) && i <= depth
    ensures var n := NodeAt(depth, leaf, depth - i);
            var eligible := CountLess(MeetingsOf(stash, leaf), i + 1);
            |Taken(stash, depth, n, cap)| == if eligible < cap then eligible else cap
  {
    if stash != [] {
      var m := |stash| - 1;
      TakenCount(stash[..m], depth, leaf, i, cap);
      MeetingsSnoc(stash, leaf);
      MeetingAgrees(stash[m].leaf, leaf, i);
      SharedNode(depth, stash[m].leaf, leaf, i);
    }
  }

  lemma {:induction false} MeetingsSnoc(stash: seq<RingBlock>, leaf: nat)
    requires stash != []
    ensures MeetingsOf(stash, leaf)[..|stash| - 1] == MeetingsOf(stash[..|stash| - 1], leaf)
    ensures MeetingsOf(stash, leaf)[|stash| - 1] == Meeting(stash[|stash| - 1].leaf, leaf)
  {
  }

  /** The blocks that stay behind, counted by height. */
  lemma {:induction false} KeptCount(stash: seq<RingBlock>, depth: nat, leaf: nat, i: nat, cap: nat, k: nat)
    requires leaf < NumLeaves(depth) && LeavesBelow(stash, NumLeaves(depth)) && i < k && i <= depth
    ensures var n := NodeAt(depth, leaf, depth - i);
            CountLess(MeetingsOf(Kept(stash, depth, n, cap), leaf), k) + |Taken(stash, depth, n, cap)|
            == CountLess(MeetingsOf(stash, leaf), k)
  {
    hide Taken, Kept, NodeAt, OnPath, MeetingsOf, CountLess, Meeting, Shr;
    var n := NodeAt(depth, leaf, depth - i);
    if stash == [] {
      NothingTaken(depth, n, cap);
    } else {
      var prefix, x := stash[..|stash| - 1], stash[|stash| - 1];
      assert stash == prefix + [x];
      KeptCount(prefix, depth, leaf, i, cap, k);
      TakenSnoc(prefix, x, depth, n, cap);
      KeptMeetings(prefix, x, leaf, k);
      KeptMeetings(Kept(prefix, depth, n, cap), x, leaf, k);
      MeetingAgrees(x.leaf, leaf, i);
      SharedNode(depth, x.leaf, leaf, i);
    }
  }

  lemma {:induction false} NothingTaken(depth: nat, n: nat, cap: nat)
    ensures Taken([], depth, n, cap) == [] == Kept([], depth, n, cap)
  {
  }

  lemma {:induction false} KeptBelow(stash: seq<RingBlock>, depth: nat, n: nat, cap: nat, limit: nat)
    requires LeavesBelow(stash, limit)
    ensures LeavesBelow(Kept(stash, depth, n, cap), limit)
  {
    if stash != [] { KeptBelow(stash[..|stash| - 1], depth, n, cap, limit); }
  }

  lemma {:induction false} KeptMeetings(kept: seq<RingBlock>, x: RingBlock, leaf: nat, k: nat)
    ensures CountLess(MeetingsOf(kept + [x], leaf), k)
         == CountLess(MeetingsOf(kept, leaf), k) + if Meeting(x.leaf, leaf) < k then 1 else 0
  {
    assert MeetingsOf(kept + [x], leaf) == MeetingsOf(kept, leaf) + [Meeting(x.leaf, leaf)];
    CountLessSnoc(MeetingsOf(kept, leaf), Meeting(x.leaf, leaf), k);
  }

  /** A leaf-to-root fill of a path after the deepest i buckets: as many blocks as any legal placement
      could have put there are gone from the stash, and all the gone ones could live that deep. */
  ghost predicate FilledUpTo(all: seq<RingBlock>, stash: seq<RingBlock>, leaf: nat, cap: nat, i: nat, height: nat)
  {
    && LeavesBelow(stash, NumLeaves(height))
    && |stash| + Best(MeetingsOf(all, leaf), cap, i) == |all|
    && forall k :: i <= k ==> CountLess(MeetingsOf(stash, leaf), k) + Best(MeetingsOf(all, leaf), cap, i)
                              == CountLess(MeetingsOf(all, leaf), k)
  }

  lemma {:induction false} FillNext(all: seq<RingBlock>, stash: seq<RingBlock>, leaf: nat, cap: nat, i: nat,
                                    height: nat)
    requires FilledUpTo(all, stash, leaf, cap, i, height) && leaf < NumLeaves(height) && i <= height
    ensures FilledUpTo(all, Kept(stash, height, NodeAt(height, leaf, height - i), cap), leaf, cap, i + 1, height)
  {
    hide Taken, Kept, MeetingsOf, CountLess, NodeAt;
    var n := NodeAt(height, leaf, height - i);
    TakenCount(stash, height, leaf, i, cap);
    assert CountLess(MeetingsOf(stash, leaf), i + 1) + Best(MeetingsOf(all, leaf), cap, i)
        == CountLess(MeetingsOf(all, leaf), i + 1);
    KeptBelow(stash, height, n, cap, NumLeaves(height));
    forall k: nat | i + 1 <= k
      ensures CountLess(MeetingsOf(Kept(stash, height, n, cap), leaf), k) + Best(MeetingsOf(all, leaf), cap, i + 1)
           == CountLess(MeetingsOf(all, leaf), k)
    {
      KeptCount(stash, height, leaf, i, cap, k);
      assert CountLess(MeetingsOf(stash, leaf), k) + Best(MeetingsOf(all, leaf), cap, i)
          == CountLess(MeetingsOf(all, leaf), k);
    }
  }

  /** The blocks of the buckets of a path, in that order. */
  function Along(contents: seq<seq<RingBlock>>, path: seq<nat>): seq<RingBlock>
  {
    if path == [] then [] else
      var n := path[|path| - 1];
      Along(contents, path[..|path| - 1]) + if n < |contents| then contents[n] else []
  }

  lemma {:induction false} AlongNext(contents: seq<seq<RingBlock>>, path: seq<nat>, i: nat)
    requires i < |path| && path[i] < |contents|
    ensures Along(contents, path[..i + 1]) == Along(contents, path[..i]) + contents[path[i]]
  {
    assert path[..i + 1][..i] == path[..i];
  }

  /** The stash after the deepest i buckets of a path have been filled from it, from the leaf up. */
  function FillFromLeaf(all: seq<RingBlock>, height: nat, leaf: nat, cap: nat, i: nat): seq<RingBlock>
    requires i <= height + 1
  {
    if i == 0 then all
    else Kept(FillFromLeaf(all, height, leaf, cap, i - 1), height, NodeAt(height, leaf, height - (i - 1)), cap)
  }

  /** What the fill puts into the bucket i levels above the leaf. */
  function FillOf(all: seq<RingBlock>, height: nat, leaf: nat, cap: nat, i: nat): seq<RingBlock>
    requires i <= height
  {
    Taken(FillFromLeaf(all, height, leaf, cap, i), height, NodeAt(height, leaf, height - i), cap)
  }

  lemma {:induction false} FillIsBest(all: seq<RingBlock>, height: nat, leaf: nat, cap: nat, i: nat)
    requires leaf < NumLeaves(height) && LeavesBelow(all, NumLeaves(height)) && i <= height + 1
    ensures FilledUpTo(all, FillFromLeaf(all, height, leaf, cap, i), leaf, cap, i, height)
  {
    hide FilledUpTo, Kept, NodeAt;
    if i == 0 {
      NothingFilled(all, leaf, cap, height);
    } else {
      FillIsBest(all, height, leaf, cap, i - 1);
      FillNext(all, FillFromLeaf(all, height, leaf, cap, i - 1), leaf, cap, i - 1, height);
    }
  }

  lemma {:induction false} NothingFilled(all: seq<RingBlock>, leaf: nat, cap: nat, height: nat)
    requires LeavesBelow(all, NumLeaves(height))
    ensures FilledUpTo(all, all, leaf, cap, 0, height)
  {
  }

  /** Ring ORAM's fill, bucket by bucket, and Path ORAM's first fit, block by block, put equally many
      blocks into every bucket of a path and leave equally many over. */
  lemma {:induction false} FillsAgree(all: seq<RingBlock>, height: nat, leaf: nat, cap: nat, i: nat)
    requires leaf < NumLeaves(height) && LeavesBelow(all, NumLeaves(height)) && i <= height
    ensures Bounded(MeetingsOf(all, leaf), height + 1)
    ensures |FillOf(all, height, leaf, cap, i)| == CountEq(FirstFit(MeetingsOf(all, leaf), height + 1, cap), i)
    ensures |FillFromLeaf(all, height, leaf, cap, height + 1)|
         == CountEq(FirstFit(MeetingsOf(all, leaf), height + 1, cap), height + 1)
  {
    hide Kept, Taken, NodeAt, Best, CountLess, CountEq, MeetingsOf, FirstFit;
    MeetingsBounded(all, leaf, height);
    var fit := FirstFit(MeetingsOf(all, leaf), height + 1, cap);
    FillCount(all, height, leaf, cap, i);
    FillCount(all, height, leaf, cap, i + 1);
    FillCount(all, height, leaf, cap, height + 1);
    CountLessStep(fit, i);
    FirstFitTotal(MeetingsOf(all, leaf), height + 1, cap);
  }

  lemma {:induction false} MeetingsBounded(all: seq<RingBlock>, leaf: nat, height: nat)
    requires leaf < NumLeaves(height) && LeavesBelow(all, NumLeaves(height))
    ensures Bounded(MeetingsOf(all, leaf), height + 1)
  {
    forall p | 0 <= p < |all|
      ensures Meeting(all[p].leaf, leaf) <= height
    {
      MeetingBound(all[p].leaf, leaf, height);
    }
  }

  lemma {:induction false} FillCount(all: seq<RingBlock>, height: nat, leaf: nat, cap: nat, i: nat)
    requires leaf < NumLeaves(height) && LeavesBelow(all, NumLeaves(height)) && i <= height + 1
    requires Bounded(MeetingsOf(all, leaf), height + 1)
    ensures |FillFromLeaf(all, height, leaf, cap, i)| + CountLess(FirstFit(MeetingsOf(all, leaf), height + 1, cap), i) == |all|
  {
    hide FillFromLeaf, Best, CountLess, MeetingsOf, FirstFit;
    FillIsBest(all, height, leaf, cap, i);
    FirstFitOptimal(MeetingsOf(all, leaf), height + 1, cap, i);
  }

  lemma {:induction false} FirstFitTotal(depths: seq<nat>, buckets: nat, cap: nat)
    requires Bounded(depths, buckets)
    ensures var fit := FirstFit(depths, buckets, cap);
            CountLess(fit, buckets) + CountEq(fit, buckets) == |depths|
  {
    var fit := FirstFit(depths, buckets, cap);
    FirstFitLegal(depths, buckets, cap);
    CountSplits(fit, buckets);
  }

  /** The fill takes blocks from the stash and adds none. */
  lemma {:induction false} FillShrinks(all: seq<RingBlock>, height: nat, leaf: nat, cap: nat, i: nat, k: nat,
                                       x: RingBlock)
    requires i <= k <= height + 1 && x in FillFromLeaf(all, height, leaf, cap, k)
    ensures x in FillFromLeaf(all, height, leaf, cap, i)
  {
    hide Kept, Taken, NodeAt;
    if i < k {
      TakenMembers(FillFromLeaf(all, height, leaf, cap, k - 1), height, NodeAt(height, leaf, height - (k - 1)), cap, x);
      FillShrinks(all, height, leaf, cap, i, k - 1, x);
    }
  }

  /** A block is left over only if every bucket of the path in which it could live is full. */
  lemma {:induction false} LeftoverBlocked(all: seq<RingBlock>, height: nat, leaf: nat, cap: nat, i: nat, x: RingBlock)
    requires i <= height && x in FillFromLeaf(all, height, leaf, cap, height + 1)
    requires OnPath(height, NodeAt(height, leaf, height - i), x.leaf)
    ensures |FillOf(all, height, leaf, cap, i)| == cap
  {
    hide Kept, Taken, NodeAt, OnPath;
    FillShrinks(all, height, leaf, cap, i + 1, height + 1, x);
    TakenMembers(FillFromLeaf(all, height, leaf, cap, i), height, NodeAt(height, leaf, height - i), cap, x);
  }

  /** The buckets of a path from level i down hold what the fill puts there. */
  ghost predicate PathFilled(contents: seq<seq<RingBlock>>, all: seq<RingBlock>, height: nat, leaf: nat, cap: nat,
                             i: nat)
  {
    forall j :: i <= j <= height ==>
      NodeAt(height, leaf, j) < |contents| && contents[NodeAt(height, leaf, j)] == FillOf(all, height, leaf, cap, height - j)
  }

  lemma {:induction false} PathFilledNext(contents: seq<seq<RingBlock>>, all: seq<RingBlock>, height: nat, leaf: nat,
                                          cap: nat, i: nat)
    requires PathFilled(contents, all, height, leaf, cap, i + 1) && i <= height && leaf < NumLeaves(height)
    requires NodeAt(height, leaf, i) < |contents|
    ensures PathFilled(contents[NodeAt(height, leaf, i) := FillOf(all, height, leaf, cap, height - i)], all, height, leaf, cap, i)
  {
    hide FillOf, NodeAt;
    forall j | i < j <= height
      ensures NodeAt(height, leaf, j) != NodeAt(height, leaf, i)
    {
      NodeAtRange(height, leaf, i);
      NodeAtRange(height, leaf, j);
    }
  }
}
