/** Onion Ring: when there is room. Whether an access succeeds depends only on where the blocks are, on
    their leaves and on the two counters, not on the slots the shuffles put them in. */
module OnionRoom {
  import opened Bytes
  import opened Division
  import opened HeapTree
  import opened OnionEviction
  import opened OnionSchedule
  import opened OnionState
  import opened Permutations
  import opened Ram

  /** The blocks in a bucket. */
  ghost function Held(loc: map<int, int>, n: int): set<int>
  {
    set a | a in loc && loc[a] == n
  }

  lemma {:induction false} HeldIsMembers(cfg: Config, ids: seq<Row>, pos: seq<nat>, loc: map<int, int>, n: nat)
    requires Placed(cfg, ids, pos, loc) && n < |ids|
    ensures Held(loc, n) == Members(ids[n])
  {
    hide RowOk;
    assert forall a :: a >= 0 ==> (a in ids[n] <==> a in loc && loc[a] == n);
  }

  lemma {:induction false} SetOfSeqSize(s: seq<int>)
    ensures |set x | x in s| <= |s|
  {
    if s != [] {
      var t := s[..|s| - 1];
      SetOfSeqSize(t);
      assert s == t + [s[|s| - 1]];
      assert (set x | x in s) == (set x | x in t) + {s[|s| - 1]};
    }
  }

  lemma {:induction false} SeqSetSize(s: seq<int>)
    requires forall i, j :: 0 <= i < j < |s| ==> s[i] != s[j]
    ensures |set x | x in s| == |s|
  {
    if s != [] {
      var t := s[..|s| - 1];
      SeqSetSize(t);
      assert s == t + [s[|s| - 1]];
      assert (set x | x in s) == (set x | x in t) + {s[|s| - 1]};
    }
  }

  /** A row has an empty slot exactly if it holds fewer blocks than it has slots. */
  lemma {:induction false} RoomInRow(cfg: Config, row: Row)
    requires RowOk(cfg, row)
    ensures EMPTY in row <==> |Members(row)| < |row|
  {
    if EMPTY in row {
      var k :| 0 <= k < |row| && row[k] == EMPTY;
      var rest := row[..k] + row[k + 1..];
      forall a | a in Members(row)
        ensures a in rest
      {
        var j :| 0 <= j < |row| && row[j] == a;
        assert rest[if j < k then j else j - 1] == a;
      }
      SetOfSeqSize(rest);
      SubsetSize(Members(row), (set x | x in rest));
    } else {
      forall a | a in row
        ensures a >= 0
      {
      }
      SeqSetSize(row);
      assert Members(row) == set x | x in row;
    }
  }

  lemma {:induction false} RoomInBucket(cfg: Config, ids: seq<Row>, pos: seq<nat>, loc: map<int, int>, n: nat)
    requires Placed(cfg, ids, pos, loc) && n < |ids|
    ensures EMPTY in ids[n] <==> |Held(loc, n)| < cfg.Slots()
  {
    HeldIsMembers(cfg, ids, pos, loc, n);
    RoomInRow(cfg, ids[n]);
  }

  // ----- reading a path -----

  ghost predicate PathIn(ids: seq<Row>, path: seq<nat>)
  {
    forall i :: 0 <= i < |path| ==> path[i] < |ids|
  }

  /** Every bucket of the path holds the address or has an empty slot. */
  ghost predicate PathOpen(ids: seq<Row>, path: seq<nat>, addr: nat)
    requires PathIn(ids, path)
  {
    forall i :: 0 <= i < |path| ==> addr in ids[path[i]] || EMPTY in ids[path[i]]
  }

  /** A slot can be read in every bucket of the leaf's path. */
  ghost predicate CanRead(height: nat, ids: seq<Row>, leaf: nat, addr: nat)
  {
    PathIn(ids, PathNodes(height, leaf)) && PathOpen(ids, PathNodes(height, leaf), addr)
  }

  /** The same without the rows. */
  ghost predicate Readable(cfg: Config, loc: map<int, int>, leaf: nat, addr: nat)
  {
    forall n: nat :: OnPath(cfg.treeHeight, n, leaf) ==> (addr in loc && loc[addr] == n) || |Held(loc, n)| < cfg.Slots()
  }

  lemma {:induction false} ReadableIs(cfg: Config, ids: seq<Row>, pos: seq<nat>, loc: map<int, int>, leaf: nat,
                                      addr: nat)
    requires Placed(cfg, ids, pos, loc) && leaf < NumLeaves(cfg.treeHeight)
    ensures CanRead(cfg.treeHeight, ids, leaf, addr) <==> Readable(cfg, loc, leaf, addr)
  {
    hide RowOk, Homed, Held, OnPath, PathNodes;
    var path := PathNodes(cfg.treeHeight, leaf);
    PathDistinct(cfg.treeHeight, leaf);
    forall n: nat | n < |ids|
      ensures EMPTY in ids[n] <==> |Held(loc, n)| < cfg.Slots()
    {
      RoomInBucket(cfg, ids, pos, loc, n);
    }
    forall n: nat
      ensures n in path <==> OnPath(cfg.treeHeight, n, leaf)
    {
      PathMembers(cfg.treeHeight, leaf, n);
    }
    if Readable(cfg, loc, leaf, addr) {
      forall i | 0 <= i < |path|
        ensures addr in ids[path[i]] || EMPTY in ids[path[i]]
      {
        assert path[i] in path;
      }
    }
  }

  /** A path that can be read leaves room in the root: the block came from there, or a slot was empty. */
  lemma {:induction false} RootOpens(height: nat, ids: seq<Row>, leaf: nat, addr: nat)
    requires CanRead(height, ids, leaf, addr) && |ids| > 0 && leaf < NumLeaves(height)
    ensures EMPTY in Without(ids[0], addr)
  {
    hide NodeAt;
    ParentOnPath(height, leaf, 0);
    assert PathNodes(height, leaf)[0] == 0;
    var k :| 0 <= k < |ids[0]| && (ids[0][k] == addr || ids[0][k] == EMPTY);
    assert Without(ids[0], addr)[k] == EMPTY;
  }

  // ----- one triplet -----

  ghost predicate ChildFits(source: Row, child: Row, pos: seq<nat>, shift: nat, right: bool)
    requires Known(source, pos)
  {
    |Inputs(source, child, pos, shift, right)| <= |child|
  }

  /** A child overflows exactly if more blocks than slots end up in it. */
  lemma {:induction false} FitsIs(cfg: Config, ids: seq<Row>, pos: seq<nat>, loc: map<int, int>, source: nat,
                                  shift: nat, right: bool)
    requires Placed(cfg, ids, pos, loc) && 2 * source + 2 < |ids|
    ensures forall a :: a in loc ==> 0 <= a < |pos|
    ensures var child := 2 * source + 1 + if right then 1 else 0;
            && Known(ids[source], pos)
            && (ChildFits(ids[source], ids[child], pos, shift, right)
                <==> |Held(Sunk(loc, source, pos, shift), child)| <= cfg.Slots())
  {
    hide Inputs, OnPath, Shr;
    var child := 2 * source + 1 + if right then 1 else 0;
    RowsDisjoint(ids, loc, source, child);
    InputsDistinct(cfg, ids[source], ids[child], pos, shift, right);
    var inputs := Inputs(ids[source], ids[child], pos, shift, right);
    SeqSetSize(inputs);
    InputsHeld(cfg, ids, pos, loc, source, shift, right);
  }

  lemma {:induction false} InputsHeld(cfg: Config, ids: seq<Row>, pos: seq<nat>, loc: map<int, int>, source: nat,
                                      shift: nat, right: bool)
    requires Placed(cfg, ids, pos, loc) && 2 * source + 2 < |ids| && Known(ids[source], pos)
    requires forall a :: a in loc ==> 0 <= a < |pos|
    requires var child := 2 * source + 1 + if right then 1 else 0;
             forall i :: 0 <= i < |Inputs(ids[source], ids[child], pos, shift, right)| ==>
               0 <= Inputs(ids[source], ids[child], pos, shift, right)[i]
    ensures var child := 2 * source + 1 + if right then 1 else 0;
            (set x | x in Inputs(ids[source], ids[child], pos, shift, right)) == Held(Sunk(loc, source, pos, shift), child)
  {
    hide Inputs, OnPath, Shr, RowOk, Known;
    var child := 2 * source + 1 + if right then 1 else 0;
    var inputs := Inputs(ids[source], ids[child], pos, shift, right);
    forall a
      ensures a in inputs <==> a in Held(Sunk(loc, source, pos, shift), child)
    {
      if a >= 0 {
        InputsMembers(ids[source], ids[child], pos, shift, right, a);
        assert a in ids[source] <==> a in loc && loc[a] == source;
        assert a in ids[child] <==> a in loc && loc[a] == child;
      }
    }
  }

  // ----- one eviction -----

  /** Step d of eviction t overflows neither child. */
  ghost predicate StepFits(cfg: Config, start: map<int, int>, pos: seq<nat>, t: nat, d: nat)
    requires PosOk(cfg, pos) && Homed(cfg, pos, start) && d < cfg.treeHeight
  {
    var source, after := NodeAt(cfg.treeHeight, EvictionLeaf(cfg.treeHeight, t), d), Descended(cfg, start, pos, t, d + 1);
    |Held(after, 2 * source + 1)| <= cfg.Slots() && |Held(after, 2 * source + 2)| <= cfg.Slots()
  }

  /** Eviction t of a memory whose blocks are at start: no step brings more blocks into a bucket than it has
      slots. */
  ghost predicate EvictionFits(cfg: Config, start: map<int, int>, pos: seq<nat>, t: nat)
    requires PosOk(cfg, pos) && Homed(cfg, pos, start)
  {
    forall d: nat :: d < cfg.treeHeight ==> StepFits(cfg, start, pos, t, d)
  }

  lemma {:induction false} StepFitsIs(cfg: Config, ids: seq<Row>, pos: seq<nat>, loc: map<int, int>,
                                      start: map<int, int>, t: nat, d: nat)
    requires Placed(cfg, ids, pos, loc) && PosOk(cfg, pos) && Homed(cfg, pos, start) && d < cfg.treeHeight
    requires loc == Descended(cfg, start, pos, t, d)
    ensures var source := NodeAt(cfg.treeHeight, EvictionLeaf(cfg.treeHeight, t), d);
            && 2 * source + 2 < |ids| && Level(source) == d && Known(ids[source], pos)
            && (StepFits(cfg, start, pos, t, d) <==>
                && ChildFits(ids[source], ids[2 * source + 1], pos, ShiftAt(cfg.treeHeight, source), false)
                && ChildFits(ids[source], ids[2 * source + 2], pos, ShiftAt(cfg.treeHeight, source), true))
  {
    hide Placed, Homed, Descended, NodeAt, Sunk, Held, ChildFits, Level, EvictionLeaf;
    var source := NodeAt(cfg.treeHeight, EvictionLeaf(cfg.treeHeight, t), d);
    DescendStep(cfg, start, pos, t, d);
    PlacedSize(cfg, ids, pos, loc);
    ChildrenInTree(cfg.treeHeight, source);
    FitsIs(cfg, ids, pos, loc, source, ShiftAt(cfg.treeHeight, source), false);
    FitsIs(cfg, ids, pos, loc, source, ShiftAt(cfg.treeHeight, source), true);
  }

  lemma {:induction false} ChildrenInTree(height: nat, source: nat)
    requires Level(source) < height
    ensures 2 * source + 2 < NumNodes(height)
  {
    hide Level;
    LevelRange(source);
    Pow2Monotone(Level(source) + 1, height);
  }

  lemma {:induction false} HeldBound(cfg: Config, pos: seq<nat>, loc: map<int, int>, n: int)
    requires PosOk(cfg, pos) && Homed(cfg, pos, loc)
    ensures |Held(loc, n)| <= cfg.numBlocks
    ensures forall a :: 0 <= a < cfg.numBlocks && a !in Held(loc, n) ==> |Held(loc, n)| < cfg.numBlocks
  {
    hide OnPath;
    SubsetSize(Held(loc, n), Below(cfg.numBlocks));
    forall a | 0 <= a < cfg.numBlocks && a !in Held(loc, n)
      ensures |Held(loc, n)| < cfg.numBlocks
    {
      SubsetSize(Held(loc, n), Below(cfg.numBlocks) - {a});
    }
  }

  lemma {:induction false} DescendedHomed(cfg: Config, start: map<int, int>, pos: seq<nat>, t: nat, d: nat)
    requires PosOk(cfg, pos) && Homed(cfg, pos, start) && d <= cfg.treeHeight
    ensures Homed(cfg, pos, Descended(cfg, start, pos, t, d))
  {
    hide OnPath, NodeAt, EvictionLeaf, LandingLevel, Level;
    forall a | a in start
      ensures 0 <= Landing(cfg.treeHeight, pos[a], start[a], t, d) < NumNodes(cfg.treeHeight)
      ensures OnPath(cfg.treeHeight, Landing(cfg.treeHeight, pos[a], start[a], t, d), pos[a])
    {
      var level := LandingLevel(cfg.treeHeight, pos[a], EvictionLeaf(cfg.treeHeight, t), d);
      NodeAtRange(cfg.treeHeight, pos[a], level);
    }
  }

  /** With as many slots as blocks no eviction overflows. */
  lemma {:induction false} NoOverflow(cfg: Config, start: map<int, int>, pos: seq<nat>, t: nat)
    requires PosOk(cfg, pos) && Homed(cfg, pos, start) && cfg.numBlocks <= cfg.Slots()
    ensures EvictionFits(cfg, start, pos, t)
  {
    hide Homed, Descended, Held, NodeAt;
    forall d: nat | d < cfg.treeHeight
      ensures StepFits(cfg, start, pos, t, d)
    {
      var source := NodeAt(cfg.treeHeight, EvictionLeaf(cfg.treeHeight, t), d);
      DescendedHomed(cfg, start, pos, t, d + 1);
      HeldBound(cfg, pos, Descended(cfg, start, pos, t, d + 1), 2 * source + 1);
      HeldBound(cfg, pos, Descended(cfg, start, pos, t, d + 1), 2 * source + 2);
    }
  }

  // ----- accesses -----

  /** The leaf and the bucket of every block, and how many accesses and evictions there were. */
  datatype Places = Places(pos: seq<nat>, loc: map<int, int>, accesses: nat, evictions: nat)

  ghost predicate PlacesOk(cfg: Config, p: Places)
  {
    PosOk(cfg, p.pos) && Homed(cfg, p.pos, p.loc)
  }

  ghost predicate EvictionDue(cfg: Config, accesses: nat)
  {
    cfg.a != 0 && accesses % cfg.a == 0
  }

  /** The block in the root, with a new leaf. */
  ghost function Fetched(cfg: Config, p: Places, addr: nat, leaf: nat): (q: Places)
    requires PlacesOk(cfg, p) && addr < cfg.numBlocks && leaf < NumLeaves(cfg.treeHeight)
    ensures PlacesOk(cfg, q)
  {
    RootOnPath(cfg.treeHeight, leaf);
    Places(p.pos[addr := leaf], p.loc[addr := 0], p.accesses + 1, p.evictions)
  }

  /** An access to the address that draws this leaf succeeds: its path can be read, and if an eviction is
      due then that fits. */
  ghost predicate HasRoom(cfg: Config, p: Places, addr: nat, leaf: nat)
    requires PlacesOk(cfg, p) && addr < cfg.numBlocks && leaf < NumLeaves(cfg.treeHeight)
  {
    var q := Fetched(cfg, p, addr, leaf);
    && Readable(cfg, p.loc, p.pos[addr], addr)
    && (EvictionDue(cfg, q.accesses) ==> EvictionFits(cfg, q.loc, q.pos, q.evictions))
  }

  ghost function Accessed(cfg: Config, p: Places, addr: nat, leaf: nat): (q: Places)
    requires PlacesOk(cfg, p) && addr < cfg.numBlocks && leaf < NumLeaves(cfg.treeHeight)
    ensures PlacesOk(cfg, q)
  {
    var q := Fetched(cfg, p, addr, leaf);
    if EvictionDue(cfg, q.accesses) then
      DescendedHomed(cfg, q.loc, q.pos, q.evictions, cfg.treeHeight);
      q.(loc := Descended(cfg, q.loc, q.pos, q.evictions, cfg.treeHeight), evictions := q.evictions + 1)
    else q
  }

  /** With as many slots as blocks every access has room. */
  lemma {:induction false} RoomForAll(cfg: Config, p: Places, addr: nat, leaf: nat)
    requires PlacesOk(cfg, p) && addr < cfg.numBlocks <= cfg.Slots() && leaf < NumLeaves(cfg.treeHeight)
    ensures HasRoom(cfg, p, addr, leaf)
  {
    hide OnPath, Homed, EvictionFits;
    forall n: nat
      ensures (addr in p.loc && p.loc[addr] == n) || |Held(p.loc, n)| < cfg.Slots()
    {
      HeldBound(cfg, p.pos, p.loc, n);
      assert addr in Held(p.loc, n) <==> addr in p.loc && p.loc[addr] == n;
    }
    var q := Fetched(cfg, p, addr, leaf);
    NoOverflow(cfg, q.loc, q.pos, q.evictions);
  }

  ghost predicate RunInRange(cfg: Config, requests: seq<Request>, leaves: seq<nat>)
  {
    && |leaves| <= |requests|
    && forall i :: 0 <= i < |leaves| ==> requests[i].addr < cfg.numBlocks && leaves[i] < NumLeaves(cfg.treeHeight)
  }

  /** Where the blocks are after as many requests as leaves were drawn. */
  ghost function PlacesAfter(cfg: Config, p: Places, requests: seq<Request>, leaves: seq<nat>): (q: Places)
    requires PlacesOk(cfg, p) && RunInRange(cfg, requests, leaves)
    ensures PlacesOk(cfg, q)
  {
    if leaves == [] then p else
      var n := |leaves| - 1;
      Accessed(cfg, PlacesAfter(cfg, p, requests, leaves[..n]), requests[n].addr, leaves[n])
  }

  /** Every access of a run has room. */
  ghost predicate RunHasRoom(cfg: Config, p: Places, requests: seq<Request>, leaves: seq<nat>)
    requires PlacesOk(cfg, p) && RunInRange(cfg, requests, leaves)
  {
    leaves != [] ==>
      var n := |leaves| - 1;
      && RunHasRoom(cfg, p, requests, leaves[..n])
      && HasRoom(cfg, PlacesAfter(cfg, p, requests, leaves[..n]), requests[n].addr, leaves[n])
  }

  lemma {:induction false} OneMoreRequest(cfg: Config, p: Places, requests: seq<Request>, leaves: seq<nat>, leaf: nat)
    requires PlacesOk(cfg, p) && RunInRange(cfg, requests, leaves) && |leaves| < |requests|
    requires requests[|leaves|].addr < cfg.numBlocks && leaf < NumLeaves(cfg.treeHeight)
    ensures RunInRange(cfg, requests, leaves + [leaf])
    ensures var now, addr := PlacesAfter(cfg, p, requests, leaves), requests[|leaves|].addr;
            && PlacesAfter(cfg, p, requests, leaves + [leaf]) == Accessed(cfg, now, addr, leaf)
            && (RunHasRoom(cfg, p, requests, leaves + [leaf])
                <==> RunHasRoom(cfg, p, requests, leaves) && HasRoom(cfg, now, addr, leaf))
  {
    hide Accessed, HasRoom, PlacesOk;
    assert (leaves + [leaf])[..|leaves|] == leaves;
  }

  /** Every a accesses there is one eviction, in every run. */
  lemma {:induction false} EvictionCount(cfg: Config, p: Places, requests: seq<Request>, leaves: seq<nat>)
    requires PlacesOk(cfg, p) && RunInRange(cfg, requests, leaves) && cfg.a > 0 && p.evictions == p.accesses / cfg.a
    ensures var q := PlacesAfter(cfg, p, requests, leaves);
            q.accesses == p.accesses + |leaves| && q.evictions == q.accesses / cfg.a
  {
    if leaves != [] {
      var n := |leaves| - 1;
      EvictionCount(cfg, p, requests, leaves[..n]);
      hide PlacesOk;
      DivStep(PlacesAfter(cfg, p, requests, leaves[..n]).accesses, cfg.a);
    }
  }

  // ----- too many blocks -----

  lemma {:induction false} FirstFits(cfg: Config, p: Places, addr: nat, leaf: nat)
    requires PlacesOk(cfg, p) && addr < cfg.numBlocks && leaf < NumLeaves(cfg.treeHeight)
    requires cfg.treeHeight == 0 && cfg.Slots() == 1 && p.loc == map[]
    ensures HasRoom(cfg, p, addr, leaf) && Accessed(cfg, p, addr, leaf).loc == map[addr := 0]
  {
    hide OnPath, Landing, PosOk;
    var q := Fetched(cfg, p, addr, leaf);
    assert forall n :: Held(p.loc, n) == {};
    if EvictionDue(cfg, q.accesses) { DescendStart(cfg, q.loc, q.pos, q.evictions); }
  }

  lemma {:induction false} SecondRefused(cfg: Config, p: Places, stored: nat, addr: nat, leaf: nat)
    requires PlacesOk(cfg, p) && addr < cfg.numBlocks && leaf < NumLeaves(cfg.treeHeight)
    requires cfg.treeHeight == 0 && cfg.Slots() == 1 && p.loc == map[stored := 0] && addr != stored
    ensures !HasRoom(cfg, p, addr, leaf)
  {
    hide EvictionFits, Homed, NodeAt;
    RootOnPath(cfg.treeHeight, p.pos[addr]);
    assert Held(p.loc, 0) == {stored};
  }

  /** Two blocks that draw the same leaf do not both fit below the root of a tree with one slot per bucket:
      the second access can read its path, and its eviction overflows. */
  lemma {:induction false} SameLeafOverflows(cfg: Config, p: Places, requests: seq<Request>, leaf: nat)
    requires cfg.treeHeight == 1 && cfg.Slots() == 1 && cfg.a == 1 && PlacesOk(cfg, p)
    requires p.loc == map[] && p.accesses == 0 && p.evictions == 0
    requires |requests| == 2 && RunInRange(cfg, requests, [leaf, leaf]) && p.pos[requests[1].addr] != leaf
    requires requests[0].addr != requests[1].addr
    ensures RunHasRoom(cfg, p, requests, [leaf])
    ensures var q := PlacesAfter(cfg, p, requests, [leaf]);
            Readable(cfg, q.loc, q.pos[requests[1].addr], requests[1].addr)
    ensures !RunHasRoom(cfg, p, requests, [leaf, leaf])
  {
    hide HasRoom, Accessed, Readable, Homed;
    var first, second := requests[0].addr, requests[1].addr;
    assert [leaf, leaf][1] == leaf && [leaf, leaf][0] == leaf;
    assert [] + [leaf] == [leaf] && [leaf] + [leaf] == [leaf, leaf];
    EmptyEvicts(cfg, p, first, leaf);
    OneMoreRequest(cfg, p, requests, [], leaf);
    OneMoreRequest(cfg, p, requests, [leaf], leaf);
    var q := PlacesAfter(cfg, p, requests, [leaf]);
    NextOverflows(cfg, q, first, second, leaf);
  }

  /** The first eviction takes the only block to its leaf. */
  lemma {:induction false} EmptyEvicts(cfg: Config, p: Places, addr: nat, leaf: nat)
    requires cfg.treeHeight == 1 && cfg.Slots() == 1 && cfg.a == 1 && PlacesOk(cfg, p)
    requires p.loc == map[] && addr < cfg.numBlocks && leaf < NumLeaves(1)
    ensures HasRoom(cfg, p, addr, leaf)
    ensures Accessed(cfg, p, addr, leaf)
         == Places(p.pos[addr := leaf], map[addr := 1 + leaf], p.accesses + 1, p.evictions + 1)
  {
    hide OnPath, Descended, EvictionFits;
    var q := Fetched(cfg, p, addr, leaf);
    assert forall n :: Held(p.loc, n) == {};
    OneStep(cfg, q.loc, q.pos, q.evictions);
    var after := Descended(cfg, q.loc, q.pos, q.evictions, 1);
    assert after == map[addr := 1 + leaf];
    forall n
      ensures |Held(after, n)| <= 1
    {
      assert Held(after, n) == if n == 1 + leaf then {addr} else {};
    }
  }

  lemma {:induction false} NextOverflows(cfg: Config, p: Places, stored: nat, addr: nat, leaf: nat)
    requires cfg.treeHeight == 1 && cfg.Slots() == 1 && cfg.a == 1 && PlacesOk(cfg, p)
    requires addr < cfg.numBlocks && leaf < NumLeaves(1) && stored < cfg.numBlocks && addr != stored
    requires p.loc == map[stored := 1 + leaf] && p.pos[stored] == leaf && p.pos[addr] != leaf
    ensures Readable(cfg, p.loc, p.pos[addr], addr) && !HasRoom(cfg, p, addr, leaf)
  {
    hide Descended, EvictionFits, NodeAt;
    forall n: nat | OnPath(1, n, p.pos[addr])
      ensures |Held(p.loc, n)| < 1
    {
      LeafNodes(p.pos[addr], n);
      assert Held(p.loc, n) == {};
    }
    var q := Fetched(cfg, p, addr, leaf);
    OneStep(cfg, q.loc, q.pos, q.evictions);
    assert Held(Descended(cfg, q.loc, q.pos, q.evictions, 1), 1 + leaf) == {stored, addr};
    TwoLeaves(leaf);
  }

  lemma {:induction false} TwoLeaves(leaf: nat)
    requires leaf < NumLeaves(1)
    ensures leaf == 0 || leaf == 1
  {
    assert Pow2(1) == 2;
  }

  lemma {:induction false} LeafNodes(leaf: nat, n: nat)
    requires leaf < NumLeaves(1) && OnPath(1, n, leaf)
    ensures n == 0 || n == 1 + leaf
  {
    TwoLeaves(leaf);
    ParentOnPath(1, leaf, Level(n));
    assert Pow2(1) == 2;
  }

  /** The only step of an eviction in a tree of height one. */
  lemma {:induction false} OneStep(cfg: Config, start: map<int, int>, pos: seq<nat>, t: nat)
    requires cfg.treeHeight == 1 && PosOk(cfg, pos) && Homed(cfg, pos, start)
    ensures Descended(cfg, start, pos, t, 1) == map a | a in start :: if start[a] == 0 then 1 + pos[a] else start[a]
    ensures EvictionFits(cfg, start, pos, t) <==>
              && |Held(Descended(cfg, start, pos, t, 1), 1)| <= cfg.Slots()
              && |Held(Descended(cfg, start, pos, t, 1), 2)| <= cfg.Slots()
  {
    hide Descended, NodeAt, EvictionLeaf, OnPath, Held;
    var leaf := EvictionLeaf(1, t);
    ParentOnPath(1, leaf, 0);
    DescendStart(cfg, start, pos, t);
    DescendStep(cfg, start, pos, t, 0);
    assert ShiftAt(1, 0) == 0;
    forall a | a in start
      ensures Shr(pos[a], 0) % 2 == pos[a]
    {
      TwoLeaves(pos[a]);
    }
    assert StepFits(cfg, start, pos, t, 0) <==>
      && |Held(Descended(cfg, start, pos, t, 1), 1)| <= cfg.Slots()
      && |Held(Descended(cfg, start, pos, t, 1), 2)| <= cfg.Slots();
  }
}
