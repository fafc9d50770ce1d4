/** Onion Ring: the client. It keeps, for every bucket of the server's tree, the ids of the blocks in its
    slots. Runs that do not fail answer like a plain memory. */
module OnionClients {
  import opened Bytes
  import opened Division
  import opened HeapTree
  import opened IdealCiphertext
  import opened OnionEviction
  import opened OnionRoom
  import opened OnionSchedule
  import opened OnionServers
  import opened OnionState
  import opened Permutations
  import opened Ram
  import opened Results

  ghost predicate Acceptable(cfg: Config, op: Op, addr: nat, data: seq<byte>)
  {
    addr < cfg.numBlocks && (op == WRITE ==> |data| == cfg.blockSize)
  }

  ghost predicate AllAcceptable(cfg: Config, requests: seq<Request>)
  {
    forall i :: 0 <= i < |requests| ==> Acceptable(cfg, requests[i].op, requests[i].addr, requests[i].data)
  }

  /** How many blocks the root may hold between accesses, when evictions are regular. */
  ghost function RootLoad(cfg: Config, accesses: nat): nat
  {
    if cfg.a > 0 then accesses % cfg.a else 0
  }

  lemma {:induction false} LeafIsLow(leaf: nat, leaves: nat)
    requires leaf < leaves
    ensures leaf % leaves == leaf
  {
  }

  /** Everything about reading one path. */
  lemma {:induction false} ReadFacts(cfg: Config, mem: Memory, ids: seq<Row>, pos: seq<nat>, loc: map<int, int>,
                                     addr: nat, path: seq<nat>, sel: seq<nat>)
    requires SizesOk(cfg, mem) && Placed(cfg, ids, pos, loc) && addr < |pos| && (addr in mem ==> addr in loc)
    requires path == PathNodes(cfg.treeHeight, pos[addr]) && |sel| == |path| && Picked(ids, path, addr, sel, |path|)
    ensures Grid(cfg, View(cfg, mem, ids)) && Within(sel, cfg.Slots()) && pos[addr] < NumLeaves(cfg.treeHeight)
    ensures Reaches(ids, path, sel, |path|) && Reaches(View(cfg, mem, ids), path, sel, |path|)
    ensures PathSum(cfg, View(cfg, mem, ids), path, sel, |path|) == CipherOf(cfg, mem, addr)
    ensures Overwrite(ids, path, sel, |path|, EMPTY) == Dropped(ids, addr)
    ensures Overwrite(View(cfg, mem, ids), path, sel, |path|, Zeros(cfg.tlweN)) == View(cfg, mem, Dropped(ids, addr))
  {
    hide CipherOf, Picked, PathSum, Overwrite, PathNodes, Indexed, Homed, NodeAt, OnPath;
    ViewGrid(cfg, mem, ids);
    PathDistinct(cfg.treeHeight, pos[addr]);
    HomeOnly(cfg, ids, pos, loc, addr, path);
    PickedReaches(cfg, ids, path, addr, sel);
    SumIsTarget(cfg, mem, ids, path, addr, sel, |path|);
    ViewOverwrite(cfg, mem, ids, path, sel, |path|);
    ClearingDrops(cfg, ids, path, addr, sel);
    if addr !in loc { UnwrittenIsZero(cfg, mem, addr); }
  }

  lemma {:induction false} ViewGrid(cfg: Config, mem: Memory, ids: seq<Row>)
    requires SizesOk(cfg, mem) && RowsOk(cfg, ids)
    ensures Grid(cfg, View(cfg, mem, ids))
  {
    hide SizesOk, BucketShape, Cells;
    forall n | 0 <= n < |ids|
      ensures BucketShape(cfg, Cells(cfg, mem, ids[n]))
    {
      assert RowOk(cfg, ids[n]);
      CellsShape(cfg, mem, ids[n]);
    }
  }

  lemma {:induction false} PickedReaches(cfg: Config, ids: seq<Row>, path: seq<nat>, addr: nat, sel: seq<nat>)
    requires RowsOk(cfg, ids) && |sel| == |path| && Picked(ids, path, addr, sel, |path|)
    ensures Reaches(ids, path, sel, |path|) && Within(sel, cfg.Slots())
  {
    forall i | 0 <= i < |sel|
      ensures sel[i] < cfg.Slots()
    {
      assert RowOk(cfg, ids[path[i]]);
    }
  }

  /** An address is stored in one bucket at most, and that bucket is on its path. */
  lemma {:induction false} HomeOnly(cfg: Config, ids: seq<Row>, pos: seq<nat>, loc: map<int, int>, addr: nat,
                                    path: seq<nat>)
    requires Placed(cfg, ids, pos, loc) && addr < |pos| && path == PathNodes(cfg.treeHeight, pos[addr])
    ensures forall n :: 0 <= n < |ids| && addr in ids[n] ==> n in path
    ensures forall m, n :: 0 <= m < |ids| && 0 <= n < |ids| && addr in ids[m] && addr in ids[n] ==> m == n
    ensures addr in loc <==> exists i :: 0 <= i < |path| && path[i] < |ids| && addr in ids[path[i]]
  {
    hide RowOk, PathNodes;
    if addr in loc {
      assert addr in ids[loc[addr]];
      PathMembers(cfg.treeHeight, pos[addr], loc[addr]);
      var i :| 0 <= i < |path| && path[i] == loc[addr];
      assert addr in ids[path[i]];
    }
  }

  /** Everything about putting a block into the root. */
  lemma {:induction false} RootFacts(cfg: Config, mem: Memory, ids: seq<Row>, pos: seq<nat>, loc: map<int, int>,
                                     addr: nat, slot: nat, r: Request, data: seq<byte>)
    requires SizesOk(cfg, mem) && Placed(cfg, ids, pos, loc) && addr !in loc && addr < cfg.numBlocks
    requires |ids| > 0 && slot < |ids[0]| && ids[0][slot] == EMPTY
    requires r.addr == addr && data == Answer(mem, r, cfg.blockSize) && |data| == cfg.blockSize
    ensures cfg.blockSize <= cfg.tlweN && SizesOk(cfg, Store(mem, r))
    ensures |View(cfg, mem, ids)| > 0 && slot < |View(cfg, mem, ids)[0]|
    ensures Placed(cfg, ids[0 := ids[0][slot := addr]], pos, loc[addr := 0])
    ensures View(cfg, Store(mem, r), ids[0 := ids[0][slot := addr]])
         == View(cfg, mem, ids)[0 := View(cfg, mem, ids)[0][slot := Encode(data, cfg.tlweN)]]
    ensures Members(ids[0][slot := addr]) == Members(ids[0]) + {addr}
  {
    hide Placed, Members, Encode, View;
    var mem' := Store(mem, r);
    RootInsertPlaced(cfg, ids, pos, loc, addr, slot);
    Absent(cfg, ids, pos, loc, addr);
    ViewIgnoresAbsent(cfg, mem, mem', ids, addr);
    CellsUpdate(cfg, mem', ids, 0, slot, addr);
    assert Load(mem', addr, cfg.blockSize) == data;
  }

  lemma {:induction false} Absent(cfg: Config, ids: seq<Row>, pos: seq<nat>, loc: map<int, int>, addr: nat)
    requires Placed(cfg, ids, pos, loc) && addr !in loc
    ensures forall n :: 0 <= n < |ids| ==> addr !in ids[n]
  {
  }

  // ----- one triplet -----

  /** One child's share after the first k slots of the source. */
  ghost predicate Sharing(cfg: Config, mem: Memory, row: Row, pos: seq<nat>, shift: nat, right: bool, k: nat, ids: Row,
                          cells: seq<Ciphertext>)
  {
    && Known(row, pos) && k <= |row|
    && ids == Permuted<int>(row, SlotsGoing(row, pos, shift, right, k)) && cells == Cells(cfg, mem, ids)
  }

  lemma {:induction false} SharingStart(cfg: Config, mem: Memory, row: Row, pos: seq<nat>, shift: nat)
    requires Known(row, pos)
    ensures Sharing(cfg, mem, row, pos, shift, false, 0, [], []) && Sharing(cfg, mem, row, pos, shift, true, 0, [], [])
  {
  }

  lemma {:induction false} SharingNext(cfg: Config, mem: Memory, row: Row, pos: seq<nat>, shift: nat, k: nat,
                                       bucket: seq<Ciphertext>, leftIds: Row, leftCells: seq<Ciphertext>,
                                       rightIds: Row, rightCells: seq<Ciphertext>)
    requires bucket == Cells(cfg, mem, row) && k < |row|
    requires Sharing(cfg, mem, row, pos, shift, false, k, leftIds, leftCells)
    requires Sharing(cfg, mem, row, pos, shift, true, k, rightIds, rightCells)
    ensures row[k] < |pos| && |bucket| == |row|
    ensures row[k] >= 0 && Shr(pos[row[k]], shift) % 2 != 0
            ==> Sharing(cfg, mem, row, pos, shift, true, k + 1, rightIds + [row[k]], rightCells + [bucket[k]])
    ensures !(row[k] >= 0 && Shr(pos[row[k]], shift) % 2 != 0)
            ==> Sharing(cfg, mem, row, pos, shift, true, k + 1, rightIds, rightCells)
    ensures row[k] >= 0 && Shr(pos[row[k]], shift) % 2 == 0
            ==> Sharing(cfg, mem, row, pos, shift, false, k + 1, leftIds + [row[k]], leftCells + [bucket[k]])
    ensures !(row[k] >= 0 && Shr(pos[row[k]], shift) % 2 == 0)
            ==> Sharing(cfg, mem, row, pos, shift, false, k + 1, leftIds, leftCells)
  {
    hide Permuted, CipherOf, Shr, Cells;
    PermutedSnoc<int>(row, SlotsGoing(row, pos, shift, false, k), k);
    PermutedSnoc<int>(row, SlotsGoing(row, pos, shift, true, k), k);
    CellsSnoc(cfg, mem, leftIds, row[k]);
    CellsSnoc(cfg, mem, rightIds, row[k]);
  }

  lemma {:induction false} CellsSnoc(cfg: Config, mem: Memory, ids: Row, id: int)
    ensures Cells(cfg, mem, ids + [id]) == Cells(cfg, mem, ids) + [CipherOf(cfg, mem, id)]
  {
    hide CipherOf;
  }

  /** A child's inputs after its first k slots. */
  ghost predicate Owning(cfg: Config, mem: Memory, row: Row, k: nat, share: Row, ids: Row, cells: seq<Ciphertext>)
  {
    k <= |row| && ids == share + Permuted<int>(row, RealSlots(row, k)) && cells == Cells(cfg, mem, ids)
  }

  lemma {:induction false} OwningStart(cfg: Config, mem: Memory, row: Row, share: Row)
    ensures Owning(cfg, mem, row, 0, share, share, Cells(cfg, mem, share))
  {
    assert Permuted<int>(row, []) == [];
  }

  lemma {:induction false} OwningNext(cfg: Config, mem: Memory, row: Row, k: nat, share: Row, bucket: seq<Ciphertext>,
                                      ids: Row, cells: seq<Ciphertext>)
    requires bucket == Cells(cfg, mem, row) && k < |row| && Owning(cfg, mem, row, k, share, ids, cells)
    ensures |bucket| == |row|
    ensures row[k] >= 0 ==> Owning(cfg, mem, row, k + 1, share, ids + [row[k]], cells + [bucket[k]])
    ensures row[k] < 0 ==> Owning(cfg, mem, row, k + 1, share, ids, cells)
  {
    hide Permuted, CipherOf, Cells;
    PermutedSnoc<int>(row, RealSlots(row, k), k);
    CellsSnoc(cfg, mem, ids, row[k]);
  }

  /** Both loops together give a child's inputs. */
  lemma {:induction false} InputsReady(cfg: Config, mem: Memory, source: Row, child: Row, pos: seq<nat>, shift: nat,
                                       right: bool, share: Row, shareCells: seq<Ciphertext>, ids: Row,
                                       cells: seq<Ciphertext>)
    requires Sharing(cfg, mem, source, pos, shift, right, |source|, share, shareCells)
    requires Owning(cfg, mem, child, |child|, share, ids, cells)
    ensures Known(source, pos) && ids == Inputs(source, child, pos, shift, right) && cells == Cells(cfg, mem, ids)
  {
  }

  lemma {:induction false} SharingCells(cfg: Config, mem: Memory, row: Row, pos: seq<nat>, shift: nat, right: bool,
                                        ids: Row, cells: seq<Ciphertext>)
    requires Sharing(cfg, mem, row, pos, shift, right, |row|, ids, cells)
    ensures cells == Cells(cfg, mem, ids)
  {
  }

  lemma {:induction false} ShiftIs(height: nat, source: nat)
    requires Level(source) < height
    ensures ShiftAt(height, source) == height - Level(source) - 1
  {
  }

  lemma {:induction false} RowFacts(cfg: Config, mem: Memory, ids: seq<Row>, pos: seq<nat>, loc: map<int, int>, n: nat)
    requires Placed(cfg, ids, pos, loc) && n < |ids|
    ensures Known(ids[n], pos) && |ids[n]| == cfg.Slots() && View(cfg, mem, ids)[n] == Cells(cfg, mem, ids[n])
  {
  }

  lemma {:induction false} TripletFacts(cfg: Config, mem: Memory, ids: seq<Row>, pos: seq<nat>, loc: map<int, int>,
                                        source: nat)
    requires Placed(cfg, ids, pos, loc) && Level(source) < cfg.treeHeight
    ensures source < |ids| && 2 * source + 2 < |ids| && |View(cfg, mem, ids)| == |ids| && Known(ids[source], pos)
    ensures Uniform(cfg, View(cfg, mem, ids))
    ensures forall a :: a in loc ==> 0 <= a < |pos|
  {
    ChildrenInTree(cfg.treeHeight, source);
    forall n | 0 <= n < |ids|
      ensures |View(cfg, mem, ids)[n]| == cfg.Slots() == |ids[n]|
    {
      RowFacts(cfg, mem, ids, pos, loc, n);
    }
  }

  lemma {:induction false} TripletResult(cfg: Config, mem: Memory, ids: seq<Row>, pos: seq<nat>, loc: map<int, int>,
                                         source: nat, leftRow: Row, rightRow: Row, leftPerm: seq<nat>,
                                         rightPerm: seq<nat>)
    requires Placed(cfg, ids, pos, loc) && Level(source) < cfg.treeHeight && 2 * source + 2 < |ids|
    requires ChildAfter(ids[source], ids[2 * source + 1], pos, ShiftAt(cfg.treeHeight, source), false, leftPerm, leftRow)
    requires ChildAfter(ids[source], ids[2 * source + 2], pos, ShiftAt(cfg.treeHeight, source), true, rightPerm, rightRow)
    ensures var ids' := ids[2 * source + 1 := leftRow][2 * source + 2 := rightRow][source := BlankRow(cfg)];
            && TripletAfter(cfg.treeHeight, ids, pos, source, leftPerm, rightPerm, ids')
            && (forall a :: a in loc ==> 0 <= a < |pos|)
            && Placed(cfg, ids', pos, Sunk(loc, source, pos, ShiftAt(cfg.treeHeight, source)))
            && Sunk(loc, source, pos, ShiftAt(cfg.treeHeight, source)).Keys == loc.Keys
            && View(cfg, mem, ids') == View(cfg, mem, ids)[2 * source + 1 := Cells(cfg, mem, leftRow)]
                 [2 * source + 2 := Cells(cfg, mem, rightRow)][source := BlankBucket(cfg)]
            && |Cells(cfg, mem, leftRow)| == |Cells(cfg, mem, rightRow)| == |BlankBucket(cfg)| == cfg.Slots()
  {
    hide ChildAfter, Homed, Indexed, Level;
    LocKnown(cfg, ids, pos, loc);
    var blank: Row := BlankRow(cfg);
    var ids' := ids[2 * source + 1 := leftRow][2 * source + 2 := rightRow][source := blank];
    ChildSize(ids[source], ids[2 * source + 1], pos, ShiftAt(cfg.treeHeight, source), false, leftPerm, leftRow);
    ChildSize(ids[source], ids[2 * source + 2], pos, ShiftAt(cfg.treeHeight, source), true, rightPerm, rightRow);
    BlankCells(cfg, mem, blank);
    TripletPlaced(cfg, ids, pos, loc, source, leftPerm, rightPerm, ids');
  }

  /** Every bucket has all its slots. */
  ghost predicate Uniform(cfg: Config, tree: seq<seq<Ciphertext>>)
  {
    forall n :: 0 <= n < |tree| ==> |tree[n]| == cfg.Slots()
  }

  lemma {:induction false} LocKnown(cfg: Config, ids: seq<Row>, pos: seq<nat>, loc: map<int, int>)
    requires Placed(cfg, ids, pos, loc)
    ensures forall a :: a in loc ==> 0 <= a < |pos|
  {
  }

  lemma {:induction false} ChildSize(source: Row, child: Row, pos: seq<nat>, shift: nat, right: bool, perm: seq<nat>,
                                     after: Row)
    requires ChildAfter(source, child, pos, shift, right, perm, after)
    ensures |after| == |child|
  {
  }

  // ----- refreshing a bucket -----

  ghost predicate Shuffled(before: Row, perm: seq<nat>, after: Row)
  {
    IsPermutation(perm) && |perm| == |before| && after == Permuted<int>(before, perm)
  }

  lemma {:induction false} SameAgain(cfg: Config, mem: Memory, id: int)
    requires SizesOk(cfg, mem)
    ensures cfg.blockSize <= cfg.tlweN == |CipherOf(cfg, mem, id)|
    ensures Encode(CipherOf(cfg, mem, id)[..cfg.blockSize], cfg.tlweN) == CipherOf(cfg, mem, id)
  {
  }

  lemma {:induction false} RefreshedPlaced(cfg: Config, mem: Memory, ids: seq<Row>, pos: seq<nat>, loc: map<int, int>,
                                           n: nat, perm: seq<nat>, row: Row)
    requires Placed(cfg, ids, pos, loc) && n < |ids| && Shuffled(ids[n], perm, row)
    ensures Placed(cfg, ids[n := row], pos, loc)
    ensures View(cfg, mem, ids[n := row]) == View(cfg, mem, ids)[n := Cells(cfg, mem, row)]
  {
    hide Homed, Cells;
    PermutedRowOk(cfg, ids[n], perm);
    PermutedMembers(ids[n], perm);
  }

  // ----- the schedule -----

  /** Buckets above the leaves are empty while they rest, and never too full when evictions are regular. */
  ghost predicate OnSchedule(cfg: Config, t: nat, ids: seq<Row>, rootLoad: nat)
  {
    && RestedEmpty(cfg.treeHeight, t, ids)
    && (cfg.a > 0 ==> LoadsOk(cfg.treeHeight, cfg.a, ids))
    && (cfg.a > 0 && cfg.treeHeight > 0 ==> |ids| > 0 && |Members(ids[0])| <= rootLoad)
  }

  ghost predicate LeafBucket(height: nat, n: nat)
  {
    Level(n) == height && (n == 0 <==> height == 0)
  }

  lemma {:induction false} RefreshKeeps(cfg: Config, t: nat, u: nat, ids: seq<Row>, ids': seq<Row>, n: nat)
    requires n < |ids| == |ids'| && LeafBucket(cfg.treeHeight, n) && ids' == ids[n := ids'[n]]
    requires OnSchedule(cfg, t, ids, 0) && PathEmptied(cfg.treeHeight, u, ids)
    ensures OnSchedule(cfg, t, ids', 0) && PathEmptied(cfg.treeHeight, u, ids')
  {
    hide RestedEmpty, LoadsOk, PathEmptied, Members, Level;
    ScheduleIgnores(cfg.treeHeight, cfg.a, t, u, ids, n, ids'[n]);
  }

  lemma {:induction false} RootLoadBelow(cfg: Config, accesses: nat)
    ensures cfg.a > 0 ==> RootLoad(cfg, accesses) <= cfg.a
  {
  }

  lemma {:induction false} LoadWeakens(cfg: Config, t: nat, ids: seq<Row>, load: nat, more: nat)
    requires OnSchedule(cfg, t, ids, load) && (cfg.a > 0 ==> load <= more)
    ensures OnSchedule(cfg, t, ids, more)
  {
  }

  lemma {:induction false} PosSize(cfg: Config, ids: seq<Row>, pos: seq<nat>, loc: map<int, int>)
    requires Placed(cfg, ids, pos, loc)
    ensures |pos| == cfg.numBlocks
  {
  }

  /** Taking a block out of the tree empties no slot that the schedule wants full. */
  lemma {:induction false} DroppedOnSchedule(cfg: Config, t: nat, ids: seq<Row>, pos: seq<nat>, loc: map<int, int>,
                                             addr: nat, load: nat)
    requires Placed(cfg, ids, pos, loc) && OnSchedule(cfg, t, ids, load)
    ensures OnSchedule(cfg, t, Dropped(ids, addr), load)
  {
    hide RowOk, Without, Members, Blank, Rested, Level, Pow2, Indexed, Homed;
    forall n | 0 <= n < |ids|
      ensures Blank(ids[n]) ==> Blank(Without(ids[n], addr))
      ensures |Members(Without(ids[n], addr))| <= |Members(ids[n])|
    {
      WithoutOk(cfg, ids[n], addr);
      SubsetSize(Members(Without(ids[n], addr)), Members(ids[n]));
    }
  }

  lemma {:induction false} InsertedOnSchedule(cfg: Config, t: nat, ids: seq<Row>, ids': seq<Row>, load: nat, addr: nat)
    requires |ids| > 0 && OnSchedule(cfg, t, ids, load)
    requires |ids'| == |ids| && ids' == ids[0 := ids'[0]] && Members(ids'[0]) == Members(ids[0]) + {addr}
    ensures OnSchedule(cfg, t, ids', load + 1)
  {
    hide RestedEmpty, LoadsOk, Members;
    ScheduleIgnores(cfg.treeHeight, cfg.a, t, t, ids, 0, ids'[0]);
    assert |Members(ids[0]) + {addr}| <= |Members(ids[0])| + 1;
  }

  /** One more access fills the root by one; at a multiple of a it may be as full as a. */
  lemma {:induction false} LoadAfter(cfg: Config, accesses: nat, t: nat, ids: seq<Row>)
    requires accesses > 0 && OnSchedule(cfg, t, ids, RootLoad(cfg, accesses - 1) + 1)
    ensures EvictionDue(cfg, accesses) ==> OnSchedule(cfg, t, ids, cfg.a) && RootLoad(cfg, accesses) == 0
    ensures !EvictionDue(cfg, accesses) ==> OnSchedule(cfg, t, ids, RootLoad(cfg, accesses))
  {
    hide RestedEmpty, LoadsOk, Members;
    if cfg.a > 0 { DivStep(accesses - 1, cfg.a); }
  }

  class OnionRingClient {
    const cfg: Config
    const server: OnionRingServer
    var posMap: seq<nat>
    var idMap: seq<Row>
    var accessCount: nat
    var evictionCounter: nat

    ghost var mem: Memory
    ghost var loc: map<int, int>

    /** Every slot of the server decrypts to what the client's row says: zero, or the latest data of the
        block, which is in no other slot and on the path of its leaf. */
    ghost predicate StoredWith(pos: seq<nat>)
      reads this`idMap, this`mem, this`loc, server`tree
    {
      && server.cfg == cfg && SizesOk(cfg, mem) && Placed(cfg, idMap, pos, loc)
      && server.tree == View(cfg, mem, idMap)
    }

    ghost predicate Stored()
      reads this`posMap, this`idMap, this`mem, this`loc, server`tree
    {
      StoredWith(posMap)
    }

    ghost predicate Scheduled(rootLoad: nat)
      reads this`idMap, this`evictionCounter
    {
      OnSchedule(cfg, evictionCounter, idMap, rootLoad)
    }

    /** The leaf and the bucket of every block, and the counters. */
    ghost function Where(): Places
      reads this`posMap, this`loc, this`accessCount, this`evictionCounter
    {
      Places(posMap, loc, accessCount, evictionCounter)
    }

    /** Only the address has a new leaf. */
    ghost predicate Remapped(before: seq<nat>, addr: nat)
      reads this`posMap
    {
      addr < |before| == |posMap| && posMap == before[addr := posMap[addr]] && posMap[addr] < NumLeaves(cfg.treeHeight)
    }

    ghost predicate Valid()
      reads this, server`tree
    {
      Stored() && Scheduled(RootLoad(cfg, accessCount)) && Complete()
    }

    /** Nothing that was written has been lost. */
    ghost predicate Complete()
      reads this`mem, this`loc
    {
      forall a :: a in mem ==> a in loc
    }

    lemma {:induction false} StartPlaces()
      requires Valid()
      ensures PlacesOk(cfg, Where())
    {
      hide RowsOk, Indexed, View, OnSchedule;
    }

    constructor (cfg: Config, server: OnionRingServer)
      requires cfg.blockSize <= cfg.tlweN && server.cfg == cfg && server.Initialized()
      requires forall n :: 0 <= n < |server.tree| ==> server.tree[n] == BlankBucket(cfg)
      ensures Valid() && mem == map[] && loc == map[] && accessCount == 0 && evictionCounter == 0
      ensures this.cfg == cfg && this.server == server
    {
      this.cfg, this.server := cfg, server;
      var rows := seq(NumNodes(cfg.treeHeight), _ => BlankRow(cfg));
      idMap := rows;
      accessCount, evictionCounter := 0, 0;
      mem, loc := map[], map[];
      var positions := RandomLeaves(cfg);
      posMap := positions;
      new;
      StartStored();
    }

    static method RandomLeaves(cfg: Config) returns (positions: seq<nat>)
      ensures PosOk(cfg, positions)
    {
      positions := [];
      for i := 0 to cfg.numBlocks
        invariant |positions| == i && forall j :: 0 <= j < i ==> positions[j] < NumLeaves(cfg.treeHeight)
      {
        var leaf := GetRandomLeaf(cfg.treeHeight);
        positions := positions + [leaf];
      }
    }

    static method GetRandomLeaf(height: nat) returns (leaf: nat)
      ensures leaf < NumLeaves(height)
    {
      leaf :| leaf < NumLeaves(height);
    }

    lemma {:induction false} StartStored()
      requires cfg.blockSize <= cfg.tlweN && server.cfg == cfg && server.Initialized() && PosOk(cfg, posMap)
      requires forall n :: 0 <= n < |server.tree| ==> server.tree[n] == BlankBucket(cfg)
      requires idMap == seq(NumNodes(cfg.treeHeight), _ => BlankRow(cfg))
      requires mem == map[] && loc == map[] && accessCount == 0
      ensures Valid()
    {
      hide Rested, Level, Encode, Pow2;
      forall n | 0 <= n < |idMap|
        ensures Cells(cfg, mem, idMap[n]) == BlankBucket(cfg) && Members(idMap[n]) == {}
      {
        BlankCells(cfg, mem, idMap[n]);
        BlankHasNoMembers(idMap[n]);
      }
      assert server.tree == View(cfg, mem, idMap);
    }

    // ----- looking for slots -----

    method FindSlot(n: nat, blockId: int) returns (slot: nat)
      requires n < |idMap|
      ensures slot <= |idMap[n]|
      ensures slot < |idMap[n]| <==> blockId in idMap[n]
      ensures slot < |idMap[n]| ==> idMap[n][slot] == blockId
      ensures forall k :: 0 <= k < slot ==> idMap[n][k] != blockId
    {
      slot := 0;
      while slot < |idMap[n]|
        invariant slot <= |idMap[n]| && forall k :: 0 <= k < slot ==> idMap[n][k] != blockId
      {
        if idMap[n][slot] == blockId { return; }
        slot := slot + 1;
      }
    }

    method FindFirstDummySlot(n: nat) returns (slot: nat)
      requires n < |idMap|
      ensures slot <= |idMap[n]|
      ensures slot < |idMap[n]| <==> EMPTY in idMap[n]
      ensures slot < |idMap[n]| ==> idMap[n][slot] == EMPTY
      ensures forall k :: 0 <= k < slot ==> idMap[n][k] != EMPTY
    {
      slot := FindSlot(n, EMPTY);
    }

    /** One slot per bucket of the path; fails exactly if some bucket has neither the block nor room. */
    method SelectSlots(path: seq<nat>, addr: nat) returns (r: Result<seq<nat>>)
      requires PathIn(idMap, path)
      ensures r.Success? <==> PathOpen(idMap, path, addr)
      ensures r.Success? ==> |r.value| == |path| && Picked(idMap, path, addr, r.value, |path|)
      ensures r.Failure? ==> r.error == RuntimeError
    {
      var selections: seq<nat> := [];
      for i := 0 to |path|
        invariant |selections| == i && Picked(idMap, path, addr, selections, i)
        invariant forall j :: 0 <= j < i ==> addr in idMap[path[j]] || EMPTY in idMap[path[j]]
      {
        var slot := FindSlot(path[i], addr);
        if slot == |idMap[path[i]]| {
          slot := FindFirstDummySlot(path[i]);
        }
        if slot == |idMap[path[i]]| {
          return Failure(RuntimeError);
        }
        selections := selections + [slot];
      }
      return Success(selections);
    }

    // ----- reading -----

    /** The sum of the picked slots is the block's latest data, and clearing them takes it out of the tree. */
    method FetchAndClear(oldLeaf: nat, addr: nat, path: seq<nat>, selections: seq<nat>, ghost pos: seq<nat>)
      returns (data: seq<byte>)
      requires StoredWith(pos) && addr < |pos| && pos[addr] == oldLeaf && (addr in mem ==> addr in loc)
      requires path == PathNodes(cfg.treeHeight, oldLeaf) && |selections| == |path|
      requires Picked(idMap, path, addr, selections, |path|)
      modifies this`idMap, this`loc, server
      ensures server.cfg == cfg && data == Load(mem, addr, cfg.blockSize)
      ensures idMap == Dropped(old(idMap), addr) && server.tree == View(cfg, mem, idMap) && loc == old(loc) - {addr}
    {
      ReadFacts(cfg, mem, idMap, pos, loc, addr, path, selections);
      hide *;
      ghost var ids := idMap;
      var sum := FetchPathSum(oldLeaf, selections, path);
      ClearPathSlots(oldLeaf, selections, path);
      ForgetSlots(path, selections);
      loc := loc - {addr};
      data := DecryptBlock(sum, addr);
    }

    method FetchPathSum(leaf: nat, selections: seq<nat>, ghost path: seq<nat>) returns (sum: Ciphertext)
      requires server.cfg == cfg && Grid(cfg, server.tree) && leaf < NumLeaves(cfg.treeHeight)
      requires path == PathNodes(cfg.treeHeight, leaf) && |selections| == |path| && Within(selections, cfg.Slots())
      ensures Reaches(server.tree, path, selections, |path|)
      ensures sum == PathSum(cfg, server.tree, path, selections, |path|)
    {
      hide PathNodes, PathSum, Grid;
      LeafIsLow(leaf, NumLeaves(cfg.treeHeight));
      var response := server.HandleAccess(leaf, selections);
      assert response.Success?;
      sum := response.value;
    }

    method ClearPathSlots(leaf: nat, selections: seq<nat>, ghost path: seq<nat>)
      requires server.cfg == cfg && Grid(cfg, server.tree) && leaf < NumLeaves(cfg.treeHeight)
      requires path == PathNodes(cfg.treeHeight, leaf) && |selections| == |path| && Within(selections, cfg.Slots())
      modifies server
      ensures Reaches(old(server.tree), path, selections, |path|)
      ensures server.tree == Overwrite(old(server.tree), path, selections, |path|, Zeros(cfg.tlweN))
    {
      hide PathNodes, Overwrite, Grid;
      LeafIsLow(leaf, NumLeaves(cfg.treeHeight));
      var response := server.HandleClearPath(leaf, selections);
      assert response.Success?;
    }

    method ForgetSlots(path: seq<nat>, selections: seq<nat>)
      requires |selections| == |path| && Reaches(idMap, path, selections, |path|)
      modifies this`idMap
      ensures idMap == Overwrite(old(idMap), path, selections, |path|, EMPTY)
    {
      ghost var before := idMap;
      for i := 0 to |path|
        invariant Reaches(before, path, selections, i) && idMap == Overwrite(before, path, selections, i, EMPTY)
      {
        idMap := idMap[path[i] := idMap[path[i]][selections[i] := EMPTY]];
      }
    }

    method DecryptBlock(c: Ciphertext, ghost addr: nat) returns (data: seq<byte>)
      requires SizesOk(cfg, mem) && c == CipherOf(cfg, mem, addr)
      ensures data == Load(mem, addr, cfg.blockSize)
    {
      CipherSize(cfg, mem, addr);
      data := c[..cfg.blockSize];
    }

    method EncryptBlock(data: seq<byte>) returns (c: Ciphertext)
      requires |data| == cfg.blockSize <= cfg.tlweN
      ensures c == Encode(data, cfg.tlweN)
      ensures FirstCoefficients(c, data, cfg.tlweN)
    {
      c := data + Zeros(cfg.tlweN - |data|);
    }

    // ----- writing -----

    method WriteBackSlot(n: nat, slot: nat, c: Ciphertext)
      requires n < |server.tree| && slot < |server.tree[n]|
      modifies server
      ensures server.tree == old(server.tree)[n := old(server.tree)[n][slot := c]]
    {
      var response := server.HandleWriteSlot(n, slot, c);
      assert response.Success?;
    }

    method WriteBucketCiphertexts(n: nat, cells: seq<Ciphertext>)
      requires n < |server.tree| && |cells| == |server.tree[n]|
      modifies server
      ensures server.tree == old(server.tree)[n := cells]
    {
      ghost var before := server.tree;
      for slot := 0 to |cells|
        invariant |server.tree| == |before| && |server.tree[n]| == |cells|
        invariant forall k :: 0 <= k < slot ==> server.tree[n][k] == cells[k]
        invariant server.tree == before[n := server.tree[n]]
      {
        WriteBackSlot(n, slot, cells[slot]);
      }
      assert server.tree[n] == cells;
    }

    /** Puts a block that is nowhere in the tree into an empty slot of the root. */
    method PlaceInRoot(addr: nat, slot: nat, data: seq<byte>, ghost r: Request)
      requires Stored() && addr !in loc && addr < cfg.numBlocks && |idMap| > 0 && slot < |idMap[0]|
      requires idMap[0][slot] == EMPTY
      requires r.addr == addr && data == Answer(mem, r, cfg.blockSize) && |data| == cfg.blockSize
      modifies this`idMap, this`loc, this`mem, server
      ensures Stored() && mem == Store(old(mem), r) && loc == old(loc)[addr := 0]
      ensures idMap == old(idMap)[0 := old(idMap)[0][slot := addr]]
      ensures Members(idMap[0]) == Members(old(idMap)[0]) + {addr}
    {
      hide *;
      RootReady(addr, slot, data, r);
      var updated := EncryptBlock(data);
      WriteBackSlot(0, slot, updated);
      mem, loc := Store(mem, r), loc[addr := 0];
      idMap := idMap[0 := idMap[0][slot := addr]];
      StoredAgain();
    }

    lemma {:induction false} RootReady(addr: nat, slot: nat, data: seq<byte>, r: Request)
      requires Stored() && addr !in loc && addr < cfg.numBlocks && |idMap| > 0 && slot < |idMap[0]|
      requires idMap[0][slot] == EMPTY
      requires r.addr == addr && data == Answer(mem, r, cfg.blockSize) && |data| == cfg.blockSize
      ensures cfg.blockSize <= cfg.tlweN && server.cfg == cfg && SizesOk(cfg, Store(mem, r))
      ensures |server.tree| > 0 && slot < |server.tree[0]|
      ensures Placed(cfg, idMap[0 := idMap[0][slot := addr]], posMap, loc[addr := 0])
      ensures View(cfg, Store(mem, r), idMap[0 := idMap[0][slot := addr]])
           == server.tree[0 := server.tree[0][slot := Encode(data, cfg.tlweN)]]
      ensures Members(idMap[0][slot := addr]) == Members(idMap[0]) + {addr}
    {
      hide Placed, SizesOk, View, Members, Encode, Answer, Store;
      RootFacts(cfg, mem, idMap, posMap, loc, addr, slot, r, data);
    }

    lemma {:induction false} StoredAgain()
      requires server.cfg == cfg && SizesOk(cfg, mem) && Placed(cfg, idMap, posMap, loc)
      requires server.tree == View(cfg, mem, idMap)
      ensures Stored()
    {
      hide Placed, SizesOk, View;
    }

    // ----- pushing one bucket down -----

    method FetchBucketCiphertexts(n: nat) returns (cells: seq<Ciphertext>)
      requires n < |server.tree|
      ensures cells == server.tree[n]
    {
      var response := server.HandleReadBucket(n);
      assert response.Success?;
      cells := response.value;
    }

    /** Splits a bucket's blocks by the next digit of their leaves. */
    method DistributeSource(row: Row, cells: seq<Ciphertext>, shift: nat)
      returns (leftIds: Row, leftCells: seq<Ciphertext>, rightIds: Row, rightCells: seq<Ciphertext>)
      requires Known(row, posMap) && cells == Cells(cfg, mem, row)
      ensures Sharing(cfg, mem, row, posMap, shift, false, |row|, leftIds, leftCells)
      ensures Sharing(cfg, mem, row, posMap, shift, true, |row|, rightIds, rightCells)
    {
      hide *;
      leftIds, leftCells, rightIds, rightCells := [], [], [], [];
      SharingStart(cfg, mem, row, posMap, shift);
      for slot := 0 to |row|
        invariant Sharing(cfg, mem, row, posMap, shift, false, slot, leftIds, leftCells)
        invariant Sharing(cfg, mem, row, posMap, shift, true, slot, rightIds, rightCells)
      {
        SharingNext(cfg, mem, row, posMap, shift, slot, cells, leftIds, leftCells, rightIds, rightCells);
        var id := row[slot];
        if id < 0 { continue; }
        var goesRight := Shr(posMap[id], shift) % 2 != 0;
        if goesRight {
          rightIds := rightIds + [id];
          rightCells := rightCells + [cells[slot]];
        } else {
          leftIds := leftIds + [id];
          leftCells := leftCells + [cells[slot]];
        }
      }
    }

    /** Adds the blocks that the children already hold. */
    method AddOwnBlocks(left: nat, right: nat, leftBucket: seq<Ciphertext>, rightBucket: seq<Ciphertext>,
                        leftShare: Row, leftShareCells: seq<Ciphertext>, rightShare: Row,
                        rightShareCells: seq<Ciphertext>)
      returns (leftIds: Row, leftCells: seq<Ciphertext>, rightIds: Row, rightCells: seq<Ciphertext>)
      requires left < |idMap| && right < |idMap| && |idMap[left]| == |idMap[right]| == cfg.Slots()
      requires leftBucket == Cells(cfg, mem, idMap[left]) && rightBucket == Cells(cfg, mem, idMap[right])
      requires leftShareCells == Cells(cfg, mem, leftShare) && rightShareCells == Cells(cfg, mem, rightShare)
      ensures Owning(cfg, mem, idMap[left], cfg.Slots(), leftShare, leftIds, leftCells)
      ensures Owning(cfg, mem, idMap[right], cfg.Slots(), rightShare, rightIds, rightCells)
    {
      hide *;
      leftIds, leftCells, rightIds, rightCells := leftShare, leftShareCells, rightShare, rightShareCells;
      OwningStart(cfg, mem, idMap[left], leftShare);
      OwningStart(cfg, mem, idMap[right], rightShare);
      for slot := 0 to cfg.Slots()
        invariant Owning(cfg, mem, idMap[left], slot, leftShare, leftIds, leftCells)
        invariant Owning(cfg, mem, idMap[right], slot, rightShare, rightIds, rightCells)
      {
        OwningNext(cfg, mem, idMap[left], slot, leftShare, leftBucket, leftIds, leftCells);
        OwningNext(cfg, mem, idMap[right], slot, rightShare, rightBucket, rightIds, rightCells);
        if idMap[left][slot] >= 0 {
          leftIds := leftIds + [idMap[left][slot]];
          leftCells := leftCells + [leftBucket[slot]];
        }
        if idMap[right][slot] >= 0 {
          rightIds := rightIds + [idMap[right][slot]];
          rightCells := rightCells + [rightBucket[slot]];
        }
      }
    }

    method PadInputs(ids: Row, cells: seq<Ciphertext>) returns (fullIds: Row, fullCells: seq<Ciphertext>)
      requires |ids| <= cfg.Slots() && cells == Cells(cfg, mem, ids)
      ensures fullIds == Padded(ids, cfg.Slots(), EMPTY) && fullCells == Cells(cfg, mem, fullIds)
    {
      EmptyIsZero(cfg, mem);
      hide CipherOf;
      fullIds, fullCells := ids, cells;
      while |fullIds| < cfg.Slots()
        invariant |ids| <= |fullIds| <= cfg.Slots()
        invariant fullIds == Padded(ids, |fullIds|, EMPTY) && fullCells == Cells(cfg, mem, fullIds)
      {
        fullIds := fullIds + [EMPTY];
        fullCells := fullCells + [Zeros(cfg.tlweN)];
      }
    }

    static method Rearrange(cells: seq<Ciphertext>, permutation: seq<nat>) returns (output: seq<Ciphertext>)
      requires Within(permutation, |cells|)
      ensures output == Permuted(cells, permutation)
    {
      output := [];
      for dest := 0 to |permutation|
        invariant |output| == dest && forall d :: 0 <= d < dest ==> output[d] == cells[permutation[d]]
      {
        output := output + [cells[permutation[dest]]];
      }
    }

    static method ApplyPermutationToIds(ids: Row, permutation: seq<nat>) returns (r: Result<Row>)
      ensures r.Success? <==> |ids| == |permutation| && Within(permutation, |ids|)
      ensures r.Failure? ==> r.error == if |ids| != |permutation| then InvalidArgument else OutOfRange
      ensures r.Success? ==> r.value == Permuted<int>(ids, permutation)
    {
      if |ids| != |permutation| { return Failure(InvalidArgument); }
      var result: Row := seq(|ids|, _ => EMPTY);
      for dest := 0 to |permutation|
        invariant |result| == |ids|
        invariant forall d :: 0 <= d < dest ==> permutation[d] < |ids| && result[d] == ids[permutation[d]]
      {
        if permutation[dest] >= |ids| { return Failure(OutOfRange); }
        result := result[dest := ids[permutation[dest]]];
      }
      return Success(result);
    }

    /** Shuffles the padded inputs of one child. */
    method ShuffleChild(ids: Row, cells: seq<Ciphertext>)
      returns (row: Row, output: seq<Ciphertext>, ghost perm: seq<nat>)
      requires |ids| == cfg.Slots() && cells == Cells(cfg, mem, ids)
      ensures Shuffled(ids, perm, row) && |perm| == cfg.Slots() && output == Cells(cfg, mem, row)
    {
      hide CipherOf;
      var permutation := MakePermutation(cfg.Slots());
      output := Rearrange(cells, permutation);
      var applied := ApplyPermutationToIds(ids, permutation);
      assert applied.Success?;
      row, perm := applied.value, permutation;
    }

    /** What goes into the two children of a bucket. */
    method CollectInputs(source: nat, left: nat, right: nat)
      returns (leftIds: Row, leftCells: seq<Ciphertext>, rightIds: Row, rightCells: seq<Ciphertext>)
      requires Stored() && source < |idMap| && left < |idMap| && right < |idMap| && Level(source) < cfg.treeHeight
      ensures Known(idMap[source], posMap)
      ensures leftIds == Inputs(idMap[source], idMap[left], posMap, ShiftAt(cfg.treeHeight, source), false)
      ensures rightIds == Inputs(idMap[source], idMap[right], posMap, ShiftAt(cfg.treeHeight, source), true)
      ensures leftCells == Cells(cfg, mem, leftIds) && rightCells == Cells(cfg, mem, rightIds)
    {
      hide Stored, Level, ShiftAt, Inputs, Cells, Owning, Sharing, Known;
      StoredRows(source, left, right);
      var parentLevel := GetNodeLevel(source);
      var shift := cfg.treeHeight - parentLevel - 1;
      ShiftIs(cfg.treeHeight, source);
      var sourceBucket := FetchBucketCiphertexts(source);
      var leftBucket := FetchBucketCiphertexts(left);
      var rightBucket := FetchBucketCiphertexts(right);
      var leftShare, leftShareCells, rightShare, rightShareCells := DistributeSource(idMap[source], sourceBucket, shift);
      SharingCells(cfg, mem, idMap[source], posMap, shift, false, leftShare, leftShareCells);
      SharingCells(cfg, mem, idMap[source], posMap, shift, true, rightShare, rightShareCells);
      leftIds, leftCells, rightIds, rightCells :=
        AddOwnBlocks(left, right, leftBucket, rightBucket, leftShare, leftShareCells, rightShare, rightShareCells);
      InputsReady(cfg, mem, idMap[source], idMap[left], posMap, shift, false, leftShare, leftShareCells, leftIds, leftCells);
      InputsReady(cfg, mem, idMap[source], idMap[right], posMap, shift, true, rightShare, rightShareCells, rightIds, rightCells);
    }

    lemma {:induction false} StoredRows(source: nat, left: nat, right: nat)
      requires Stored() && source < |idMap| && left < |idMap| && right < |idMap|
      ensures |server.tree| == |idMap| && Known(idMap[source], posMap)
      ensures |idMap[source]| == |idMap[left]| == |idMap[right]| == cfg.Slots()
      ensures server.tree[source] == Cells(cfg, mem, idMap[source])
      ensures server.tree[left] == Cells(cfg, mem, idMap[left]) && server.tree[right] == Cells(cfg, mem, idMap[right])
    {
      hide Cells, Known, Placed;
      RowFacts(cfg, mem, idMap, posMap, loc, source);
      RowFacts(cfg, mem, idMap, posMap, loc, left);
      RowFacts(cfg, mem, idMap, posMap, loc, right);
    }

    /** Pads and shuffles one child's inputs. */
    method FinishChild(inputs: Row, cells: seq<Ciphertext>, ghost source: Row, ghost child: Row, ghost shift: nat,
                       ghost right: bool)
      returns (row: Row, output: seq<Ciphertext>, ghost perm: seq<nat>)
      requires Known(source, posMap) && inputs == Inputs(source, child, posMap, shift, right)
      requires |inputs| <= |child| == cfg.Slots()
      requires cells == Cells(cfg, mem, inputs)
      ensures ChildAfter(source, child, posMap, shift, right, perm, row) && output == Cells(cfg, mem, row)
    {
      hide Cells, Inputs, Permuted, Known;
      var fullIds, fullCells := PadInputs(inputs, cells);
      row, output, perm := ShuffleChild(fullIds, fullCells);
    }

    /** The new children of a bucket; fails exactly if one of them would hold more than its slots. */
    method BuildChildren(source: nat, left: nat, right: nat)
      returns (r: Result<()>, leftRow: Row, leftCells: seq<Ciphertext>, rightRow: Row, rightCells: seq<Ciphertext>,
               ghost leftPerm: seq<nat>, ghost rightPerm: seq<nat>)
      requires Stored() && source < |idMap| && left < |idMap| && right < |idMap| && Level(source) < cfg.treeHeight
      ensures Known(idMap[source], posMap)
      ensures r == if ChildFits(idMap[source], idMap[left], posMap, ShiftAt(cfg.treeHeight, source), false)
                      && ChildFits(idMap[source], idMap[right], posMap, ShiftAt(cfg.treeHeight, source), true)
                   then Success(()) else Failure(RuntimeError)
      ensures r.Success? ==>
                && ChildAfter(idMap[source], idMap[left], posMap, ShiftAt(cfg.treeHeight, source), false, leftPerm, leftRow)
                && ChildAfter(idMap[source], idMap[right], posMap, ShiftAt(cfg.treeHeight, source), true, rightPerm, rightRow)
                && leftCells == Cells(cfg, mem, leftRow) && rightCells == Cells(cfg, mem, rightRow)
    {
      hide Stored, Level, ShiftAt, Inputs, Cells, ChildAfter, Known;
      leftRow, leftCells, rightRow, rightCells, leftPerm, rightPerm := [], [], [], [], [], [];
      StoredRows(source, left, right);
      ghost var shift := ShiftAt(cfg.treeHeight, source);
      var leftIds, leftInputs, rightIds, rightInputs := CollectInputs(source, left, right);
      if |leftIds| > cfg.Slots() || |rightIds| > cfg.Slots() {
        r := Failure(RuntimeError);
        return;
      }
      leftRow, leftCells, leftPerm := FinishChild(leftIds, leftInputs, idMap[source], idMap[left], shift, false);
      rightRow, rightCells, rightPerm := FinishChild(rightIds, rightInputs, idMap[source], idMap[right], shift, true);
      r := Success(());
    }

    /** Moves the blocks of a bucket into its children. Nothing happens if a child would overflow. */
    method TripletEvict(source: nat, left: nat, right: nat)
      returns (r: Result<()>, ghost leftPerm: seq<nat>, ghost rightPerm: seq<nat>)
      requires Stored() && source < |idMap| && Level(source) < cfg.treeHeight
      requires left == 2 * source + 1 && right == 2 * source + 2
      modifies this`idMap, this`loc, server
      ensures Stored() && right < |old(idMap)| && Known(old(idMap)[source], posMap) && loc.Keys == old(loc).Keys
      ensures r == if ChildFits(old(idMap)[source], old(idMap)[left], posMap, ShiftAt(cfg.treeHeight, source), false)
                      && ChildFits(old(idMap)[source], old(idMap)[right], posMap, ShiftAt(cfg.treeHeight, source), true)
                   then Success(()) else Failure(RuntimeError)
      ensures forall a :: a in old(loc) ==> 0 <= a < |posMap|
      ensures r.Success? ==> TripletAfter(cfg.treeHeight, old(idMap), posMap, source, leftPerm, rightPerm, idMap)
      ensures r.Success? ==> loc == Sunk(old(loc), source, posMap, ShiftAt(cfg.treeHeight, source))
      ensures r.Failure? ==> idMap == old(idMap) && server.tree == old(server.tree) && loc == old(loc)
    {
      TripletFacts(cfg, mem, idMap, posMap, loc, source);
      hide *;
      ghost var ids := idMap;
      var leftRow, leftCells, rightRow, rightCells;
      r, leftRow, leftCells, rightRow, rightCells, leftPerm, rightPerm := BuildChildren(source, left, right);
      if r.Failure? { return; }
      StoreChildren(source, left, right, leftRow, leftCells, rightRow, rightCells, leftPerm, rightPerm);
    }

    /** Writes the new children and clears the bucket they came from. */
    method StoreChildren(source: nat, left: nat, right: nat, leftRow: Row, leftCells: seq<Ciphertext>, rightRow: Row,
                         rightCells: seq<Ciphertext>, ghost leftPerm: seq<nat>, ghost rightPerm: seq<nat>)
      requires Stored() && Level(source) < cfg.treeHeight && left == 2 * source + 1 && right == 2 * source + 2
      requires right < |idMap|
      requires ChildAfter(idMap[source], idMap[left], posMap, ShiftAt(cfg.treeHeight, source), false, leftPerm, leftRow)
      requires ChildAfter(idMap[source], idMap[right], posMap, ShiftAt(cfg.treeHeight, source), true, rightPerm, rightRow)
      requires leftCells == Cells(cfg, mem, leftRow) && rightCells == Cells(cfg, mem, rightRow)
      modifies this`idMap, this`loc, server
      ensures Stored() && loc.Keys == old(loc).Keys && forall a :: a in old(loc) ==> 0 <= a < |posMap|
      ensures loc == Sunk(old(loc), source, posMap, ShiftAt(cfg.treeHeight, source))
      ensures TripletAfter(cfg.treeHeight, old(idMap), posMap, source, leftPerm, rightPerm, idMap)
    {
      hide *;
      ghost var rows, tree := StoreFacts(source, leftRow, rightRow, leftPerm, rightPerm);
      WriteTriplet(source, left, right, leftCells, rightCells);
      RecordChildren(source, left, right, leftRow, rightRow, rows);
    }

    method RecordChildren(source: nat, left: nat, right: nat, leftRow: Row, rightRow: Row, ghost rows: seq<Row>)
      requires source < |idMap| && left < |idMap| && right < |idMap| && Level(source) < cfg.treeHeight
      requires rows == idMap[left := leftRow][right := rightRow][source := BlankRow(cfg)]
      requires forall a :: a in loc ==> 0 <= a < |posMap|
      requires Placed(cfg, rows, posMap, Sunk(loc, source, posMap, ShiftAt(cfg.treeHeight, source)))
      requires server.tree == View(cfg, mem, rows) && server.cfg == cfg && SizesOk(cfg, mem)
      modifies this`idMap, this`loc
      ensures Stored() && idMap == rows && loc == Sunk(old(loc), source, posMap, ShiftAt(cfg.treeHeight, source))
    {
      hide Placed, SizesOk, View, Sunk, BlankRow, Level, ShiftAt;
      loc := Sunk(loc, source, posMap, ShiftAt(cfg.treeHeight, source));
      idMap := idMap[left := leftRow][right := rightRow][source := BlankRow(cfg)];
    }

    lemma {:induction false} StoreFacts(source: nat, leftRow: Row, rightRow: Row, leftPerm: seq<nat>,
                                        rightPerm: seq<nat>)
      returns (rows: seq<Row>, tree: seq<seq<Ciphertext>>)
      requires Stored() && Level(source) < cfg.treeHeight && 2 * source + 2 < |idMap|
      requires ChildAfter(idMap[source], idMap[2 * source + 1], posMap, ShiftAt(cfg.treeHeight, source), false, leftPerm, leftRow)
      requires ChildAfter(idMap[source], idMap[2 * source + 2], posMap, ShiftAt(cfg.treeHeight, source), true, rightPerm, rightRow)
      ensures rows == idMap[2 * source + 1 := leftRow][2 * source + 2 := rightRow][source := BlankRow(cfg)]
      ensures |server.tree| == |idMap|
      ensures tree == server.tree[2 * source + 1 := Cells(cfg, mem, leftRow)][2 * source + 2 := Cells(cfg, mem, rightRow)]
                        [source := BlankBucket(cfg)]
      ensures TripletAfter(cfg.treeHeight, idMap, posMap, source, leftPerm, rightPerm, rows)
      ensures forall a :: a in loc ==> 0 <= a < |posMap|
      ensures Placed(cfg, rows, posMap, Sunk(loc, source, posMap, ShiftAt(cfg.treeHeight, source)))
      ensures Sunk(loc, source, posMap, ShiftAt(cfg.treeHeight, source)).Keys == loc.Keys
      ensures tree == View(cfg, mem, rows)
      ensures |Cells(cfg, mem, leftRow)| == |Cells(cfg, mem, rightRow)| == cfg.Slots()
      ensures Uniform(cfg, server.tree) && server.cfg == cfg && SizesOk(cfg, mem)
    {
      hide Placed, SizesOk, TripletAfter, ChildAfter, Cells, View, Sunk, BlankBucket;
      TripletResult(cfg, mem, idMap, posMap, loc, source, leftRow, rightRow, leftPerm, rightPerm);
      TripletFacts(cfg, mem, idMap, posMap, loc, source);
      rows := idMap[2 * source + 1 := leftRow][2 * source + 2 := rightRow][source := BlankRow(cfg)];
      tree := View(cfg, mem, rows);
    }

    method WriteTriplet(source: nat, left: nat, right: nat, leftCells: seq<Ciphertext>, rightCells: seq<Ciphertext>)
      requires source < left < right < |server.tree| && |leftCells| == |rightCells| == cfg.Slots()
      requires Uniform(cfg, server.tree)
      modifies server
      ensures server.tree == old(server.tree)[left := leftCells][right := rightCells][source := BlankBucket(cfg)]
    {
      hide BlankBucket;
      WriteBucketCiphertexts(left, leftCells);
      WriteBucketCiphertexts(right, rightCells);
      var cleared := ClearedBucket();
      WriteBucketCiphertexts(source, cleared);
    }

    method ClearedBucket() returns (cleared: seq<Ciphertext>)
      ensures cleared == BlankBucket(cfg)
    {
      cleared := [];
      for slot := 0 to cfg.Slots()
        invariant |cleared| == slot && forall k :: 0 <= k < slot ==> cleared[k] == Zeros(cfg.tlweN)
      {
        cleared := cleared + [Zeros(cfg.tlweN)];
      }
    }

    // ----- evictions -----

    /** Pushes the blocks of the next path in bit-reversed order down, each as far as that path and its own
        agree and one level further, and refreshes the leaf bucket. Above the leaf the path is empty
        afterwards. Fails exactly if one of the steps brings more blocks into a bucket than it has slots. */
    method Evict() returns (r: Result<()>)
      requires Stored() && Scheduled(cfg.a)
      modifies this`idMap, this`loc, this`evictionCounter, server
      ensures evictionCounter == old(evictionCounter) + 1
      ensures PosOk(cfg, posMap) && Homed(cfg, posMap, old(loc))
      ensures r.Success? <==> EvictionFits(cfg, old(loc), posMap, old(evictionCounter))
      ensures r.Failure? ==> r.error == RuntimeError
      ensures r.Success? ==> Stored() && Scheduled(0)
      ensures r.Success? ==> loc == Descended(cfg, old(loc), posMap, old(evictionCounter), cfg.treeHeight)
      ensures r.Success? ==> loc.Keys == old(loc).Keys
      ensures r.Success? ==> PathEmptied(cfg.treeHeight, old(evictionCounter), idMap)
    {
      hide *;
      ghost var t, start := evictionCounter, loc;
      PushStart(t);
      var evictionLeaf := NextLeaf();
      evictionCounter := evictionCounter + 1;
      var path := GetPathTopDown(cfg.treeHeight, evictionLeaf);
      var pushed := PushDownPath(path, t);
      if pushed.Failure? { return pushed; }
      PushEnd(t, start);
      RefreshLastBucket(path, t);
      return Success(());
    }

    method RefreshLastBucket(path: seq<nat>, ghost t: nat)
      requires Stored() && Scheduled(0) && PathEmptied(cfg.treeHeight, t, idMap)
      requires path == PathNodes(cfg.treeHeight, EvictionLeaf(cfg.treeHeight, t))
      modifies this`idMap, server
      ensures Stored() && Scheduled(0) && PathEmptied(cfg.treeHeight, t, idMap)
    {
      hide Stored, OnSchedule, PathEmptied, PathNodes, NodeAt, LeafBucket, Shuffled;
      ghost var ids := idMap;
      LastBucket(path, t);
      LeafRefresh(path[|path| - 1]);
      RefreshKeeps(cfg, evictionCounter, t, ids, idMap, path[|path| - 1]);
    }

    lemma {:induction false} LastBucket(path: seq<nat>, t: nat)
      requires Stored() && path == PathNodes(cfg.treeHeight, EvictionLeaf(cfg.treeHeight, t))
      ensures |path| > 0 && path[|path| - 1] < |idMap| && LeafBucket(cfg.treeHeight, path[|path| - 1])
    {
      hide NodeAt, Level, SizesOk, View;
      var leaf := EvictionLeaf(cfg.treeHeight, t);
      NodeAtRange(cfg.treeHeight, leaf, cfg.treeHeight);
      ParentOnPath(cfg.treeHeight, leaf, cfg.treeHeight);
    }

    method NextLeaf() returns (leaf: nat)
      ensures leaf == EvictionLeaf(cfg.treeHeight, evictionCounter)
    {
      leaf := ReverseBits(evictionCounter % NumLeaves(cfg.treeHeight), cfg.treeHeight);
    }

    /** Eviction t after the buckets of the first d levels. */
    ghost predicate Pushing(t: nat, d: nat, start: map<int, int>)
      reads this`posMap, this`idMap, this`mem, this`loc, server`tree
    {
      && Stored() && RestedMid(cfg.treeHeight, t, d, idMap)
      && PosOk(cfg, posMap) && Homed(cfg, posMap, start) && d <= cfg.treeHeight
      && loc == Descended(cfg, start, posMap, t, d)
      && (cfg.a > 0 ==> LoadsMid(cfg.treeHeight, cfg.a, t, d, idMap))
    }

    method PushDownPath(path: seq<nat>, ghost t: nat) returns (r: Result<()>)
      requires Pushing(t, 0, loc) && path == PathNodes(cfg.treeHeight, EvictionLeaf(cfg.treeHeight, t))
      modifies this`idMap, this`loc, server
      ensures PosOk(cfg, posMap) && Homed(cfg, posMap, old(loc))
      ensures r.Success? <==> EvictionFits(cfg, old(loc), posMap, t)
      ensures r.Failure? ==> r.error == RuntimeError
      ensures r.Success? ==> Pushing(t, cfg.treeHeight, old(loc))
    {
      hide Stored, RestedMid, LoadsMid, PosOk, Homed, Descended, StepFits, NodeAt, EvictionLeaf;
      ghost var start := loc;
      for depth := 0 to |path| - 1
        invariant Pushing(t, depth, start) && PosOk(cfg, posMap) && Homed(cfg, posMap, start)
        invariant forall d: nat :: d < depth ==> StepFits(cfg, start, posMap, t, d)
      {
        hide *;
        var pushed := PushOne(path[depth], t, depth, start);
        if pushed.Failure? { return pushed; }
      }
      return Success(());
    }

    method PushOne(source: nat, ghost t: nat, ghost depth: nat, ghost start: map<int, int>) returns (r: Result<()>)
      requires Pushing(t, depth, start) && depth < cfg.treeHeight
      requires source == NodeAt(cfg.treeHeight, EvictionLeaf(cfg.treeHeight, t), depth)
      modifies this`idMap, this`loc, server
      ensures PosOk(cfg, posMap) && Homed(cfg, posMap, start)
      ensures r.Success? <==> StepFits(cfg, start, posMap, t, depth)
      ensures r.Failure? ==> r.error == RuntimeError
      ensures r.Success? ==> Pushing(t, depth + 1, start)
    {
      hide *;
      ghost var ids, places := idMap, loc;
      PushFacts(source, t, depth, start);
      ghost var leftPerm, rightPerm;
      r, leftPerm, rightPerm := TripletEvict(source, 2 * source + 1, 2 * source + 2);
      if r.Failure? { return; }
      PushStep(ids, places, source, t, depth, start, leftPerm, rightPerm);
    }

    lemma {:induction false} PushFacts(source: nat, t: nat, depth: nat, start: map<int, int>)
      requires Pushing(t, depth, start) && depth < cfg.treeHeight
      requires source == NodeAt(cfg.treeHeight, EvictionLeaf(cfg.treeHeight, t), depth)
      ensures Stored() && Placed(cfg, idMap, posMap, loc) && PosOk(cfg, posMap) && Homed(cfg, posMap, start)
      ensures loc == Descended(cfg, start, posMap, t, depth)
      ensures 2 * source + 2 < |idMap| && Level(source) == depth && Visited(cfg.treeHeight, t, source)
      ensures RestedMid(cfg.treeHeight, t, depth, idMap)
      ensures cfg.a > 0 ==> LoadsMid(cfg.treeHeight, cfg.a, t, depth, idMap)
      ensures Known(idMap[source], posMap)
      ensures StepFits(cfg, start, posMap, t, depth) <==>
                && ChildFits(idMap[source], idMap[2 * source + 1], posMap, ShiftAt(cfg.treeHeight, source), false)
                && ChildFits(idMap[source], idMap[2 * source + 2], posMap, ShiftAt(cfg.treeHeight, source), true)
    {
      hide RestedMid, LoadsMid, NodeAt, ChildFits, Level, View, SizesOk, StepFits;
      NodeAtRange(cfg.treeHeight, EvictionLeaf(cfg.treeHeight, t), depth);
      StepFitsIs(cfg, idMap, posMap, loc, start, t, depth);
    }

    lemma {:induction false} PushStep(ids: seq<Row>, places: map<int, int>, source: nat, t: nat, depth: nat,
                                      start: map<int, int>, leftPerm: seq<nat>, rightPerm: seq<nat>)
      requires Level(source) == depth < cfg.treeHeight
      requires Stored() && Placed(cfg, ids, posMap, places) && PosOk(cfg, posMap) && Homed(cfg, posMap, start)
      requires source == NodeAt(cfg.treeHeight, EvictionLeaf(cfg.treeHeight, t), depth)
      requires places == Descended(cfg, start, posMap, t, depth) && forall a :: a in places ==> 0 <= a < |posMap|
      requires loc == Sunk(places, source, posMap, ShiftAt(cfg.treeHeight, source))
      requires Visited(cfg.treeHeight, t, source) && RestedMid(cfg.treeHeight, t, depth, ids)
      requires cfg.a > 0 ==> LoadsMid(cfg.treeHeight, cfg.a, t, depth, ids)
      requires TripletAfter(cfg.treeHeight, ids, posMap, source, leftPerm, rightPerm, idMap)
      ensures Pushing(t, depth + 1, start)
    {
      hide RestedMid, LoadsMid, Stored, Placed, TripletAfter, Visited, Level, Sunk, Descended, Homed, PosOk, NodeAt;
      DescendStep(cfg, start, posMap, t, depth);
      MidStep(cfg, t, ids, posMap, source, leftPerm, rightPerm, idMap);
      if cfg.a > 0 {
        LoadsStep(cfg, cfg.a, t, ids, posMap, places, source, leftPerm, rightPerm, idMap);
      }
    }

    lemma {:induction false} PushStart(t: nat)
      requires Stored() && Scheduled(cfg.a) && t == evictionCounter
      ensures Pushing(t, 0, loc) && PosOk(cfg, posMap) && Homed(cfg, posMap, loc)
    {
      DescendStart(cfg, loc, posMap, t);
      hide RestedEmpty, LoadsOk, RestedMid, LoadsMid, SizesOk, View, Members;
      MidStart(cfg.treeHeight, t, idMap);
      if cfg.a > 0 { LoadsStart(cfg.treeHeight, cfg.a, t, idMap); }
    }

    lemma {:induction false} PushEnd(t: nat, start: map<int, int>)
      requires Pushing(t, cfg.treeHeight, start) && evictionCounter == t + 1
      ensures Stored() && Scheduled(0) && PathEmptied(cfg.treeHeight, t, idMap)
      ensures PosOk(cfg, posMap) && Homed(cfg, posMap, start)
      ensures loc == Descended(cfg, start, posMap, t, cfg.treeHeight) && loc.Keys == start.Keys
    {
      hide RestedMid, RestedEmpty, LoadsMid, LoadsOk, Visited, Blank, Level, SizesOk, View, Placed;
      MidEnd(cfg.treeHeight, t, idMap);
      if cfg.a > 0 { LoadsEnd(cfg.treeHeight, cfg.a, t, idMap); }
      PlacedSize(cfg, idMap, posMap, loc);
      if cfg.treeHeight > 0 { RootEmptied(cfg.treeHeight, t, idMap); }
    }

    /** Encrypts a bucket afresh and shuffles it. */
    method LeafRefresh(n: nat)
      requires Stored() && n < |idMap|
      modifies this`idMap, server
      ensures Stored()
      ensures exists perm :: Shuffled(old(idMap)[n], perm, idMap[n]) && idMap == old(idMap)[n := idMap[n]]
    {
      RowFacts(cfg, mem, idMap, posMap, loc, n);
      hide *;
      ghost var ids := idMap;
      var bucket := FetchBucketCiphertexts(n);
      var refreshed := Reencrypt(bucket, idMap[n]);
      var row, output, perm := ShuffleChild(idMap[n], refreshed);
      RefreshedPlaced(cfg, mem, idMap, posMap, loc, n, perm, row);
      WriteBucketCiphertexts(n, output);
      idMap := idMap[n := row];
    }

    /** Decrypting and encrypting again changes no plaintext. */
    method Reencrypt(bucket: seq<Ciphertext>, ghost row: Row) returns (refreshed: seq<Ciphertext>)
      requires SizesOk(cfg, mem) && bucket == Cells(cfg, mem, row)
      ensures refreshed == bucket
    {
      refreshed := [];
      for slot := 0 to |bucket|
        invariant refreshed == bucket[..slot]
      {
        hide CipherOf, SizesOk, Encode;
        SameAgain(cfg, mem, row[slot]);
        var plaintext := bucket[slot][..cfg.blockSize];
        var again := EncryptBlock(plaintext);
        refreshed := refreshed + [again];
      }
      assert bucket[..|bucket|] == bucket;
    }

    // ----- accesses -----

    /** Serves one request. It fails on bad arguments, when a bucket of the path has neither the block nor an
        empty slot, and when an eviction is due and does not fit; in no other case. An access that does not
        fail answers like a plain memory. The root always has room for the block, so there is an eviction every
        a accesses and no other one. */
    method Access(op: Op, addr: nat, data: seq<byte>) returns (r: Result<seq<byte>>)
      requires Valid()
      modifies this, server
      ensures addr >= cfg.numBlocks ==> r == Failure(OutOfRange) && unchanged(this) && unchanged(server)
      ensures addr < cfg.numBlocks && op == WRITE && |data| != cfg.blockSize ==>
                r == Failure(InvalidArgument) && unchanged(this) && unchanged(server)
      ensures Acceptable(cfg, op, addr, data) ==> Remapped(old(posMap), addr) && PlacesOk(cfg, old(Where()))
      ensures Acceptable(cfg, op, addr, data) ==>
                && (r.Success? <==> HasRoom(cfg, old(Where()), addr, posMap[addr]))
                && (r.Failure? ==> r.error == RuntimeError)
                && (cfg.numBlocks <= cfg.Slots() ==> r.Success?)
      ensures r.Success? ==>
                && Valid()
                && r.value == Answer(old(mem), Request(op, addr, data), cfg.blockSize)
                && mem == Store(old(mem), Request(op, addr, data))
                && Where() == Accessed(cfg, old(Where()), addr, posMap[addr])
                && evictionCounter == old(evictionCounter) + (if EvictionDue(cfg, accessCount) then 1 else 0)
    {
      hide Valid, HasRoom, Accessed, PlacesOk, Answer, Store;
      if addr >= cfg.numBlocks { return Failure(OutOfRange); }
      if op == WRITE && |data| != cfg.blockSize { return Failure(InvalidArgument); }
      r := Serve(op, addr, data);
    }

    method Serve(op: Op, addr: nat, data: seq<byte>) returns (r: Result<seq<byte>>)
      requires Valid() && Acceptable(cfg, op, addr, data)
      modifies this, server
      ensures Remapped(old(posMap), addr) && PlacesOk(cfg, old(Where()))
      ensures r.Success? <==> HasRoom(cfg, old(Where()), addr, posMap[addr])
      ensures r.Failure? ==> r.error == RuntimeError
      ensures cfg.numBlocks <= cfg.Slots() ==> r.Success?
      ensures r.Success? ==>
                && Valid()
                && r.value == Answer(old(mem), Request(op, addr, data), cfg.blockSize)
                && mem == Store(old(mem), Request(op, addr, data))
                && Where() == Accessed(cfg, old(Where()), addr, posMap[addr])
                && evictionCounter == old(evictionCounter) + (if EvictionDue(cfg, accessCount) then 1 else 0)
    {
      hide Stored, Scheduled, RootLoad, Store, Answer, Load, EvictionDue, HasRoom, Accessed, Readable, EvictionFits,
        Descended, PlacesOk, PosOk, Homed, Remapped, Without, CanRead;
      ghost var load, request, p := RootLoad(cfg, accessCount), Request(op, addr, data), Where();
      RootLoadBelow(cfg, accessCount);
      var fetched := MoveToNewLeaf(addr);
      ServeFacts(p, addr);
      if fetched.Failure? { return fetched; }
      var result := fetched.value;
      if op == WRITE { result := data; }
      ResultIsAnswer(request, fetched.value, result);
      WriteToRoot(addr, result, request, load);
      accessCount := accessCount + 1;
      var done := EvictIfDue(load);
      if done.Failure? { return Failure(done.error); }
      StillComplete(old(mem), old(loc), request);
      return Success(result);
    }

    /** What the new leaf means for the outcome. */
    lemma {:induction false} ServeFacts(p: Places, addr: nat)
      requires PlacesOk(cfg, p) && addr < cfg.numBlocks && Remapped(p.pos, addr)
      ensures PosOk(cfg, posMap) && Homed(cfg, posMap, p.loc[addr := 0])
      ensures (p.loc - {addr})[addr := 0] == p.loc[addr := 0]
      ensures HasRoom(cfg, p, addr, posMap[addr]) <==>
                && Readable(cfg, p.loc, p.pos[addr], addr)
                && (EvictionDue(cfg, p.accesses + 1) ==> EvictionFits(cfg, p.loc[addr := 0], posMap, p.evictions))
      ensures Accessed(cfg, p, addr, posMap[addr])
           == if EvictionDue(cfg, p.accesses + 1)
              then Places(posMap, Descended(cfg, p.loc[addr := 0], posMap, p.evictions, cfg.treeHeight), p.accesses + 1,
                          p.evictions + 1)
              else Places(posMap, p.loc[addr := 0], p.accesses + 1, p.evictions)
      ensures cfg.numBlocks <= cfg.Slots() ==> HasRoom(cfg, p, addr, posMap[addr])
    {
      hide Readable, EvictionFits, EvictionDue, Descended, PosOk, Homed, NumLeaves;
      var q := Fetched(cfg, p, addr, posMap[addr]);
      assert PlacesOk(cfg, q);
      if cfg.numBlocks <= cfg.Slots() { RoomForAll(cfg, p, addr, posMap[addr]); }
    }

    lemma {:induction false} StillComplete(before: Memory, places: map<int, int>, request: Request)
      requires forall a :: a in before ==> a in places
      requires mem == Store(before, request) && loc.Keys == places.Keys - {request.addr} + {request.addr}
      ensures Complete()
    {
    }

    lemma {:induction false} ResultIsAnswer(request: Request, fetched: seq<byte>, result: seq<byte>)
      requires Stored() && fetched == Load(mem, request.addr, cfg.blockSize)
      requires result == if request.op == WRITE then request.data else fetched
      requires request.op == WRITE ==> |request.data| == cfg.blockSize
      ensures result == Answer(mem, request, cfg.blockSize) && |result| == cfg.blockSize
    {
      hide Placed, View;
    }

    /** Gives the block a new leaf and takes it off its old path. The leaf changes even if this fails. */
    method MoveToNewLeaf(addr: nat) returns (r: Result<seq<byte>>)
      requires Valid() && addr < cfg.numBlocks
      modifies this`posMap, this`idMap, this`loc, server
      ensures Remapped(old(posMap), addr) && PlacesOk(cfg, old(Where()))
      ensures r.Success? <==> CanRead(cfg.treeHeight, old(idMap), old(posMap)[addr], addr)
      ensures r.Success? <==> Readable(cfg, old(loc), old(posMap)[addr], addr)
      ensures r.Failure? ==> r.error == RuntimeError
      ensures r.Success? ==>
                && Stored() && Scheduled(RootLoad(cfg, accessCount)) && addr !in loc && loc == old(loc) - {addr}
                && r.value == Load(mem, addr, cfg.blockSize) && 0 < |idMap| == |old(idMap)|
                && idMap[0] == Without(old(idMap)[0], addr) && EMPTY in idMap[0]
    {
      hide *;
      MoveFacts(addr);
      ghost var ids, pos, places := idMap, posMap, loc;
      var oldLeaf := posMap[addr];
      var newLeaf := GetRandomLeaf(cfg.treeHeight);
      posMap := posMap[addr := newLeaf];
      RemappedIs(pos, addr, newLeaf);
      var path := GetPathTopDown(cfg.treeHeight, oldLeaf);
      var selections := SelectSlots(path, addr);
      if selections.Failure? { return Failure(selections.error); }
      var data := FetchAndClear(oldLeaf, addr, path, selections.value, pos);
      Moved(ids, pos, places, addr, newLeaf);
      return Success(data);
    }

    lemma {:induction false} RemappedIs(before: seq<nat>, addr: nat, leaf: nat)
      requires addr < |before| && leaf < NumLeaves(cfg.treeHeight) && posMap == before[addr := leaf]
      ensures Remapped(before, addr)
    {
      hide NumLeaves;
    }

    lemma {:induction false} MoveFacts(addr: nat)
      requires Valid() && addr < cfg.numBlocks
      ensures StoredWith(posMap) && addr < |posMap| && posMap[addr] < NumLeaves(cfg.treeHeight)
      ensures PlacesOk(cfg, Where())
      ensures Placed(cfg, idMap, posMap, loc) && OnSchedule(cfg, evictionCounter, idMap, RootLoad(cfg, accessCount))
      ensures addr in mem ==> addr in loc
      ensures SizesOk(cfg, mem) && PathIn(idMap, PathNodes(cfg.treeHeight, posMap[addr])) && |idMap| > 0
      ensures CanRead(cfg.treeHeight, idMap, posMap[addr], addr) <==> PathOpen(idMap, PathNodes(cfg.treeHeight, posMap[addr]), addr)
      ensures CanRead(cfg.treeHeight, idMap, posMap[addr], addr) <==> Readable(cfg, loc, posMap[addr], addr)
      ensures CanRead(cfg.treeHeight, idMap, posMap[addr], addr) ==> EMPTY in Without(idMap[0], addr)
    {
      hide OnSchedule, RowOk, Indexed, Homed, SizesOk, View, PathNodes, PathOpen, Readable, Without;
      PathDistinct(cfg.treeHeight, posMap[addr]);
      ReadableIs(cfg, idMap, posMap, loc, posMap[addr], addr);
      if CanRead(cfg.treeHeight, idMap, posMap[addr], addr) { RootOpens(cfg.treeHeight, idMap, posMap[addr], addr); }
    }

    lemma {:induction false} Moved(ids: seq<Row>, pos: seq<nat>, places: map<int, int>, addr: nat, newLeaf: nat)
      requires Placed(cfg, ids, pos, places) && addr < |pos| && newLeaf < NumLeaves(cfg.treeHeight)
      requires OnSchedule(cfg, evictionCounter, ids, RootLoad(cfg, accessCount))
      requires idMap == Dropped(ids, addr) && loc == places - {addr} && posMap == pos[addr := newLeaf]
      requires server.cfg == cfg && SizesOk(cfg, mem) && server.tree == View(cfg, mem, idMap)
      ensures Stored() && Scheduled(RootLoad(cfg, accessCount)) && addr !in loc
      ensures |idMap| == |ids| > 0 && idMap[0] == Without(ids[0], addr)
    {
      PlacedSize(cfg, ids, pos, places);
      PosSize(cfg, ids, pos, places);
      hide Placed, OnSchedule, SizesOk, View, Without;
      DroppedPlaced(cfg, ids, pos, places, addr, newLeaf);
      DroppedOnSchedule(cfg, evictionCounter, ids, pos, places, addr, RootLoad(cfg, accessCount));
    }

    /** An empty slot of the root; a full root is evicted first. Fails exactly if the root is full and that
        eviction does not fit, or the root has no slots, or it is the whole tree. */
    method FindRootSlot(addr: nat, ghost load: nat) returns (r: Result<nat>)
      requires Stored() && Scheduled(load) && (cfg.a > 0 ==> load <= cfg.a) && addr !in loc && addr < cfg.numBlocks
      requires |idMap| > 0
      modifies this`idMap, this`loc, this`evictionCounter, server
      ensures PosOk(cfg, posMap) && Homed(cfg, posMap, old(loc))
      ensures r.Success? <==>
                || EMPTY in old(idMap)[0]
                || (cfg.treeHeight > 0 && cfg.Slots() > 0 && EvictionFits(cfg, old(loc), posMap, old(evictionCounter)))
      ensures r.Failure? ==> r.error == RuntimeError
      ensures EMPTY in old(idMap)[0] ==> idMap == old(idMap) && loc == old(loc) && evictionCounter == old(evictionCounter)
      ensures r.Success? && EMPTY !in old(idMap)[0] ==>
                && loc == Descended(cfg, old(loc), posMap, old(evictionCounter), cfg.treeHeight)
                && evictionCounter == old(evictionCounter) + 1
      ensures r.Success? ==>
                && Stored() && Scheduled(load) && |idMap| > 0
                && r.value < |idMap[0]| && idMap[0][r.value] == EMPTY
    {
      hide *;
      RootFree(addr, load);
      ghost var ids, start, t := idMap, loc, evictionCounter;
      var rootSlot := FindSlot(0, addr);
      if rootSlot == |idMap[0]| {
        rootSlot := FindFirstDummySlot(0);
      }
      if rootSlot == |idMap[0]| {
        var evicted := Evict();
        if evicted.Failure? { return Failure(evicted.error); }
        AfterEviction(load, ids, start, t);
        rootSlot := FindFirstDummySlot(0);
      }
      if rootSlot == |idMap[0]| {
        return Failure(RuntimeError);
      }
      return Success(rootSlot);
    }

    lemma {:induction false} RootFree(addr: nat, load: nat)
      requires Stored() && Scheduled(load) && (cfg.a > 0 ==> load <= cfg.a) && addr !in loc && addr < cfg.numBlocks
      requires |idMap| > 0
      ensures addr !in idMap[0] && Scheduled(cfg.a) && Placed(cfg, idMap, posMap, loc)
      ensures PosOk(cfg, posMap) && Homed(cfg, posMap, loc)
    {
      hide View, SizesOk, RestedEmpty, LoadsOk, Members, Homed, OnSchedule;
      Absent(cfg, idMap, posMap, loc, addr);
      LoadWeakens(cfg, evictionCounter, idMap, load, cfg.a);
    }

    /** What evicting a full root achieves. */
    lemma {:induction false} AfterEviction(load: nat, ids: seq<Row>, start: map<int, int>, t: nat)
      requires Stored() && Scheduled(0) && PathEmptied(cfg.treeHeight, t, idMap)
      requires Placed(cfg, ids, posMap, start) && |ids| > 0 && EMPTY !in ids[0]
      requires PosOk(cfg, posMap) && Homed(cfg, posMap, start)
      requires loc == Descended(cfg, start, posMap, t, cfg.treeHeight)
      ensures |idMap| > 0 && Scheduled(load)
      ensures EMPTY in idMap[0] <==> cfg.treeHeight > 0 && cfg.Slots() > 0
    {
      hide View, SizesOk, Homed, Indexed, Descended, OnSchedule, PathEmptied, Held, Members;
      PlacedSize(cfg, idMap, posMap, loc);
      LoadWeakens(cfg, evictionCounter, idMap, 0, load);
      RoomInBucket(cfg, idMap, posMap, loc, 0);
      if cfg.treeHeight > 0 {
        RootEmptied(cfg.treeHeight, t, idMap);
        HeldIsMembers(cfg, idMap, posMap, loc, 0);
      } else {
        RoomInBucket(cfg, ids, posMap, start, 0);
        DescendStart(cfg, start, posMap, t);
      }
    }

    /** Stores the block's data in the root, which has an empty slot: no eviction is forced. */
    method WriteToRoot(addr: nat, data: seq<byte>, ghost r: Request, ghost load: nat)
      requires Stored() && Scheduled(load) && (cfg.a > 0 ==> load <= cfg.a) && addr !in loc && addr < cfg.numBlocks
      requires |idMap| > 0 && EMPTY in idMap[0]
      requires r.addr == addr && data == Answer(mem, r, cfg.blockSize) && |data| == cfg.blockSize
      modifies this`idMap, this`loc, this`mem, this`evictionCounter, server
      ensures Stored() && Scheduled(load + 1) && mem == Store(old(mem), r) && loc == old(loc)[addr := 0]
      ensures evictionCounter == old(evictionCounter)
    {
      hide Stored, OnSchedule, Store, Answer, Members, PosOk, Homed, Descended, EvictionFits;
      var rootSlot := FindRootSlot(addr, load);
      assert rootSlot.Success?;
      ghost var ids := idMap;
      PlaceInRoot(addr, rootSlot.value, data, r);
      RootInserted(ids, load, addr);
    }

    /** The regular eviction. */
    method EvictIfDue(ghost load: nat) returns (r: Result<()>)
      requires Stored() && Scheduled(load + 1) && accessCount > 0 && load == RootLoad(cfg, accessCount - 1)
      modifies this`idMap, this`loc, this`evictionCounter, server
      ensures PosOk(cfg, posMap) && Homed(cfg, posMap, old(loc))
      ensures r.Success? <==>
                (EvictionDue(cfg, accessCount) ==> EvictionFits(cfg, old(loc), posMap, old(evictionCounter)))
      ensures r.Failure? ==> r.error == RuntimeError
      ensures evictionCounter == old(evictionCounter) + if EvictionDue(cfg, accessCount) then 1 else 0
      ensures r.Success? ==> Stored() && Scheduled(RootLoad(cfg, accessCount)) && loc.Keys == old(loc).Keys
      ensures r.Success? ==>
                loc == if EvictionDue(cfg, accessCount)
                       then Descended(cfg, old(loc), posMap, old(evictionCounter), cfg.treeHeight) else old(loc)
    {
      hide *;
      WhetherDue(load);
      StoredHomed();
      if cfg.a != 0 && accessCount % cfg.a == 0 {
        r := Evict();
        return;
      }
      return Success(());
    }

    lemma {:induction false} StoredHomed()
      requires Stored()
      ensures PosOk(cfg, posMap) && Homed(cfg, posMap, loc)
    {
      hide RowsOk, Indexed, View;
    }

    lemma {:induction false} WhetherDue(load: nat)
      requires Scheduled(load + 1) && accessCount > 0 && load == RootLoad(cfg, accessCount - 1)
      ensures EvictionDue(cfg, accessCount) <==> cfg.a != 0 && accessCount % cfg.a == 0
      ensures EvictionDue(cfg, accessCount) ==> Scheduled(cfg.a) && RootLoad(cfg, accessCount) == 0
      ensures !EvictionDue(cfg, accessCount) ==> Scheduled(RootLoad(cfg, accessCount))
    {
      hide OnSchedule;
      LoadAfter(cfg, accessCount, evictionCounter, idMap);
    }

    lemma {:induction false} RootInserted(ids: seq<Row>, load: nat, addr: nat)
      requires |ids| > 0 && OnSchedule(cfg, evictionCounter, ids, load)
      requires |idMap| == |ids| && idMap == ids[0 := idMap[0]] && Members(idMap[0]) == Members(ids[0]) + {addr}
      ensures Scheduled(load + 1)
    {
      hide OnSchedule, Members;
      InsertedOnSchedule(cfg, evictionCounter, ids, idMap, load, addr);
    }

    method Read(addr: nat) returns (r: Result<seq<byte>>)
      requires Valid()
      modifies this, server
      ensures r.Success? ==> Valid() && mem == old(mem) && r.value == Load(mem, addr, cfg.blockSize)
      ensures addr < cfg.numBlocks ==> Remapped(old(posMap), addr) && PlacesOk(cfg, old(Where()))
      ensures r.Success? <==> addr < cfg.numBlocks && HasRoom(cfg, old(Where()), addr, posMap[addr])
    {
      hide HasRoom, Accessed, PlacesOk, EvictionDue, Valid;
      r := Access(READ, addr, []);
    }

    method Write(addr: nat, data: seq<byte>) returns (r: Result<seq<byte>>)
      requires Valid()
      modifies this, server
      ensures r.Success? ==> Valid() && mem == old(mem)[addr := data]
      ensures addr < cfg.numBlocks && |data| == cfg.blockSize ==>
                Remapped(old(posMap), addr) && PlacesOk(cfg, old(Where()))
      ensures r.Success? <==>
                addr < cfg.numBlocks && |data| == cfg.blockSize && HasRoom(cfg, old(Where()), addr, posMap[addr])
    {
      hide HasRoom, Accessed, PlacesOk, EvictionDue, Valid;
      r := Access(WRITE, addr, data);
    }
  }

  /** A run that has served as many requests as leaves were drawn. */
  ghost predicate Running(client: OnionRingClient, requests: seq<Request>, answers: seq<seq<byte>>, leaves: seq<nat>,
                          mem: Memory, p: Places)
    reads client, client.server
  {
    && client.Valid() && AllAcceptable(client.cfg, requests)
    && RunInRange(client.cfg, requests, leaves) && PlacesOk(client.cfg, p)
    && RunHasRoom(client.cfg, p, requests, leaves) && client.Where() == PlacesAfter(client.cfg, p, requests, leaves)
    && client.mem == After(mem, requests[..|leaves|])
    && answers == Answers(mem, requests[..|leaves|], client.cfg.blockSize)
  }

  method RunOne(client: OnionRingClient, requests: seq<Request>, answers: seq<seq<byte>>, ghost leaves: seq<nat>,
                ghost mem: Memory, ghost p: Places)
    returns (r: Result<seq<seq<byte>>>, ghost leaves': seq<nat>)
    requires |leaves| < |requests| && Running(client, requests, answers, leaves, mem, p)
    modifies client, client.server
    ensures |leaves'| == |leaves| + 1 && RunInRange(client.cfg, requests, leaves') && PlacesOk(client.cfg, p)
    ensures r.Success? <==> RunHasRoom(client.cfg, p, requests, leaves')
    ensures client.cfg.numBlocks <= client.cfg.Slots() ==> r.Success?
    ensures r.Failure? ==> r.error == RuntimeError
    ensures r.Success? ==> Running(client, requests, r.value, leaves', mem, p)
  {
    hide OnionRingClient.Valid, HasRoom, Accessed, PlacesOk, RunHasRoom, PlacesAfter, RunInRange, EvictionDue,
      OnionRingClient.Where;
    ghost var i := |leaves|;
    var request := requests[|answers|];
    assert requests[..i + 1][..i] == requests[..i];
    var answer := client.Access(request.op, request.addr, request.data);
    leaves' := leaves + [client.posMap[request.addr]];
    OneMoreRequest(client.cfg, p, requests, leaves, client.posMap[request.addr]);
    if answer.Failure? { return Failure(answer.error), leaves'; }
    return Success(answers + [answer.value]), leaves';
  }

  /** A whole run, with the leaves it draws. It succeeds exactly if every access has room, which with as many
      slots per bucket as blocks is always so; then every answer is the one a plain memory gives. */
  method RunWorkload(client: OnionRingClient, requests: seq<Request>)
    returns (r: Result<seq<seq<byte>>>, ghost leaves: seq<nat>)
    requires client.Valid() && AllAcceptable(client.cfg, requests)
    modifies client, client.server
    ensures RunInRange(client.cfg, requests, leaves) && PlacesOk(client.cfg, old(client.Where()))
    ensures r.Success? <==> RunHasRoom(client.cfg, old(client.Where()), requests, leaves)
    ensures client.cfg.numBlocks <= client.cfg.Slots() ==> r.Success?
    ensures r.Failure? ==> r.error == RuntimeError
    ensures r.Success? ==>
              && client.Valid() && client.mem == After(old(client.mem), requests)
              && r.value == Answers(old(client.mem), requests, client.cfg.blockSize)
              && |leaves| == |requests|
              && client.Where() == PlacesAfter(client.cfg, old(client.Where()), requests, leaves)
  {
    hide OnionRingClient.Valid, OnionRingClient.Where, PlacesOk, HasRoom, Accessed;
    ghost var mem, p := client.mem, client.Where();
    r, leaves := Success([]), [];
    client.StartPlaces();
    assert requests[..0] == [];
    for i := 0 to |requests|
      invariant |leaves| == i && r.Success? && Running(client, requests, r.value, leaves, mem, p)
    {
      hide Running, RunHasRoom, RunInRange;
      r, leaves := RunOne(client, requests, r.value, leaves, mem, p);
      if r.Failure? { return; }
    }
    assert requests[..|requests|] == requests;
  }

  /** A run that fails: in a tree of one bucket with one slot, whoever comes second finds no room. */
  method FullTreeRefuses(cfg: Config, first: nat, second: nat, data: seq<byte>) returns (r: Result<seq<byte>>)
    requires cfg.treeHeight == 0 && cfg.Slots() == 1 && cfg.blockSize <= cfg.tlweN
    requires first < cfg.numBlocks && second < cfg.numBlocks && first != second && |data| == cfg.blockSize
    ensures r == Failure(RuntimeError)
  {
    var server := new OnionRingServer(cfg);
    server.Init();
    var client := new OnionRingClient(cfg, server);
    client.StartPlaces();
    ghost var p := client.Where();
    hide OnionRingClient.Valid, PlacesOk, HasRoom, Accessed, EvictionDue;
    var written := client.Access(WRITE, first, data);
    FirstFits(cfg, p, first, client.posMap[first]);
    ghost var q := client.Where();
    r := client.Access(READ, second, []);
    SecondRefused(cfg, q, first, second, client.posMap[second]);
  }
}
