/** Onion Ring: pushing the blocks of a bucket down to its two children, and what the order of evictions
    makes of that. */
module OnionEviction {
  import opened Bytes
  import opened HeapTree
  import opened OnionSchedule
  import opened OnionState
  import opened Permutations
  import opened Ram

  // ----- one child of a triplet -----

  predicate GoesRight(pos: seq<nat>, shift: nat, id: int)
    requires 0 <= id < |pos|
  {
    Shr(pos[id], shift) % 2 == 1
  }

  predicate Known(row: Row, pos: seq<nat>)
  {
    forall k :: 0 <= k < |row| ==> row[k] < |pos|
  }

  /** The slots among the first k whose blocks go to one side. */
  function SlotsGoing(row: Row, pos: seq<nat>, shift: nat, right: bool, k: nat): (slots: seq<nat>)
    requires Known(row, pos) && k <= |row|
    ensures Within(slots, |row|)
  {
    if k == 0 then [] else
      SlotsGoing(row, pos, shift, right, k - 1)
      + if row[k - 1] >= 0 && GoesRight(pos, shift, row[k - 1]) == right then [k - 1] else []
  }

  /** The slots among the first k that hold blocks. */
  function RealSlots(row: Row, k: nat): (slots: seq<nat>)
    requires k <= |row|
    ensures Within(slots, |row|)
  {
    if k == 0 then [] else RealSlots(row, k - 1) + if row[k - 1] >= 0 then [k - 1] else []
  }

  function Padded<T>(s: seq<T>, n: nat, v: T): (r: seq<T>)
    ensures |r| == if |s| <= n then n else |s|
    ensures s <= r && forall i :: |s| <= i < |r| ==> r[i] == v
  {
    s + seq(if |s| <= n then n - |s| else 0, _ => v)
  }

  /** What a child holds after the eviction, before it is shuffled: its share of the parent, then its own
      blocks. */
  function Pushed<T>(source: seq<T>, sourceSlots: seq<nat>, child: seq<T>, childSlots: seq<nat>): (r: seq<T>)
    requires Within(sourceSlots, |source|) && Within(childSlots, |child|)
    ensures |r| == |sourceSlots| + |childSlots|
  {
    Permuted(source, sourceSlots) + Permuted(child, childSlots)
  }

  function Inputs(source: Row, child: Row, pos: seq<nat>, shift: nat, right: bool): (r: Row)
    requires Known(source, pos)
  {
    Pushed(source, SlotsGoing(source, pos, shift, right, |source|), child, RealSlots(child, |child|))
  }

  /** A child after the eviction. */
  ghost predicate ChildAfter(source: Row, child: Row, pos: seq<nat>, shift: nat, right: bool, perm: seq<nat>,
                             after: Row)
  {
    && Known(source, pos) && |Inputs(source, child, pos, shift, right)| <= |child|
    && IsPermutation(perm) && |perm| == |child|
    && after == Permuted<int>(Padded(Inputs(source, child, pos, shift, right), |child|, EMPTY), perm)
  }

  lemma {:induction false} GoingMembers(row: Row, pos: seq<nat>, shift: nat, right: bool, k: nat, a: int)
    requires Known(row, pos) && k <= |row| && a >= 0
    ensures a in Permuted<int>(row, SlotsGoing(row, pos, shift, right, k))
       <==> a in row[..k] && a < |pos| && GoesRight(pos, shift, a) == right
  {
    if k > 0 {
      GoingMembers(row, pos, shift, right, k - 1, a);
      assert row[..k] == row[..k - 1] + [row[k - 1]];
      PermutedSnoc(row, SlotsGoing(row, pos, shift, right, k - 1), k - 1);
    }
  }

  lemma {:induction false} RealMembers(row: Row, k: nat, a: int)
    requires k <= |row| && a >= 0
    ensures a in Permuted<int>(row, RealSlots(row, k)) <==> a in row[..k]
  {
    if k > 0 {
      RealMembers(row, k - 1, a);
      assert row[..k] == row[..k - 1] + [row[k - 1]];
      PermutedSnoc(row, RealSlots(row, k - 1), k - 1);
    }
  }

  lemma {:induction false} PermutedSnoc<T>(s: seq<T>, slots: seq<nat>, slot: nat)
    requires Within(slots, |s|) && slot < |s|
    ensures Permuted(s, slots + [slot]) == Permuted(s, slots) + [s[slot]]
    ensures Permuted(s, slots + []) == Permuted(s, slots)
  {
    assert slots + [] == slots;
  }

  /** A child receives the parent's blocks of its side and keeps its own; it gains nothing else. */
  lemma {:induction false} InputsMembers(source: Row, child: Row, pos: seq<nat>, shift: nat, right: bool, a: int)
    requires Known(source, pos) && a >= 0
    ensures a in Inputs(source, child, pos, shift, right)
       <==> (a in source && a < |pos| && GoesRight(pos, shift, a) == right) || a in child
  {
    hide SlotsGoing, RealSlots, Permuted, GoesRight;
    GoingMembers(source, pos, shift, right, |source|, a);
    RealMembers(child, |child|, a);
    assert source[..|source|] == source && child[..|child|] == child;
  }

  /** Slots of blocks among the first k, in ascending order. */
  ghost predicate Ascends(row: Row, slots: seq<nat>, k: nat)
  {
    && (forall i :: 0 <= i < |slots| ==> slots[i] < k && slots[i] < |row| && row[slots[i]] >= 0)
    && (forall i, j :: 0 <= i < j < |slots| ==> slots[i] < slots[j])
  }

  lemma {:induction false} AscendsSnoc(row: Row, slots: seq<nat>, k: nat)
    requires Ascends(row, slots, k) && k < |row|
    ensures Ascends(row, slots + [], k + 1)
    ensures row[k] >= 0 ==> Ascends(row, slots + [k], k + 1)
  {
    assert slots + [] == slots;
  }

  lemma {:induction false} GoingAscends(row: Row, pos: seq<nat>, shift: nat, right: bool, k: nat)
    requires Known(row, pos) && k <= |row|
    ensures Ascends(row, SlotsGoing(row, pos, shift, right, k), k)
  {
    if k > 0 {
      hide Ascends;
      GoingAscends(row, pos, shift, right, k - 1);
      AscendsSnoc(row, SlotsGoing(row, pos, shift, right, k - 1), k - 1);
    }
  }

  lemma {:induction false} RealAscends(row: Row, k: nat)
    requires k <= |row|
    ensures Ascends(row, RealSlots(row, k), k)
  {
    if k > 0 {
      hide Ascends;
      RealAscends(row, k - 1);
      AscendsSnoc(row, RealSlots(row, k - 1), k - 1);
    }
  }

  ghost predicate Disjoint(x: Row, y: Row)
  {
    forall a :: a >= 0 && a in x ==> a !in y
  }

  /** The ids pushed into a child are all different. */
  lemma {:induction false} InputsDistinct(cfg: Config, source: Row, child: Row, pos: seq<nat>, shift: nat, right: bool)
    requires RowOk(cfg, source) && RowOk(cfg, child) && Disjoint(source, child) && |pos| == cfg.numBlocks
    ensures Known(source, pos)
    ensures var ids := Inputs(source, child, pos, shift, right);
            && (forall i :: 0 <= i < |ids| ==> 0 <= ids[i] < cfg.numBlocks)
            && (forall i, j :: 0 <= i < j < |ids| ==> ids[i] != ids[j])
  {
    hide SlotsGoing, RealSlots, Disjoint, Pushed, Ascends;
    GoingAscends(source, pos, shift, right, |source|);
    RealAscends(child, |child|);
    var goes, stays := SlotsGoing(source, pos, shift, right, |source|), RealSlots(child, |child|);
    var ids := Inputs(source, child, pos, shift, right);
    forall i: nat | i < |ids|
      ensures 0 <= ids[i] < cfg.numBlocks
    {
      PushedIsBlock(cfg, source, goes, child, stays, i);
    }
    forall i: nat, j: nat | i < j < |ids|
      ensures ids[i] != ids[j]
    {
      PairDistinct(cfg, source, goes, child, stays, i, j);
    }
  }

  lemma {:induction false} PushedIsBlock(cfg: Config, source: Row, goes: seq<nat>, child: Row, stays: seq<nat>, i: nat)
    requires RowOk(cfg, source) && RowOk(cfg, child) && Within(goes, |source|) && Within(stays, |child|)
    requires Ascends(source, goes, |source|) && Ascends(child, stays, |child|) && i < |goes| + |stays|
    ensures 0 <= Pushed(source, goes, child, stays)[i] < cfg.numBlocks
  {
  }

  lemma {:induction false} PairDistinct(cfg: Config, source: Row, goes: seq<nat>, child: Row, stays: seq<nat>, i: nat,
                                        j: nat)
    requires RowOk(cfg, source) && RowOk(cfg, child) && Disjoint(source, child)
    requires Within(goes, |source|) && Within(stays, |child|)
    requires Ascends(source, goes, |source|) && Ascends(child, stays, |child|)
    requires i < j < |goes| + |stays|
    ensures Pushed(source, goes, child, stays)[i] != Pushed(source, goes, child, stays)[j]
  {
    if i < |goes| <= j {
      assert source[goes[i]] in source && child[stays[j - |goes|]] in child;
    } else if |goes| <= i {
      assert stays[i - |goes|] < stays[j - |goes|];
    }
  }

  lemma {:induction false} PermutedMembers(row: Row, perm: seq<nat>)
    requires IsPermutation(perm) && |perm| == |row|
    ensures forall a :: a in Permuted<int>(row, perm) <==> a in row
  {
    forall a | a in row
      ensures a in Permuted<int>(row, perm)
    {
      var k :| 0 <= k < |row| && row[k] == a;
      PermutationCovers(perm, k);
      var d :| 0 <= d < |perm| && perm[d] == k;
      assert Permuted<int>(row, perm)[d] == a;
    }
  }

  lemma {:induction false} PermutedRowOk(cfg: Config, row: Row, perm: seq<nat>)
    requires RowOk(cfg, row) && IsPermutation(perm) && |perm| == |row|
    ensures RowOk(cfg, Permuted<int>(row, perm))
  {
    var r := Permuted<int>(row, perm);
    forall j, k | 0 <= j < k < |r| && r[j] == r[k]
      ensures r[k] == EMPTY
    {
      if perm[j] < perm[k] {
        assert row[perm[j]] == row[perm[k]];
      } else {
        assert row[perm[k]] == row[perm[j]];
      }
    }
  }

  /** A child after the eviction: a proper row, with the parent's share and its own blocks. */
  lemma {:induction false} ChildRow(cfg: Config, source: Row, child: Row, pos: seq<nat>, shift: nat, right: bool,
                                    perm: seq<nat>, after: Row)
    requires RowOk(cfg, source) && RowOk(cfg, child) && Disjoint(source, child) && |pos| == cfg.numBlocks
    requires ChildAfter(source, child, pos, shift, right, perm, after)
    ensures RowOk(cfg, after)
    ensures forall a :: a >= 0 ==> (a in after <==> (a in source && a < |pos| && GoesRight(pos, shift, a) == right) || a in child)
  {
    hide GoesRight, Inputs;
    var ids := Inputs(source, child, pos, shift, right);
    var full := Padded(ids, |child|, EMPTY);
    InputsDistinct(cfg, source, child, pos, shift, right);
    PaddedMembers(ids, |child|);
    assert RowOk(cfg, full);
    PermutedRowOk(cfg, full, perm);
    PermutedMembers(full, perm);
    forall a | a >= 0
      ensures a in after <==> (a in source && a < |pos| && GoesRight(pos, shift, a) == right) || a in child
    {
      InputsMembers(source, child, pos, shift, right, a);
    }
  }

  lemma {:induction false} PaddedMembers(ids: Row, n: nat)
    ensures forall a :: a >= 0 ==> (a in Padded(ids, n, EMPTY) <==> a in ids)
  {
    var full := Padded(ids, n, EMPTY);
    assert forall i :: 0 <= i < |ids| ==> full[i] == ids[i];
  }

  /** A child holds no more afterwards than the parent and the child held before. */
  lemma {:induction false} ChildLoad(cfg: Config, source: Row, child: Row, pos: seq<nat>, shift: nat, right: bool,
                                     perm: seq<nat>, after: Row)
    requires RowOk(cfg, source) && RowOk(cfg, child) && Disjoint(source, child) && |pos| == cfg.numBlocks
    requires ChildAfter(source, child, pos, shift, right, perm, after)
    ensures |Members(after)| <= |Members(source)| + |Members(child)|
  {
    hide ChildAfter, RowOk, GoesRight;
    ChildRow(cfg, source, child, pos, shift, right, perm, after);
    assert Members(after) <= Members(source) + Members(child);
    SubsetSize(Members(after), Members(source) + Members(child));
  }

  // ----- a whole triplet -----

  /** How far to shift a leaf so that its last digit tells the side below this bucket. */
  function ShiftAt(height: nat, source: nat): nat
    requires Level(source) < height
  {
    height - Level(source) - 1
  }

  ghost predicate TripletAfter(height: nat, ids: seq<Row>, pos: seq<nat>, source: nat, leftPerm: seq<nat>,
                               rightPerm: seq<nat>, ids': seq<Row>)
  {
    && Level(source) < height && 2 * source + 2 < |ids| == |ids'|
    && ChildAfter(ids[source], ids[2 * source + 1], pos, ShiftAt(height, source), false, leftPerm, ids'[2 * source + 1])
    && ChildAfter(ids[source], ids[2 * source + 2], pos, ShiftAt(height, source), true, rightPerm, ids'[2 * source + 2])
    && |ids'[source]| == |ids[source]| && Blank(ids'[source])
    && forall n :: 0 <= n < |ids| && n != source && n != 2 * source + 1 && n != 2 * source + 2 ==> ids'[n] == ids[n]
  }

  /** Where the blocks are after the triplet. */
  ghost function Sunk(loc: map<int, int>, source: nat, pos: seq<nat>, shift: nat): map<int, int>
    requires forall a :: a in loc ==> 0 <= a < |pos|
  {
    map a | a in loc :: if loc[a] == source then 2 * source + 1 + Shr(pos[a], shift) % 2 else loc[a]
  }

  lemma {:induction false} RowsDisjoint(ids: seq<Row>, loc: map<int, int>, m: nat, n: nat)
    requires Indexed(ids, loc) && m < |ids| && n < |ids| && m != n
    ensures Disjoint(ids[m], ids[n])
  {
    forall a | a >= 0 && a in ids[m]
      ensures a !in ids[n]
    {
      assert a in ids[n] <==> a in loc && loc[a] == n;
    }
  }

  /** The source lies on the path of each of its blocks, so the next digit leads to the right child. */
  lemma {:induction false} SunkHomed(cfg: Config, pos: seq<nat>, loc: map<int, int>, source: nat)
    requires PosOk(cfg, pos) && Homed(cfg, pos, loc) && Level(source) < cfg.treeHeight
    ensures Homed(cfg, pos, Sunk(loc, source, pos, ShiftAt(cfg.treeHeight, source)))
  {
    hide OnPath, Shr, Level, ShiftAt;
    forall a | a in loc && loc[a] == source
      ensures var child := 2 * source + 1 + Shr(pos[a], ShiftAt(cfg.treeHeight, source)) % 2;
              child < NumNodes(cfg.treeHeight) && OnPath(cfg.treeHeight, child, pos[a])
    {
      ChildOnPath(cfg.treeHeight, source, pos[a]);
    }
  }

  lemma {:induction false} ChildOnPath(height: nat, source: nat, x: nat)
    requires x < NumLeaves(height) && Level(source) < height && OnPath(height, source, x)
    ensures var child := 2 * source + 1 + Shr(x, ShiftAt(height, source)) % 2;
            child < NumNodes(height) && OnPath(height, child, x)
  {
    hide NodeAt, Shr, Level;
    NodeAtStep(height, x, Level(source));
    NodeAtRange(height, x, Level(source) + 1);
  }

  lemma {:induction false} TripletRows(cfg: Config, ids: seq<Row>, pos: seq<nat>, loc: map<int, int>, source: nat,
                                       leftPerm: seq<nat>, rightPerm: seq<nat>, ids': seq<Row>)
    requires Placed(cfg, ids, pos, loc) && TripletAfter(cfg.treeHeight, ids, pos, source, leftPerm, rightPerm, ids')
    ensures RowsOk(cfg, ids')
    ensures var shift := ShiftAt(cfg.treeHeight, source);
            && (forall a :: a >= 0 ==> (a in ids'[2 * source + 1] <==>
                  (a in ids[source] && a < |pos| && !GoesRight(pos, shift, a)) || a in ids[2 * source + 1]))
            && (forall a :: a >= 0 ==> (a in ids'[2 * source + 2] <==>
                  (a in ids[source] && a < |pos| && GoesRight(pos, shift, a)) || a in ids[2 * source + 2]))
            && (forall a :: a >= 0 ==> a !in ids'[source])
  {
    hide ChildAfter, Homed, GoesRight;
    var shift := ShiftAt(cfg.treeHeight, source);
    RowsDisjoint(ids, loc, source, 2 * source + 1);
    RowsDisjoint(ids, loc, source, 2 * source + 2);
    ChildRow(cfg, ids[source], ids[2 * source + 1], pos, shift, false, leftPerm, ids'[2 * source + 1]);
    ChildRow(cfg, ids[source], ids[2 * source + 2], pos, shift, true, rightPerm, ids'[2 * source + 2]);
    assert RowOk(cfg, ids'[source]);
  }

  /** No block is lost, duplicated or put off its path by a triplet eviction. */
  lemma {:induction false} TripletPlaced(cfg: Config, ids: seq<Row>, pos: seq<nat>, loc: map<int, int>, source: nat,
                                         leftPerm: seq<nat>, rightPerm: seq<nat>, ids': seq<Row>)
    requires Placed(cfg, ids, pos, loc) && TripletAfter(cfg.treeHeight, ids, pos, source, leftPerm, rightPerm, ids')
    ensures Placed(cfg, ids', pos, Sunk(loc, source, pos, ShiftAt(cfg.treeHeight, source)))
  {
    hide RowOk, OnPath, ChildAfter, Shr;
    TripletRows(cfg, ids, pos, loc, source, leftPerm, rightPerm, ids');
    SunkHomed(cfg, pos, loc, source);
    var loc' := Sunk(loc, source, pos, ShiftAt(cfg.treeHeight, source));
    forall n, a | 0 <= n < |ids'| && a >= 0
      ensures a in ids'[n] <==> a in loc' && loc'[a] == n
    {
      assert a in ids[n] <==> a in loc && loc[a] == n;
      assert a in ids[source] <==> a in loc && loc[a] == source;
    }
  }

  // ----- what the slots decrypt to -----

  lemma {:induction false} CellsPushed(cfg: Config, mem: Memory, source: Row, goes: seq<nat>, child: Row,
                                       stays: seq<nat>)
    requires Within(goes, |source|) && Within(stays, |child|)
    ensures Pushed(Cells(cfg, mem, source), goes, Cells(cfg, mem, child), stays)
         == Cells(cfg, mem, Pushed<int>(source, goes, child, stays))
  {
    hide CipherOf;
  }

  lemma {:induction false} CellsPadded(cfg: Config, mem: Memory, ids: Row, n: nat)
    ensures Padded(Cells(cfg, mem, ids), n, Zeros(cfg.tlweN)) == Cells(cfg, mem, Padded(ids, n, EMPTY))
  {
    hide CipherOf;
    EmptyIsZero(cfg, mem);
  }

  lemma {:induction false} CellsPermuted(cfg: Config, mem: Memory, row: Row, perm: seq<nat>)
    requires Within(perm, |row|)
    ensures Permuted(Cells(cfg, mem, row), perm) == Cells(cfg, mem, Permuted<int>(row, perm))
  {
    hide CipherOf;
  }

  // ----- which buckets are empty, and how full the others are -----

  /** Between evictions, when t have been made: a rested bucket above the leaves is empty. */
  ghost predicate RestedEmpty(height: nat, t: nat, ids: seq<Row>)
  {
    |ids| == NumNodes(height)
    && forall n :: 0 < n < |ids| && Level(n) < height && Rested(t, n) ==> Blank(ids[n])
  }

  /** The parent has pushed its blocks down in the first d steps of eviction t. */
  ghost predicate ParentTaken(height: nat, t: nat, d: nat, n: nat)
    requires n > 0
  {
    Level(n) <= d && Visited(height, t, (n - 1) / 2)
  }

  /** The same in the middle of eviction t, when the path has been emptied down to level d. */
  ghost predicate RestedMid(height: nat, t: nat, d: nat, ids: seq<Row>)
  {
    && |ids| == NumNodes(height)
    && (forall n :: 0 <= n < |ids| && Level(n) < d && Visited(height, t, n) ==> Blank(ids[n]))
    && (forall n :: 0 < n < |ids| && Level(n) < height && Rested(t, n) && !ParentTaken(height, t, d, n) ==> Blank(ids[n]))
  }

  /** Above the leaf, the path of eviction t is empty. */
  ghost predicate PathEmptied(height: nat, t: nat, ids: seq<Row>)
  {
    forall n :: 0 <= n < |ids| && Level(n) < height && Visited(height, t, n) ==> Blank(ids[n])
  }

  /** Changing the root does not disturb the schedule, nor does changing a leaf disturb the path. */
  lemma {:induction false} ScheduleIgnores(height: nat, a: nat, t: nat, u: nat, ids: seq<Row>, n: nat, row: Row)
    requires n < |ids| && (n == 0 || Level(n) == height)
    ensures RestedEmpty(height, t, ids) ==> RestedEmpty(height, t, ids[n := row])
    ensures LoadsOk(height, a, ids) ==> LoadsOk(height, a, ids[n := row])
    ensures Level(n) == height && PathEmptied(height, u, ids) ==> PathEmptied(height, u, ids[n := row])
  {
    hide Rested, Visited, Blank, Members, Pow2;
  }

  lemma {:induction false} RootEmptied(height: nat, t: nat, ids: seq<Row>)
    requires PathEmptied(height, t, ids) && height > 0 && |ids| > 0
    ensures Blank(ids[0]) && Members(ids[0]) == {}
  {
    hide Visited;
    RootVisited(height, t);
    BlankHasNoMembers(ids[0]);
  }

  lemma {:induction false} RootVisited(height: nat, t: nat)
    ensures Visited(height, t, 0)
  {
    RootOnPath(height, EvictionLeaf(height, t));
  }

  lemma {:induction false} MidStart(height: nat, t: nat, ids: seq<Row>)
    requires RestedEmpty(height, t, ids)
    ensures RestedMid(height, t, 0, ids)
  {
    hide Rested, Visited;
  }

  /** After the eviction the rested buckets are those of the new time, and the path is empty above its leaf. */
  lemma {:induction false} MidEnd(height: nat, t: nat, ids: seq<Row>)
    requires RestedMid(height, t, height, ids)
    ensures RestedEmpty(height, t + 1, ids)
    ensures PathEmptied(height, t, ids)
  {
    hide Rested, Visited;
    forall n | 0 < n < |ids| && Level(n) < height && Rested(t + 1, n)
      ensures Blank(ids[n])
    {
      RestStep(height, t, n);
    }
  }

  /** The child that the eviction does not go on to is empty beforehand, unless it is a leaf. */
  lemma {:induction false} OffPathChildEmpty(height: nat, t: nat, d: nat, ids: seq<Row>, child: nat)
    requires RestedMid(height, t, d, ids) && 0 < child < |ids| && d < Level(child) < height
    requires Visited(height, t, (child - 1) / 2) && !Visited(height, t, child)
    ensures Blank(ids[child])
  {
    hide Rested, Visited;
    RestStep(height, t, child);
  }

  lemma {:induction false} ChildrenOf(source: nat, n: nat)
    requires n > 0
    ensures (n - 1) / 2 == source <==> n == 2 * source + 1 || n == 2 * source + 2
    ensures Level(n) == Level((n - 1) / 2) + 1
  {
  }

  lemma {:induction false} VisitedUnique(height: nat, t: nat, m: nat, n: nat)
    requires Visited(height, t, m) && Visited(height, t, n) && Level(m) == Level(n)
    ensures m == n
  {
  }

  lemma {:induction false} MidStep(cfg: Config, t: nat, ids: seq<Row>, pos: seq<nat>, source: nat, leftPerm: seq<nat>,
                                   rightPerm: seq<nat>, ids': seq<Row>)
    requires RestedMid(cfg.treeHeight, t, Level(source), ids) && Visited(cfg.treeHeight, t, source)
    requires TripletAfter(cfg.treeHeight, ids, pos, source, leftPerm, rightPerm, ids')
    ensures RestedMid(cfg.treeHeight, t, Level(source) + 1, ids')
  {
    hide Rested, Visited, ChildAfter, Blank;
    var height, d := cfg.treeHeight, Level(source);
    forall n | 0 <= n < |ids'| && Level(n) < d + 1 && Visited(height, t, n)
      ensures Blank(ids'[n])
    {
      if Level(n) == d { VisitedUnique(height, t, n, source); }
      if n > 0 { ChildrenOf(source, n); }
    }
    forall n | 0 < n < |ids'| && Level(n) < height && Rested(t, n) && !ParentTaken(height, t, d + 1, n)
      ensures Blank(ids'[n])
    {
      ChildrenOf(source, n);
    }
  }

  /** How many blocks a bucket may hold between evictions, when an eviction comes every a accesses. */
  ghost predicate LoadsOk(height: nat, a: nat, ids: seq<Row>)
  {
    forall n :: 0 < n < |ids| && Level(n) < height ==> |Members(ids[n])| <= Pow2(Level(n) - 1) * a
  }

  /** In the middle of an eviction the next bucket of the path may hold twice as much. */
  ghost predicate LoadsMid(height: nat, a: nat, t: nat, d: nat, ids: seq<Row>)
  {
    && (forall n :: 0 < n < |ids| && Level(n) < height ==>
          |Members(ids[n])| <= if Level(n) == d && Visited(height, t, n) then Pow2(d) * a else Pow2(Level(n) - 1) * a)
    && (d == 0 && height > 0 && |ids| > 0 ==> |Members(ids[0])| <= a)
  }

  lemma {:induction false} SourceLoad(height: nat, a: nat, t: nat, ids: seq<Row>, source: nat)
    requires LoadsMid(height, a, t, Level(source), ids) && source < |ids| && Level(source) < height
    requires Visited(height, t, source)
    ensures |Members(ids[source])| <= Pow2(Level(source)) * a
  {
    hide Visited;
    if source == 0 { assert Pow2(0) == 1; }
  }

  lemma {:induction false} ChildLoads(cfg: Config, t: nat, ids: seq<Row>, pos: seq<nat>, loc: map<int, int>,
                                      source: nat, leftPerm: seq<nat>, rightPerm: seq<nat>, ids': seq<Row>, n: nat)
    requires Placed(cfg, ids, pos, loc) && TripletAfter(cfg.treeHeight, ids, pos, source, leftPerm, rightPerm, ids')
    requires n == 2 * source + 1 || n == 2 * source + 2
    ensures |Members(ids'[n])| <= |Members(ids[source])| + |Members(ids[n])|
  {
    hide ChildAfter, RowOk, Homed, Indexed, Members;
    var shift := ShiftAt(cfg.treeHeight, source);
    RowsDisjoint(ids, loc, source, n);
    if n == 2 * source + 1 {
      ChildLoad(cfg, ids[source], ids[n], pos, shift, false, leftPerm, ids'[n]);
    } else {
      ChildLoad(cfg, ids[source], ids[n], pos, shift, true, rightPerm, ids'[n]);
    }
  }

  lemma {:induction false} LoadStep(cfg: Config, a: nat, t: nat, ids: seq<Row>, pos: seq<nat>, loc: map<int, int>,
                                    source: nat, leftPerm: seq<nat>, rightPerm: seq<nat>, ids': seq<Row>, n: nat)
    requires Placed(cfg, ids, pos, loc) && TripletAfter(cfg.treeHeight, ids, pos, source, leftPerm, rightPerm, ids')
    requires RestedMid(cfg.treeHeight, t, Level(source), ids) && Visited(cfg.treeHeight, t, source)
    requires LoadsMid(cfg.treeHeight, a, t, Level(source), ids)
    requires (n == 2 * source + 1 || n == 2 * source + 2) && Level(n) < cfg.treeHeight
    ensures |Members(ids'[n])| <= if Visited(cfg.treeHeight, t, n) then Pow2(Level(n)) * a else Pow2(Level(n) - 1) * a
  {
    hide Visited, Placed, TripletAfter, RestedMid, Members, Blank, Pow2, LoadsMid;
    var height, d := cfg.treeHeight, Level(source);
    ChildrenOf(source, n);
    TripletSize(height, ids, pos, source, leftPerm, rightPerm, ids');
    SourceLoad(height, a, t, ids, source);
    ChildLoads(cfg, t, ids, pos, loc, source, leftPerm, rightPerm, ids', n);
    if Visited(height, t, n) {
      ChildBefore(height, a, t, d, ids, n);
      TwiceTheLoad(d, a);
    } else {
      OffPathChildEmpty(height, t, d, ids, n);
      BlankHasNoMembers(ids[n]);
    }
  }

  lemma {:induction false} ChildBefore(height: nat, a: nat, t: nat, d: nat, ids: seq<Row>, n: nat)
    requires LoadsMid(height, a, t, d, ids) && 0 < n < |ids| && Level(n) == d + 1 < height
    ensures |Members(ids[n])| <= Pow2(d) * a
  {
    hide Members, Pow2, Visited;
  }

  lemma {:induction false} TwiceTheLoad(d: nat, a: nat)
    ensures Pow2(d + 1) * a == Pow2(d) * a + Pow2(d) * a
  {
    assert Pow2(d + 1) == Pow2(d) + Pow2(d);
  }

  lemma {:induction false} TripletSize(height: nat, ids: seq<Row>, pos: seq<nat>, source: nat, leftPerm: seq<nat>,
                                       rightPerm: seq<nat>, ids': seq<Row>)
    requires TripletAfter(height, ids, pos, source, leftPerm, rightPerm, ids')
    ensures 2 * source + 2 < |ids| == |ids'| && Level(source) < height
  {
  }

  lemma {:induction false} OtherLoad(height: nat, a: nat, t: nat, ids: seq<Row>, source: nat, n: nat)
    requires LoadsMid(height, a, t, Level(source), ids) && Visited(height, t, source) && |ids| == NumNodes(height)
    requires 0 < n < |ids| && Level(n) < height && n != source && (n - 1) / 2 != source
    ensures !(Level(n) == Level(source) + 1 && Visited(height, t, n))
    ensures |Members(ids[n])| <= Pow2(Level(n) - 1) * a
  {
    hide Visited, Members, Pow2;
    ChildrenOf(source, n);
    RestStep(height, t, n);
    if Visited(height, t, n) {
      if Level(n) == Level(source) { VisitedUnique(height, t, n, source); }
      if Level(n) == Level(source) + 1 { VisitedUnique(height, t, (n - 1) / 2, source); }
    }
  }

  lemma {:induction false} LoadsStep(cfg: Config, a: nat, t: nat, ids: seq<Row>, pos: seq<nat>, loc: map<int, int>,
                                     source: nat, leftPerm: seq<nat>, rightPerm: seq<nat>, ids': seq<Row>)
    requires Placed(cfg, ids, pos, loc) && TripletAfter(cfg.treeHeight, ids, pos, source, leftPerm, rightPerm, ids')
    requires RestedMid(cfg.treeHeight, t, Level(source), ids) && Visited(cfg.treeHeight, t, source)
    requires LoadsMid(cfg.treeHeight, a, t, Level(source), ids)
    ensures LoadsMid(cfg.treeHeight, a, t, Level(source) + 1, ids')
  {
    hide Visited, Placed, RestedMid, ChildAfter, Pow2, LoadsMid, Members, Blank;
    var height, d := cfg.treeHeight, Level(source);
    PlacedSize(cfg, ids, pos, loc);
    forall n: nat | 0 < n < |ids'| && Level(n) < height
      ensures |Members(ids'[n])| <= if Level(n) == d + 1 && Visited(height, t, n) then Pow2(d + 1) * a else Pow2(Level(n) - 1) * a
    {
      ChildrenOf(source, n);
      if (n - 1) / 2 == source {
        LoadStep(cfg, a, t, ids, pos, loc, source, leftPerm, rightPerm, ids', n);
      } else if n == source {
        BlankHasNoMembers(ids'[n]);
      } else {
        OtherLoad(height, a, t, ids, source, n);
      }
    }
    LoadsMidIntro(height, a, t, d + 1, ids');
  }

  lemma {:induction false} LoadsMidIntro(height: nat, a: nat, t: nat, d: nat, ids: seq<Row>)
    requires d > 0
    requires forall n: nat :: 0 < n < |ids| && Level(n) < height ==>
               |Members(ids[n])| <= if Level(n) == d && Visited(height, t, n) then Pow2(d) * a else Pow2(Level(n) - 1) * a
    ensures LoadsMid(height, a, t, d, ids)
  {
    hide Visited, Members, Pow2;
  }

  lemma {:induction false} PlacedSize(cfg: Config, ids: seq<Row>, pos: seq<nat>, loc: map<int, int>)
    requires Placed(cfg, ids, pos, loc)
    ensures |ids| == NumNodes(cfg.treeHeight)
  {
  }

  lemma {:induction false} LoadsStart(height: nat, a: nat, t: nat, ids: seq<Row>)
    requires LoadsOk(height, a, ids) && |ids| > 0 && (height > 0 ==> |Members(ids[0])| <= a)
    ensures LoadsMid(height, a, t, 0, ids)
  {
    assert forall n :: 0 < n < |ids| ==> Level(n) > 0;
  }

  lemma {:induction false} LoadsEnd(height: nat, a: nat, t: nat, ids: seq<Row>)
    requires LoadsMid(height, a, t, height, ids)
    ensures LoadsOk(height, a, ids)
  {
  }

  // ----- where an eviction takes the blocks -----

  /** How far down the first d steps of an eviction take a block: with the path as long as the block's own
      path agrees with it, and one step further. */
  function LandingLevel(height: nat, x: nat, leaf: nat, d: nat): (level: nat)
    requires x < NumLeaves(height) && leaf < NumLeaves(height)
    ensures level <= d
  {
    MeetingBound(x, leaf, height);
    var shared := height - Meeting(x, leaf);
    if shared + 1 < d then shared + 1 else d
  }

  ghost function Landing(height: nat, x: nat, at: nat, t: nat, d: nat): nat
    requires x < NumLeaves(height) && d <= height
  {
    var leaf := EvictionLeaf(height, t);
    if Level(at) < d && OnPath(height, at, leaf) then NodeAt(height, x, LandingLevel(height, x, leaf, d)) else at
  }

  /** Where the blocks are after the first d steps of eviction t. */
  ghost function Descended(cfg: Config, start: map<int, int>, pos: seq<nat>, t: nat, d: nat): map<int, int>
    requires PosOk(cfg, pos) && Homed(cfg, pos, start) && d <= cfg.treeHeight
  {
    map a | a in start :: Landing(cfg.treeHeight, pos[a], start[a], t, d)
  }

  /** Two paths share exactly the levels down to the one where they meet. */
  lemma {:induction false} SharedLevel(height: nat, x: nat, leaf: nat, level: nat)
    requires x < NumLeaves(height) && leaf < NumLeaves(height) && level <= height
    ensures NodeAt(height, x, level) == NodeAt(height, leaf, level) <==> level + Meeting(x, leaf) <= height
  {
    hide NodeAt;
    SharedNode(height, x, leaf, height - level);
    MeetingAgrees(x, leaf, height - level);
  }

  /** One step: a block in the bucket that is pushed down moves to the child on its own path. */
  lemma {:induction false} LandingNext(height: nat, x: nat, at: nat, t: nat, d: nat)
    requires x < NumLeaves(height) && d < height && OnPath(height, at, x)
    ensures var source, now := NodeAt(height, EvictionLeaf(height, t), d), Landing(height, x, at, t, d);
            Level(source) == d &&
            Landing(height, x, at, t, d + 1)
            == if now == source then 2 * source + 1 + Shr(x, ShiftAt(height, source)) % 2 else now
  {
    hide NodeAt, EvictionLeaf, Shr, Level, Meeting;
    var leaf, k := EvictionLeaf(height, t), Level(at);
    var now := Landing(height, x, at, t, d);
    NodeAtRange(height, leaf, d);
    NodeAtRange(height, x, LandingLevel(height, x, leaf, d));
    SharedLevel(height, x, leaf, k);
    SharedLevel(height, x, leaf, d);
    NodeAtStep(height, x, d);
  }

  lemma {:induction false} DescendStep(cfg: Config, start: map<int, int>, pos: seq<nat>, t: nat, d: nat)
    requires PosOk(cfg, pos) && Homed(cfg, pos, start) && d < cfg.treeHeight
    ensures var source := NodeAt(cfg.treeHeight, EvictionLeaf(cfg.treeHeight, t), d);
            Level(source) == d && Sunk(Descended(cfg, start, pos, t, d), source, pos, ShiftAt(cfg.treeHeight, source))
                                  == Descended(cfg, start, pos, t, d + 1)
  {
    hide NodeAt, EvictionLeaf, Shr, Level, Landing, OnPath;
    SourceLevel(cfg.treeHeight, t, d);
    forall a | a in start
      ensures var source := NodeAt(cfg.treeHeight, EvictionLeaf(cfg.treeHeight, t), d);
              var now := Landing(cfg.treeHeight, pos[a], start[a], t, d);
              Landing(cfg.treeHeight, pos[a], start[a], t, d + 1)
              == if now == source then 2 * source + 1 + Shr(pos[a], ShiftAt(cfg.treeHeight, source)) % 2 else now
    {
      LandingNext(cfg.treeHeight, pos[a], start[a], t, d);
    }
  }

  lemma {:induction false} SourceLevel(height: nat, t: nat, d: nat)
    requires d <= height
    ensures Level(NodeAt(height, EvictionLeaf(height, t), d)) == d
  {
    NodeAtRange(height, EvictionLeaf(height, t), d);
  }

  lemma {:induction false} DescendStart(cfg: Config, start: map<int, int>, pos: seq<nat>, t: nat)
    requires PosOk(cfg, pos) && Homed(cfg, pos, start)
    ensures Descended(cfg, start, pos, t, 0) == start
  {
  }
}
