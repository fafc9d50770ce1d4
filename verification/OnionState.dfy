/** Onion Ring: what the client knows about the server's tree. Every bucket has a row of block ids, one
    per slot, -1 for an empty slot; the row determines what the slots decrypt to. */
module OnionState {
  import opened Bytes
  import opened HeapTree
  import opened IdealCiphertext
  import opened Ram

  datatype Config = Config(z: nat, s: nat, a: nat, treeHeight: nat, numBlocks: nat, blockSize: nat, tlweN: nat) {
    function Slots(): nat
    {
      z + s
    }
  }

  type Row = seq<int>

  const EMPTY := -1

  /** A block as the first coefficients of a plaintext polynomial. */
  function Encode(block: seq<byte>, n: nat): (c: Ciphertext)
    ensures |block| <= n ==> |c| == n
  {
    block + Zeros(if |block| <= n then n - |block| else 0)
  }

  /** The data, byte by byte, and zeros for the other coefficients. */
  ghost predicate FirstCoefficients(c: Ciphertext, data: seq<byte>, n: nat)
  {
    && |data| <= n == |c|
    && (forall i :: 0 <= i < |data| ==> c[i] == data[i]) && (forall i :: |data| <= i < n ==> c[i] == 0)
  }

  /** What the slot of an id decrypts to. */
  function CipherOf(cfg: Config, mem: Memory, id: int): (c: Ciphertext)
  {
    if id < 0 then Zeros(cfg.tlweN) else Encode(Load(mem, id, cfg.blockSize), cfg.tlweN)
  }

  function Cells(cfg: Config, mem: Memory, row: Row): (cells: seq<Ciphertext>)
    ensures |cells| == |row|
    ensures forall k :: 0 <= k < |row| ==> cells[k] == CipherOf(cfg, mem, row[k])
  {
    seq(|row|, k requires 0 <= k < |row| => CipherOf(cfg, mem, row[k]))
  }

  function View(cfg: Config, mem: Memory, ids: seq<Row>): (tree: seq<seq<Ciphertext>>)
    ensures |tree| == |ids|
    ensures forall n :: 0 <= n < |ids| ==> tree[n] == Cells(cfg, mem, ids[n])
  {
    seq(|ids|, n requires 0 <= n < |ids| => Cells(cfg, mem, ids[n]))
  }

  ghost predicate SizesOk(cfg: Config, mem: Memory)
  {
    cfg.blockSize <= cfg.tlweN && forall a :: a in mem ==> a < cfg.numBlocks && |mem[a]| == cfg.blockSize
  }

  /** A tree of the right shape. */
  ghost predicate Grid(cfg: Config, tree: seq<seq<Ciphertext>>)
  {
    && |tree| == NumNodes(cfg.treeHeight)
    && forall n :: 0 <= n < |tree| ==> BucketShape(cfg, tree[n])
  }

  ghost predicate BucketShape(cfg: Config, bucket: seq<Ciphertext>)
  {
    |bucket| == cfg.Slots() && forall k :: 0 <= k < |bucket| ==> |bucket[k]| == cfg.tlweN
  }

  lemma {:induction false} CipherSize(cfg: Config, mem: Memory, id: int)
    requires SizesOk(cfg, mem)
    ensures |CipherOf(cfg, mem, id)| == cfg.tlweN
    ensures id >= 0 ==> CipherOf(cfg, mem, id)[..cfg.blockSize] == Load(mem, id, cfg.blockSize)
  {
  }

  lemma {:induction false} CellsShape(cfg: Config, mem: Memory, row: Row)
    requires SizesOk(cfg, mem) && |row| == cfg.Slots()
    ensures BucketShape(cfg, Cells(cfg, mem, row))
  {
    hide CipherOf;
    forall k | 0 <= k < |row|
      ensures |CipherOf(cfg, mem, row[k])| == cfg.tlweN
    {
      CipherSize(cfg, mem, row[k]);
    }
  }

  // ----- where the blocks are -----

  /** Slots hold nothing or the id of a block, and no id twice. */
  ghost predicate RowOk(cfg: Config, row: Row)
  {
    && |row| == cfg.Slots()
    && (forall k :: 0 <= k < |row| ==> EMPTY <= row[k] < cfg.numBlocks)
    && (forall j, k :: 0 <= j < k < |row| && row[j] == row[k] ==> row[k] == EMPTY)
  }

  ghost predicate RowsOk(cfg: Config, ids: seq<Row>)
  {
    |ids| == NumNodes(cfg.treeHeight) && forall n :: 0 <= n < |ids| ==> RowOk(cfg, ids[n])
  }

  ghost predicate PosOk(cfg: Config, pos: seq<nat>)
  {
    |pos| == cfg.numBlocks && forall a :: 0 <= a < |pos| ==> pos[a] < NumLeaves(cfg.treeHeight)
  }

  /** loc says for every stored id which bucket it is in. */
  ghost predicate Indexed(ids: seq<Row>, loc: map<int, int>)
  {
    forall n, a :: 0 <= n < |ids| && a >= 0 ==> (a in ids[n] <==> a in loc && loc[a] == n)
  }

  /** Every stored id is on the path of its leaf. */
  ghost predicate Homed(cfg: Config, pos: seq<nat>, loc: map<int, int>)
    requires PosOk(cfg, pos)
  {
    forall a :: a in loc ==> 0 <= a < cfg.numBlocks && 0 <= loc[a] < NumNodes(cfg.treeHeight)
                             && OnPath(cfg.treeHeight, loc[a], pos[a])
  }

  /** Every id is in at most one slot, and that slot is on the path of its leaf. */
  ghost predicate Placed(cfg: Config, ids: seq<Row>, pos: seq<nat>, loc: map<int, int>)
  {
    RowsOk(cfg, ids) && PosOk(cfg, pos) && Indexed(ids, loc) && Homed(cfg, pos, loc)
  }

  ghost predicate Blank(row: Row)
  {
    forall k :: 0 <= k < |row| ==> row[k] == EMPTY
  }

  /** The blocks of a bucket. */
  ghost function Members(row: Row): set<int>
  {
    set a | a in row && a >= 0
  }

  function BlankRow(cfg: Config): (row: Row)
    ensures |row| == cfg.Slots() && forall k :: 0 <= k < |row| ==> row[k] == EMPTY
  {
    seq(cfg.Slots(), _ => EMPTY)
  }

  lemma {:induction false} BlankHasNoMembers(row: Row)
    ensures Blank(row) ==> Members(row) == {} && forall a :: a >= 0 ==> a !in row
  {
  }

  // ----- reading a path -----

  /** The selection within the grid. */
  predicate Reaches<T>(grid: seq<seq<T>>, path: seq<nat>, sel: seq<nat>, k: nat)
  {
    k <= |path| && k <= |sel| && forall i :: 0 <= i < k ==> path[i] < |grid| && sel[i] < |grid[path[i]]|
  }

  function PathSum(cfg: Config, tree: seq<seq<Ciphertext>>, path: seq<nat>, sel: seq<nat>, k: nat): (sum: Ciphertext)
    requires Grid(cfg, tree) && Reaches(tree, path, sel, k)
    ensures |sum| == cfg.tlweN
  {
    if k == 0 then Zeros(cfg.tlweN) else Add(PathSum(cfg, tree, path, sel, k - 1), tree[path[k - 1]][sel[k - 1]])
  }

  function Overwrite<T>(grid: seq<seq<T>>, path: seq<nat>, sel: seq<nat>, k: nat, v: T): (r: seq<seq<T>>)
    requires Reaches(grid, path, sel, k)
    ensures |r| == |grid| && forall n :: 0 <= n < |grid| ==> |r[n]| == |grid[n]|
  {
    if k == 0 then grid else
      var r := Overwrite(grid, path, sel, k - 1, v);
      r[path[k - 1] := r[path[k - 1]][sel[k - 1] := v]]
  }

  /** In every bucket of the path the slot of the address, or an empty slot if it is not there. */
  ghost predicate Picked(ids: seq<Row>, path: seq<nat>, addr: int, sel: seq<nat>, k: nat)
  {
    && Reaches(ids, path, sel, k)
    && forall i :: 0 <= i < k ==> ids[path[i]][sel[i]] == if addr in ids[path[i]] then addr else EMPTY
  }

  ghost predicate DistinctNodes(path: seq<nat>)
  {
    forall i, j :: 0 <= i < j < |path| ==> path[i] != path[j]
  }

  /** All other selected slots hold zero, so the sum of the path is the block itself. */
  lemma {:induction false} SumIsTarget(cfg: Config, mem: Memory, ids: seq<Row>, path: seq<nat>, addr: nat,
                                       sel: seq<nat>, k: nat)
    requires SizesOk(cfg, mem) && Grid(cfg, View(cfg, mem, ids)) && Picked(ids, path, addr, sel, k)
    requires DistinctNodes(path)
    requires forall i, j :: 0 <= i < k && 0 <= j < k && addr in ids[path[i]] && addr in ids[path[j]] ==> path[i] == path[j]
    ensures Reaches(View(cfg, mem, ids), path, sel, k)
    ensures PathSum(cfg, View(cfg, mem, ids), path, sel, k)
         == CipherOf(cfg, mem, if exists i :: 0 <= i < k && addr in ids[path[i]] then addr else EMPTY)
  {
    hide CipherOf, Grid, SizesOk;
    if k > 0 {
      SumIsTarget(cfg, mem, ids, path, addr, sel, k - 1);
      CipherSize(cfg, mem, addr);
      EmptyIsZero(cfg, mem);
      AddZero(CipherOf(cfg, mem, addr));
      AddZero(Zeros(cfg.tlweN));
    } else {
      EmptyIsZero(cfg, mem);
    }
  }

  lemma {:induction false} EmptyIsZero(cfg: Config, mem: Memory)
    ensures CipherOf(cfg, mem, EMPTY) == Zeros(cfg.tlweN)
  {
  }

  /** A block that was never written reads as zeros, like an empty slot. */
  lemma {:induction false} UnwrittenIsZero(cfg: Config, mem: Memory, addr: nat)
    requires cfg.blockSize <= cfg.tlweN && addr !in mem
    ensures CipherOf(cfg, mem, addr) == CipherOf(cfg, mem, EMPTY)
  {
  }

  lemma {:induction false} ViewOverwrite(cfg: Config, mem: Memory, ids: seq<Row>, path: seq<nat>, sel: seq<nat>, k: nat)
    requires Reaches(ids, path, sel, k)
    ensures Reaches(View(cfg, mem, ids), path, sel, k)
    ensures Overwrite(View(cfg, mem, ids), path, sel, k, Zeros(cfg.tlweN)) == View(cfg, mem, Overwrite(ids, path, sel, k, EMPTY))
  {
    if k > 0 {
      ViewOverwrite(cfg, mem, ids, path, sel, k - 1);
      var r := Overwrite(ids, path, sel, k - 1, EMPTY);
      CellsUpdate(cfg, mem, r, path[k - 1], sel[k - 1], EMPTY);
    }
  }

  lemma {:induction false} CellsUpdate(cfg: Config, mem: Memory, ids: seq<Row>, n: nat, slot: nat, id: int)
    requires n < |ids| && slot < |ids[n]|
    ensures View(cfg, mem, ids[n := ids[n][slot := id]])
         == View(cfg, mem, ids)[n := View(cfg, mem, ids)[n][slot := CipherOf(cfg, mem, id)]]
  {
    hide CipherOf;
    assert Cells(cfg, mem, ids[n][slot := id]) == Cells(cfg, mem, ids[n])[slot := CipherOf(cfg, mem, id)];
  }

  /** The row without an id. */
  function Without(row: Row, addr: int): (r: Row)
    ensures |r| == |row|
    ensures forall k :: 0 <= k < |row| ==> r[k] == if row[k] == addr then EMPTY else row[k]
  {
    seq(|row|, k requires 0 <= k < |row| => if row[k] == addr then EMPTY else row[k])
  }

  function Dropped(ids: seq<Row>, addr: int): (r: seq<Row>)
    ensures |r| == |ids|
    ensures forall n :: 0 <= n < |ids| ==> r[n] == Without(ids[n], addr)
  {
    seq(|ids|, n requires 0 <= n < |ids| => Without(ids[n], addr))
  }

  lemma {:induction false} PickIsWithout(cfg: Config, ids: seq<Row>, n: nat, addr: nat, slot: nat)
    requires RowsOk(cfg, ids) && n < |ids| && slot < |ids[n]|
    requires ids[n][slot] == if addr in ids[n] then addr else EMPTY
    ensures ids[n][slot := EMPTY] == Without(ids[n], addr)
  {
    assert RowOk(cfg, ids[n]);
  }

  lemma {:induction false} OverwriteDrops(cfg: Config, ids: seq<Row>, path: seq<nat>, addr: nat, sel: seq<nat>,
                                          k: nat, n: nat)
    requires RowsOk(cfg, ids) && Picked(ids, path, addr, sel, k) && DistinctNodes(path) && n < |ids|
    ensures Overwrite(ids, path, sel, k, EMPTY)[n] == if n in path[..k] then Without(ids[n], addr) else ids[n]
  {
    if k > 0 {
      var m, before := path[k - 1], Overwrite(ids, path, sel, k - 1, EMPTY);
      OverwriteDrops(cfg, ids, path, addr, sel, k - 1, n);
      assert Overwrite(ids, path, sel, k, EMPTY) == before[m := before[m][sel[k - 1] := EMPTY]];
      assert path[..k] == path[..k - 1] + [m];
      hide RowsOk, Overwrite;
      if n == m {
        assert n !in path[..k - 1];
        PickIsWithout(cfg, ids, n, addr, sel[k - 1]);
      }
    }
  }

  /** Clearing the picked slots of its path takes the address out of the tree. */
  lemma {:induction false} ClearingDrops(cfg: Config, ids: seq<Row>, path: seq<nat>, addr: nat, sel: seq<nat>)
    requires RowsOk(cfg, ids) && Picked(ids, path, addr, sel, |path|) && DistinctNodes(path)
    requires forall n :: 0 <= n < |ids| && addr in ids[n] ==> n in path
    ensures Overwrite(ids, path, sel, |path|, EMPTY) == Dropped(ids, addr)
  {
    assert path[..|path|] == path;
    forall n | 0 <= n < |ids|
      ensures Overwrite(ids, path, sel, |path|, EMPTY)[n] == Without(ids[n], addr)
    {
      OverwriteDrops(cfg, ids, path, addr, sel, |path|, n);
    }
  }

  lemma {:induction false} WithoutOk(cfg: Config, row: Row, addr: nat)
    requires RowOk(cfg, row)
    ensures RowOk(cfg, Without(row, addr))
    ensures forall a :: a >= 0 ==> (a in Without(row, addr) <==> a in row && a != addr)
    ensures Members(Without(row, addr)) <= Members(row)
    ensures Blank(row) ==> Blank(Without(row, addr))
  {
    forall a | a >= 0 && a in row && a != addr
      ensures a in Without(row, addr)
    {
      var k :| 0 <= k < |row| && row[k] == a;
      assert Without(row, addr)[k] == a;
    }
  }

  /** The address in nobody's bucket, with a new leaf. */
  lemma {:induction false} DroppedPlaced(cfg: Config, ids: seq<Row>, pos: seq<nat>, loc: map<int, int>, addr: nat,
                                         leaf: nat)
    requires Placed(cfg, ids, pos, loc) && addr < cfg.numBlocks && leaf < NumLeaves(cfg.treeHeight)
    ensures Placed(cfg, Dropped(ids, addr), pos[addr := leaf], loc - {addr})
  {
    hide RowOk, OnPath;
    forall n | 0 <= n < |ids|
      ensures RowOk(cfg, Without(ids[n], addr))
      ensures forall a :: a >= 0 ==> (a in Without(ids[n], addr) <==> a in ids[n] && a != addr)
    {
      WithoutOk(cfg, ids[n], addr);
    }
  }

  /** Putting an address that is nowhere into an empty slot of the root. */
  lemma {:induction false} RootInsertPlaced(cfg: Config, ids: seq<Row>, pos: seq<nat>, loc: map<int, int>, addr: nat,
                                            slot: nat)
    requires Placed(cfg, ids, pos, loc) && addr < cfg.numBlocks && addr !in loc
    requires slot < |ids[0]| && ids[0][slot] == EMPTY
    ensures Placed(cfg, ids[0 := ids[0][slot := addr]], pos, loc[addr := 0])
    ensures Members(ids[0][slot := addr]) == Members(ids[0]) + {addr}
  {
    hide OnPath;
    var row := ids[0][slot := addr];
    InsertedMembers(ids[0], slot, addr);
    assert addr !in ids[0];
    RootOnPath(cfg.treeHeight, pos[addr]);
  }

  lemma {:induction false} InsertedMembers(row: Row, slot: nat, addr: nat)
    requires slot < |row| && row[slot] == EMPTY
    ensures forall a :: a >= 0 ==> (a in row[slot := addr] <==> a in row || a == addr)
  {
    var r := row[slot := addr];
    forall a | a >= 0 && a in row
      ensures a in r
    {
      var k :| 0 <= k < |row| && row[k] == a;
      assert r[k] == a;
    }
    assert r[slot] == addr;
  }

  lemma {:induction false} RootOnPath(height: nat, leaf: nat)
    requires leaf < NumLeaves(height)
    ensures OnPath(height, 0, leaf)
  {
    NodeAtRange(height, leaf, 0);
    ParentOnPath(height, leaf, 0);
  }

  /** A write to an address that is nowhere does not change what the tree holds. */
  lemma {:induction false} ViewIgnoresAbsent(cfg: Config, mem: Memory, mem': Memory, ids: seq<Row>, addr: nat)
    requires forall a: nat :: a != addr ==> Load(mem', a, cfg.blockSize) == Load(mem, a, cfg.blockSize)
    requires forall n :: 0 <= n < |ids| ==> addr !in ids[n]
    ensures View(cfg, mem', ids) == View(cfg, mem, ids)
  {
    hide Load;
    forall n, k | 0 <= n < |ids| && 0 <= k < |ids[n]|
      ensures CipherOf(cfg, mem', ids[n][k]) == CipherOf(cfg, mem, ids[n][k])
    {
      assert ids[n][k] in ids[n];
    }
    forall n | 0 <= n < |ids|
      ensures Cells(cfg, mem', ids[n]) == Cells(cfg, mem, ids[n])
    {
    }
  }
}
