/** Onion Ring: the server. It adds up one slot per bucket of a path, clears and replaces slots, and can
    rebuild the two children of a bucket by itself from slot lists and encrypted swap bits. */
module OnionServers {
  import opened Bytes
  import opened HeapTree
  import opened IdealCiphertext
  import opened OnionEviction
  import opened OnionSchedule
  import opened OnionState
  import opened Permutations
  import opened Ram
  import opened Results
  import opened Waksman
  import opened WaksmanNetworks

  /** What a client sends for one child of a triplet. */
  datatype ChildUpdate = ChildUpdate(sourceSlots: seq<nat>, childSlots: seq<nat>, swapBits: seq<bool>)

  function BlankBucket(cfg: Config): (bucket: seq<Ciphertext>)
    ensures |bucket| == cfg.Slots() && forall k :: 0 <= k < |bucket| ==> bucket[k] == Zeros(cfg.tlweN)
  {
    seq(cfg.Slots(), _ => Zeros(cfg.tlweN))
  }

  predicate RightBitCount(n: nat, bits: seq<bool>)
  {
    n >= 2 && |bits| == n * (n - 1) / 2
  }

  predicate SlotsExist(cfg: Config, u: ChildUpdate)
  {
    Within(u.sourceSlots, cfg.Slots()) && Within(u.childSlots, cfg.Slots())
  }

  predicate UpdateOk(cfg: Config, u: ChildUpdate)
  {
    SlotsExist(cfg, u) && |u.sourceSlots| + |u.childSlots| <= cfg.Slots() && RightBitCount(cfg.Slots(), u.swapBits)
  }

  function Assembled(cfg: Config, source: seq<Ciphertext>, child: seq<Ciphertext>, u: ChildUpdate): (r: seq<Ciphertext>)
    requires |source| == |child| == cfg.Slots() && SlotsExist(cfg, u)
  {
    Padded(Pushed(source, u.sourceSlots, child, u.childSlots), cfg.Slots(), Zeros(cfg.tlweN))
  }

  /** A bucket routed through the swap network. */
  ghost predicate Routed(before: seq<Ciphertext>, bits: seq<bool>, after: seq<Ciphertext>)
  {
    && Adjacent(Network(|before|, 0, 0), |before|) && |bits| == |Network(|before|, 0, 0)|
    && after == Route(before, Network(|before|, 0, 0), bits)
  }

  ghost predicate TripletServed(cfg: Config, tree: seq<seq<Ciphertext>>, source: nat, left: nat, right: nat,
                                leftUpdate: ChildUpdate, rightUpdate: ChildUpdate, tree': seq<seq<Ciphertext>>)
    requires Grid(cfg, tree) && source < |tree| && left < |tree| && right < |tree|
  {
    && UpdateOk(cfg, leftUpdate) && UpdateOk(cfg, rightUpdate)
    && exists newLeft, newRight ::
         ServedWith(cfg, tree, source, left, right, leftUpdate, rightUpdate, newLeft, newRight, tree')
  }

  /** The handler's steps: the left child, then the right child, then the source. */
  ghost predicate ServedWith(cfg: Config, tree: seq<seq<Ciphertext>>, source: nat, left: nat, right: nat,
                             leftUpdate: ChildUpdate, rightUpdate: ChildUpdate, newLeft: seq<Ciphertext>,
                             newRight: seq<Ciphertext>, tree': seq<seq<Ciphertext>>)
    requires Grid(cfg, tree) && source < |tree| && left < |tree| && right < |tree|
    requires UpdateOk(cfg, leftUpdate) && UpdateOk(cfg, rightUpdate)
  {
    && |newLeft| == |newRight| == cfg.Slots()
    && Routed(Assembled(cfg, tree[source], tree[left], leftUpdate), leftUpdate.swapBits, newLeft)
    && Routed(Assembled(cfg, tree[left := newLeft][source], tree[left := newLeft][right], rightUpdate),
              rightUpdate.swapBits, newRight)
    && tree' == tree[left := newLeft][right := newRight][source := BlankBucket(cfg)]
  }

  ghost predicate FirstBad(cfg: Config, selections: seq<nat>, i: nat)
  {
    i < |selections| && selections[i] >= cfg.Slots() && forall j :: 0 <= j < i ==> selections[j] < cfg.Slots()
  }

  /** A leaf and the leaf's low digits have the same digits that a path is made of. */
  lemma {:induction false} SameDigit(height: nat, leaf: nat, k: nat)
    requires k < height
    ensures Shr(leaf, k) % 2 == Shr(leaf % Pow2(height), k) % 2
  {
    hide Shr, Pow2, Reverse;
    var low := leaf % Pow2(height);
    ReverseOfLow(leaf, height);
    ReversePrefix(leaf, height, height - k - 1);
    ReversePrefix(low, height, height - k - 1);
    ReverseLast(leaf, k);
    ReverseLast(low, k);
  }

  lemma {:induction false} AssembledSize(cfg: Config, source: seq<Ciphertext>, child: seq<Ciphertext>, u: ChildUpdate)
    requires |source| == |child| == cfg.Slots() && SlotsExist(cfg, u)
    ensures var n := |u.sourceSlots| + |u.childSlots|;
            |Assembled(cfg, source, child, u)| == if n <= cfg.Slots() then cfg.Slots() else n
  {
  }

  /** Routing moves ciphertexts and does not change their size. */
  lemma {:induction false} RoutedSizes(before: seq<Ciphertext>, bits: seq<bool>, after: seq<Ciphertext>, n: nat)
    requires Routed(before, bits, after) && forall i :: 0 <= i < |before| ==> |before[i]| == n
    ensures forall i :: 0 <= i < |after| ==> |after[i]| == n
  {
    RouteSizes(before, Network(|before|, 0, 0), bits, n);
  }

  lemma {:induction false} RouteSizes(cells: seq<Ciphertext>, gates: seq<Gate>, bits: seq<bool>, n: nat)
    requires Adjacent(gates, |cells|) && |bits| == |gates| && forall i :: 0 <= i < |cells| ==> |cells[i]| == n
    ensures forall i :: 0 <= i < |cells| ==> |Route(cells, gates, bits)[i]| == n
    decreases |gates|
  {
    if gates != [] {
      RouteSizes(if bits[0] then Swap(cells, gates[0]) else cells, gates[1..], bits[1..], n);
    }
  }

  lemma {:induction false} RowSize(cfg: Config, ids: seq<Row>, n: nat)
    requires RowsOk(cfg, ids) && n < |ids|
    ensures |ids[n]| == cfg.Slots()
  {
  }

  lemma {:induction false} BlankCells(cfg: Config, mem: Memory, row: Row)
    requires Blank(row) && |row| == cfg.Slots()
    ensures Cells(cfg, mem, row) == BlankBucket(cfg)
  {
    EmptyIsZero(cfg, mem);
  }

  class OnionRingServer {
    const cfg: Config
    var tree: seq<seq<Ciphertext>>

    ghost predicate Initialized()
      reads this
    {
      Grid(cfg, tree)
    }

    constructor (cfg: Config)
      ensures this.cfg == cfg && tree == []
    {
      this.cfg, tree := cfg, [];
    }

    method Init()
      modifies this
      ensures Initialized()
      ensures forall n :: 0 <= n < |tree| ==> tree[n] == BlankBucket(cfg)
    {
      tree := [];
      for i := 0 to NumNodes(cfg.treeHeight)
        invariant |tree| == i && forall n :: 0 <= n < i ==> tree[n] == BlankBucket(cfg)
      {
        tree := tree + [BlankBucket(cfg)];
      }
    }

    /** Only the low digits of a leaf matter. */
    method GetPathIndices(leaf: nat) returns (path: seq<nat>)
      ensures path == PathNodes(cfg.treeHeight, leaf % NumLeaves(cfg.treeHeight))
      ensures DistinctNodes(path) && forall i :: 0 <= i < |path| ==> path[i] < NumNodes(cfg.treeHeight)
    {
      ghost var low := leaf % NumLeaves(cfg.treeHeight);
      var node := 0;
      path := [node];
      ShrZero(low, cfg.treeHeight);
      for level := 0 to cfg.treeHeight
        invariant |path| == level + 1 && node == NodeAt(cfg.treeHeight, low, level)
        invariant forall l :: 0 <= l <= level ==> path[l] == NodeAt(cfg.treeHeight, low, l)
      {
        NodeAtStep(cfg.treeHeight, low, level);
        SameDigit(cfg.treeHeight, leaf, cfg.treeHeight - 1 - level);
        var bit := Shr(leaf, cfg.treeHeight - 1 - level) % 2;
        node := 2 * node + 1 + bit;
        path := path + [node];
      }
      PathDistinct(cfg.treeHeight, low);
    }

    /** The sum of the selected slots of a path. */
    method HandleAccess(leaf: nat, selections: seq<nat>) returns (r: Result<Ciphertext>)
      requires Initialized() && |selections| == cfg.treeHeight + 1
      ensures r.Success? <==> Within(selections, cfg.Slots())
      ensures r.Failure? ==> r.error == OutOfRange
      ensures r.Success? ==>
                var path := PathNodes(cfg.treeHeight, leaf % NumLeaves(cfg.treeHeight));
                Reaches(tree, path, selections, |path|) && r.value == PathSum(cfg, tree, path, selections, |path|)
    {
      hide PathNodes, NodeAt;
      var path := GetPathIndices(leaf);
      for i := 0 to |path|
        invariant forall j :: 0 <= j < i ==> selections[j] < cfg.Slots()
      {
        if selections[i] >= cfg.Slots() { return Failure(OutOfRange); }
      }
      var accumulator := Zeros(cfg.tlweN);
      for i := 0 to |path|
        invariant Reaches(tree, path, selections, i) && accumulator == PathSum(cfg, tree, path, selections, i)
      {
        accumulator := Add(accumulator, tree[path[i]][selections[i]]);
      }
      return Success(accumulator);
    }

    /** Clears the selected slots, up to the first selection that is out of range. */
    method HandleClearPath(leaf: nat, selections: seq<nat>) returns (r: Result<()>)
      requires Initialized() && |selections| == cfg.treeHeight + 1
      modifies this
      ensures r.Success? <==> Within(selections, cfg.Slots())
      ensures var path := PathNodes(cfg.treeHeight, leaf % NumLeaves(cfg.treeHeight));
              exists k :: Reaches(old(tree), path, selections, k)
                          && (if r.Success? then k == |path| else r.error == OutOfRange && FirstBad(cfg, selections, k))
                          && tree == Overwrite(old(tree), path, selections, k, Zeros(cfg.tlweN))
    {
      hide PathNodes, NodeAt;
      var path := GetPathIndices(leaf);
      ghost var before := tree;
      for i := 0 to |path|
        invariant forall j :: 0 <= j < i ==> selections[j] < cfg.Slots()
        invariant Reaches(before, path, selections, i)
        invariant tree == Overwrite(before, path, selections, i, Zeros(cfg.tlweN))
      {
        if selections[i] >= cfg.Slots() {
          assert FirstBad(cfg, selections, i);
          return Failure(OutOfRange);
        }
        tree := tree[path[i] := tree[path[i]][selections[i] := Zeros(cfg.tlweN)]];
      }
      return Success(());
    }

    method HandleReadBucket(n: nat) returns (r: Result<seq<Ciphertext>>)
      ensures r == if n < |tree| then Success(tree[n]) else Failure(OutOfRange)
    {
      if n >= |tree| { return Failure(OutOfRange); }
      var bucket: seq<Ciphertext> := [];
      for slot := 0 to |tree[n]|
        invariant bucket == tree[n][..slot]
      {
        bucket := bucket + [tree[n][slot]];
      }
      assert tree[n][..|tree[n]|] == tree[n];
      return Success(bucket);
    }

    method HandleWriteSlot(n: nat, slot: nat, ciphertext: Ciphertext) returns (r: Result<()>)
      modifies this
      ensures r.Success? <==> n < old(|tree|) && slot < |old(tree)[n]|
      ensures r.Failure? ==> r.error == OutOfRange && tree == old(tree)
      ensures r.Success? ==> tree == old(tree)[n := old(tree)[n][slot := ciphertext]]
    {
      if n >= |tree| || slot >= |tree[n]| { return Failure(OutOfRange); }
      tree := tree[n := tree[n][slot := ciphertext]];
      return Success(());
    }

    /** Copies the listed slots of the source and then of the child, and pads with zeros. */
    method AssembleChildSlots(source: nat, child: nat, u: ChildUpdate) returns (r: Result<seq<Ciphertext>>)
      requires Initialized() && source < |tree| && child < |tree|
      ensures r.Success? <==> SlotsExist(cfg, u)
      ensures r.Failure? ==> r.error == OutOfRange
      ensures r.Success? ==> r.value == Assembled(cfg, tree[source], tree[child], u)
      ensures r.Success? ==> forall i :: 0 <= i < |r.value| ==> |r.value[i]| == cfg.tlweN
    {
      var fromSource :- CopySlots(source, u.sourceSlots);
      var fromChild :- CopySlots(child, u.childSlots);
      var assembled := fromSource + fromChild;
      while |assembled| < cfg.Slots()
        invariant |assembled| >= |fromSource| + |fromChild|
        invariant |assembled| > |fromSource| + |fromChild| ==> |assembled| <= cfg.Slots()
        invariant assembled == Padded(fromSource + fromChild, |assembled|, Zeros(cfg.tlweN))
      {
        assembled := assembled + [Zeros(cfg.tlweN)];
      }
      return Success(assembled);
    }

    method CopySlots(n: nat, slots: seq<nat>) returns (r: Result<seq<Ciphertext>>)
      requires Initialized() && n < |tree|
      ensures r.Success? <==> Within(slots, cfg.Slots())
      ensures r.Failure? ==> r.error == OutOfRange
      ensures r.Success? ==> r.value == Permuted(tree[n], slots)
      ensures r.Success? ==> forall i :: 0 <= i < |r.value| ==> |r.value[i]| == cfg.tlweN
    {
      var copied: seq<Ciphertext> := [];
      for i := 0 to |slots|
        invariant |copied| == i && forall j :: 0 <= j < i ==> slots[j] < cfg.Slots() && copied[j] == tree[n][slots[j]]
      {
        if slots[i] >= |tree[n]| { return Failure(OutOfRange); }
        copied := copied + [tree[n][slots[i]]];
      }
      return Success(copied);
    }

    /** Routes the ciphertexts through the network; fails unless there is one bit per gate. */
    static method Shuffle(cells: seq<Ciphertext>, bits: seq<bool>, n: nat) returns (r: Result<seq<Ciphertext>>)
      requires forall i :: 0 <= i < |cells| ==> |cells[i]| == n
      ensures r.Success? <==> RightBitCount(|cells|, bits)
      ensures r.Failure? ==> r.error == InvalidArgument
      ensures r.Success? ==> Routed(cells, bits, r.value) && |r.value| == |cells|
    {
      hide Network, Route;
      var data := new Ciphertext[|cells|](i requires 0 <= i < |cells| => cells[i]);
      assert data[..] == cells;
      var done :- WaksmanNetwork.EvalWaksman(data, bits);
      return Success(data[..]);
    }

    /** Replaces one child of a triplet. */
    method ReceiveChildUpdate(source: nat, child: nat, u: ChildUpdate) returns (r: Result<()>)
      requires Initialized() && source < |tree| && child < |tree|
      modifies this
      ensures Initialized() && (r.Success? <==> UpdateOk(cfg, u))
      ensures r.Failure? ==> tree == old(tree) && r.error == if SlotsExist(cfg, u) then InvalidArgument else OutOfRange
      ensures r.Success? ==> tree == old(tree)[child := tree[child]]
      ensures r.Success? ==> Routed(Assembled(cfg, old(tree)[source], old(tree)[child], u), u.swapBits, tree[child])
    {
      hide Routed, Padded, Pushed;
      var assembled :- AssembleChildSlots(source, child, u);
      AssembledSize(cfg, tree[source], tree[child], u);
      var shuffled :- Shuffle(assembled, u.swapBits, cfg.tlweN);
      if |tree[child]| != |shuffled| { return Failure(InvalidArgument); }
      RoutedSizes(assembled, u.swapBits, shuffled, cfg.tlweN);
      tree := tree[child := shuffled];
      return Success(());
    }

    /** Rebuilds both children from the source and clears it. */
    method HandleEvictTriplet(source: nat, left: nat, right: nat, leftUpdate: ChildUpdate, rightUpdate: ChildUpdate)
      returns (r: Result<()>)
      requires Initialized()
      modifies this
      ensures Initialized()
      ensures r.Success? <==> source < old(|tree|) && left < old(|tree|) && right < old(|tree|)
                              && UpdateOk(cfg, leftUpdate) && UpdateOk(cfg, rightUpdate)
      ensures r.Success? ==> TripletServed(cfg, old(tree), source, left, right, leftUpdate, rightUpdate, tree)
    {
      hide Routed, Assembled;
      if source >= |tree| || left >= |tree| || right >= |tree| { return Failure(OutOfRange); }
      ghost var before := tree;
      var done :- ReceiveChildUpdate(source, left, leftUpdate);
      ghost var between := tree;
      done :- ReceiveChildUpdate(source, right, rightUpdate);
      ghost var after := tree;
      ClearBucket(source);
      assert between == before[left := between[left]] && after == between[right := after[right]];
      assert ServedWith(cfg, before, source, left, right, leftUpdate, rightUpdate, between[left], after[right], tree);
      return Success(());
    }

    method ClearBucket(n: nat)
      requires Initialized() && n < |tree|
      modifies this
      ensures Initialized() && tree == old(tree)[n := BlankBucket(cfg)]
    {
      ghost var before := tree;
      for slot := 0 to |tree[n]|
        invariant |tree| == |before| && |tree[n]| == cfg.Slots()
        invariant forall k :: 0 <= k < slot ==> tree[n][k] == Zeros(cfg.tlweN)
        invariant tree == before[n := tree[n]]
      {
        tree := tree[n := tree[n][slot := Zeros(cfg.tlweN)]];
      }
      assert tree[n] == BlankBucket(cfg);
    }

    /** Replaces a leaf bucket by the client's fresh encryptions, shuffled. */
    method HandleLeafRefresh(n: nat, refreshed: seq<Ciphertext>, swapBits: seq<bool>) returns (r: Result<()>)
      requires Initialized() && BucketShape(cfg, refreshed)
      modifies this
      ensures Initialized()
      ensures r.Success? <==> n < old(|tree|) && RightBitCount(cfg.Slots(), swapBits)
      ensures r.Failure? ==> tree == old(tree) && r.error == if n >= |tree| then OutOfRange else InvalidArgument
      ensures r.Success? ==> tree == old(tree)[n := tree[n]] && Routed(refreshed, swapBits, tree[n])
    {
      hide Routed;
      if n >= |tree| { return Failure(OutOfRange); }
      var shuffled :- Shuffle(refreshed, swapBits, cfg.tlweN);
      RoutedSizes(refreshed, swapBits, shuffled, cfg.tlweN);
      tree := tree[n := shuffled];
      return Success(());
    }
  }

  // ----- the server's rebuild and the client's -----

  /** What the client's lists and bits for one child say. */
  ghost predicate Describes(source: Row, child: Row, pos: seq<nat>, shift: nat, right: bool, perm: seq<nat>,
                            u: ChildUpdate)
  {
    && Known(source, pos)
    && u.sourceSlots == SlotsGoing(source, pos, shift, right, |source|) && u.childSlots == RealSlots(child, |child|)
    && Adjacent(Network(|child|, 0, 0), |child|) && |u.swapBits| == |Network(|child|, 0, 0)|
    && Route(Iota(|child|), Network(|child|, 0, 0), u.swapBits) == perm
  }

  /** One child: the handler's bucket is the one the client would write. */
  lemma {:induction false} ChildAgrees(cfg: Config, mem: Memory, source: Row, child: Row, pos: seq<nat>, shift: nat,
                                       right: bool, perm: seq<nat>, after: Row, u: ChildUpdate,
                                       served: seq<Ciphertext>)
    requires |source| == |child| == cfg.Slots() >= 2
    requires ChildAfter(source, child, pos, shift, right, perm, after)
    requires Describes(source, child, pos, shift, right, perm, u)
    ensures UpdateOk(cfg, u)
    ensures Routed(Assembled(cfg, Cells(cfg, mem, source), Cells(cfg, mem, child), u), u.swapBits, served)
            ==> served == Cells(cfg, mem, after)
  {
    hide Network, Route, SlotsGoing, RealSlots, Cells, Permuted, IsPermutation;
    GateCount(cfg.Slots());
    CellsPushed(cfg, mem, source, u.sourceSlots, child, u.childSlots);
    CellsPadded(cfg, mem, Inputs(source, child, pos, shift, right), cfg.Slots());
    var full := Padded(Inputs(source, child, pos, shift, right), cfg.Slots(), EMPTY);
    PermutationWithin(perm);
    CellsPermuted(cfg, mem, full, perm);
    RouteRealises(Cells(cfg, mem, full), perm, u.swapBits);
  }

  lemma {:induction false} PermutationWithin(perm: seq<nat>)
    requires IsPermutation(perm)
    ensures Within(perm, |perm|)
  {
  }

  /** Given slot lists in the client's order and the swap bits of its permutations, the server's handler
      leaves exactly what the client-assisted eviction leaves. */
  lemma {:induction false} TripletAgrees(cfg: Config, mem: Memory, ids: seq<Row>, pos: seq<nat>, loc: map<int, int>,
                                         source: nat, leftPerm: seq<nat>, rightPerm: seq<nat>, ids': seq<Row>,
                                         leftUpdate: ChildUpdate, rightUpdate: ChildUpdate,
                                         served: seq<seq<Ciphertext>>)
    requires SizesOk(cfg, mem) && cfg.Slots() >= 2 && Grid(cfg, View(cfg, mem, ids)) && Placed(cfg, ids, pos, loc)
    requires TripletAfter(cfg.treeHeight, ids, pos, source, leftPerm, rightPerm, ids')
    requires Describes(ids[source], ids[2 * source + 1], pos, ShiftAt(cfg.treeHeight, source), false, leftPerm, leftUpdate)
    requires Describes(ids[source], ids[2 * source + 2], pos, ShiftAt(cfg.treeHeight, source), true, rightPerm, rightUpdate)
    ensures UpdateOk(cfg, leftUpdate) && UpdateOk(cfg, rightUpdate)
    ensures TripletServed(cfg, View(cfg, mem, ids), source, 2 * source + 1, 2 * source + 2, leftUpdate, rightUpdate, served)
            ==> served == View(cfg, mem, ids')
  {
    hide Routed, Assembled, ChildAfter, Describes, UpdateOk, CipherOf, SizesOk, Indexed, Homed, RowOk, BucketShape;
    var tree, left, right := View(cfg, mem, ids), 2 * source + 1, 2 * source + 2;
    var shift := ShiftAt(cfg.treeHeight, source);
    RowSize(cfg, ids, source);
    RowSize(cfg, ids, left);
    RowSize(cfg, ids, right);
    ChildAgrees(cfg, mem, ids[source], ids[left], pos, shift, false, leftPerm, ids'[left], leftUpdate, []);
    ChildAgrees(cfg, mem, ids[source], ids[right], pos, shift, true, rightPerm, ids'[right], rightUpdate, []);
    if TripletServed(cfg, tree, source, left, right, leftUpdate, rightUpdate, served) {
      var newLeft, newRight :|
        ServedWith(cfg, tree, source, left, right, leftUpdate, rightUpdate, newLeft, newRight, served);
      ChildAgrees(cfg, mem, ids[source], ids[left], pos, shift, false, leftPerm, ids'[left], leftUpdate, newLeft);
      ChildAgrees(cfg, mem, ids[source], ids[right], pos, shift, true, rightPerm, ids'[right], rightUpdate, newRight);
      BlankCells(cfg, mem, ids'[source]);
      assert served == View(cfg, mem, ids');
    }
  }
}
