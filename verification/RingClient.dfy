/** Ring ORAM: the client. Together with the server it answers like a plain memory, it never runs out of
    dummy slots, and what the server sees depends on the leaves read only. */
module RingClients {
  import opened Bytes
  import opened CtrCipher
  import opened HeapTree
  import opened LittleEndian
  import opened Placement
  import opened Ram
  import opened Results
  import opened RingBuckets
  import opened RingHistory
  import opened RingPlacement
  import opened RingPressed
  import opened RingServers
  import opened RingState
  import opened RingTrace
  import opened RingView

  /** What the client sees of a bucket's metadata: a bucket without payloads. */
  function DecryptMetadata(cfg: Config, c: Cipher, m: Metadata): Bucket
  {
    Bucket(m.count, m.valids, OpenNumbers(c, m.addrs), OpenNumbers(c, m.leaves), OpenNumbers(c, m.ptrs),
           seq(cfg.Slots(), _ => DummyBlock(cfg.blockSize)))
  }

  /** Payloads do not matter for choosing a slot. */
  lemma {:induction false} MetadataSuffices(cfg: Config, c: Cipher, e: EncryptedRingBucket, addr: nat)
    requires StoredOk(cfg, c, e) && Distinct(UnreadOf(cfg, c, e))
    ensures var b, m := Decrypted(cfg, c, e), DecryptMetadata(cfg, c, MetadataOf(e));
            && Indexed(cfg, m)
            && (forall slot :: Readable(cfg, m, addr, slot) <==> Readable(cfg, b, addr, slot))
            && (HasLive(cfg, m, addr) <==> HasLive(cfg, b, addr))
            && (b.count < cfg.s ==> exists slot :: Spare(cfg, m, slot))
  {
    hide Labelled, LiveBlocks;
    var b, m := Decrypted(cfg, c, e), DecryptMetadata(cfg, c, MetadataOf(e));
    DistinctIndexed(cfg, b);
    assert forall i :: 0 <= i < cfg.z ==> (Live(cfg, m, i) <==> Live(cfg, b, i));
    if b.count < cfg.s {
      var slot := SpareSlot(cfg, b);
      assert Spare(cfg, m, slot);
    }
  }

  /** Unread, and not the slot of an unread block. */
  predicate Spare(cfg: Config, b: Bucket, slot: nat)
    requires Shaped(cfg, b)
  {
    slot < cfg.Slots() && b.valids[slot] && forall i :: 0 <= i < cfg.z && Live(cfg, b, i) ==> b.ptrs[i] != slot
  }

  method ValidRealOffsets(cfg: Config, b: Bucket) returns (offsets: seq<nat>)
    requires Shaped(cfg, b)
    ensures forall slot :: slot in offsets <==> exists i :: 0 <= i < cfg.z && Live(cfg, b, i) && b.ptrs[i] == slot
  {
    offsets := [];
    for i := 0 to |b.addrs|
      invariant forall slot :: slot in offsets <==> exists j :: 0 <= j < i && Live(cfg, b, j) && b.ptrs[j] == slot
    {
      var offset := b.ptrs[i];
      if b.addrs[i] != DUMMY && offset < |b.valids| && b.valids[offset] {
        assert Live(cfg, b, i);
        offsets := offsets + [offset];
      }
    }
  }

  method ValidDummyOffsets(cfg: Config, b: Bucket) returns (offsets: seq<nat>)
    requires Shaped(cfg, b)
    ensures forall slot :: slot in offsets <==> Spare(cfg, b, slot)
  {
    var realOffsets := ValidRealOffsets(cfg, b);
    offsets := [];
    for slot := 0 to |b.valids|
      invariant forall o: nat :: o in offsets <==> o < slot && Spare(cfg, b, o)
    {
      if b.valids[slot] && slot !in realOffsets {
        assert Spare(cfg, b, slot);
        offsets := offsets + [slot];
      }
    }
  }

  /** The slot of the address if it is here and unread, else an arbitrary spare slot. */
  method GetBlockOffset(cfg: Config, b: Bucket, addr: nat) returns (r: Result<nat>)
    requires Indexed(cfg, b) && addr != DUMMY
    ensures r.Success? <==> HasLive(cfg, b, addr) || exists slot :: Spare(cfg, b, slot)
    ensures r.Success? ==> Readable(cfg, b, addr, r.value)
    ensures r.Failure? ==> r.error == RuntimeError
  {
    for i := 0 to |b.addrs|
      invariant forall j :: 0 <= j < i && Live(cfg, b, j) ==> b.addrs[j] != addr
    {
      var offset := b.ptrs[i];
      if b.addrs[i] == addr && offset < |b.valids| && b.valids[offset] {
        assert Live(cfg, b, i);
        return Success(offset);
      }
    }
    var dummies := ValidDummyOffsets(cfg, b);
    if |dummies| == 0 { return Failure(RuntimeError); }
    var pick :| 0 <= pick < |dummies|;
    assert dummies[pick] in dummies;
    return Success(dummies[pick]);
  }

  lemma {:induction false} CountIs(cfg: Config, c: Cipher, e: EncryptedRingBucket)
    requires EncryptedShape(cfg, e)
    ensures Decrypted(cfg, c, e).count == e.count
  {
  }

  /** Whether the chosen slot is that of the address itself. */
  method IsTarget(cfg: Config, b: Bucket, addr: nat, offset: nat) returns (selected: bool)
    requires Indexed(cfg, b) && Readable(cfg, b, addr, offset) && addr != DUMMY
    ensures selected <==> HasLive(cfg, b, addr)
  {
    selected := false;
    for i := 0 to |b.addrs|
      invariant !selected && forall j :: 0 <= j < i && Live(cfg, b, j) ==> b.addrs[j] != addr
    {
      if b.addrs[i] == addr && b.ptrs[i] == offset && b.valids[offset] {
        assert Live(cfg, b, i);
        return true;
      }
    }
  }

  /** Moving buckets never leaves a block in the client's hands. */
  ghost predicate NoNewLimbo(before: map<nat, int>, after: map<nat, int>)
  {
    before.Keys == after.Keys && forall a :: a in after && after[a] == LIMBO ==> before[a] == LIMBO
  }

  lemma {:induction false} NoLimboSteps(a: map<nat, int>, b: map<nat, int>, c: map<nat, int>)
    ensures NoNewLimbo(a, a)
    ensures NoNewLimbo(a, b) && NoNewLimbo(b, c) ==> NoNewLimbo(a, c)
  {
  }

  lemma {:induction false} LiveNext(cfg: Config, b: Bucket, i: nat)
    requires Shaped(cfg, b) && i < cfg.z
    ensures LiveBlocks(cfg, b, i + 1) == LiveBlocks(cfg, b, i) + if Live(cfg, b, i) then [b.data[b.ptrs[i]]] else []
    ensures LiveBlocks(cfg, b, 0) == []
  {
  }

  lemma {:induction false} LivePrefix(cfg: Config, b: Bucket, i: nat, k: nat)
    requires Shaped(cfg, b) && i <= k <= cfg.z
    ensures LiveBlocks(cfg, b, i) <= LiveBlocks(cfg, b, k)
  {
    if i < k { LivePrefix(cfg, b, i, k - 1); }
  }

  /** The collecting loop after i entries: their unread blocks have been pushed and their slots marked. */
  ghost predicate Collecting(cfg: Config, b: Bucket, before: seq<RingBlock>, stash: seq<RingBlock>, valids: seq<bool>,
                             taken: nat, i: nat)
  {
    && BucketOk(cfg, b) && Distinct(before + LiveBlocks(cfg, b, cfg.z)) && i <= cfg.z
    && stash == before + LiveBlocks(cfg, b, i) && taken == |LiveBlocks(cfg, b, i)|
    && |valids| == cfg.Slots() && CountFalse(valids) == b.count + taken
    && (forall j :: i <= j < cfg.z ==> valids[b.ptrs[j]] == b.valids[b.ptrs[j]])
    && (forall j :: 0 <= j < i && b.addrs[j] != DUMMY ==> !valids[b.ptrs[j]])
  }

  lemma {:induction false} CollectStart(cfg: Config, b: Bucket, stash: seq<RingBlock>)
    requires BucketOk(cfg, b) && Distinct(stash + LiveBlocks(cfg, b, cfg.z))
    ensures Collecting(cfg, b, stash, stash, b.valids, 0, 0) && |b.addrs| == cfg.z
  {
    hide CountFalse, Padding;
    assert LiveBlocks(cfg, b, 0) == [];
  }

  lemma {:induction false} CollectEnd(cfg: Config, b: Bucket, before: seq<RingBlock>, stash: seq<RingBlock>,
                                      valids: seq<bool>, taken: nat)
    requires Collecting(cfg, b, before, stash, valids, taken, |b.addrs|)
    ensures stash == before + LiveBlocks(cfg, b, cfg.z)
    ensures taken <= cfg.z && |valids| == cfg.Slots() && CountFalse(valids) == b.count + taken
    ensures Shaped(cfg, b.(valids := valids))
    ensures forall i :: 0 <= i < cfg.z ==> !Live(cfg, b.(valids := valids), i)
  {
    hide LiveBlocks, CountFalse;
  }

  /** One entry: a dead one changes nothing, a live one pushes its block, of which the stash has no copy. */
  lemma {:induction false} CollectStep(cfg: Config, b: Bucket, before: seq<RingBlock>, stash: seq<RingBlock>,
                                       valids: seq<bool>, taken: nat, i: nat)
    requires Collecting(cfg, b, before, stash, valids, taken, i) && i < |b.addrs|
    ensures |b.addrs| == |b.ptrs| == |b.leaves| && b.ptrs[i] < |b.data| == |valids|
    ensures b.addrs[i] == DUMMY || !valids[b.ptrs[i]] ==> Collecting(cfg, b, before, stash, valids, taken, i + 1)
    ensures b.addrs[i] != DUMMY && valids[b.ptrs[i]] ==>
              var block := b.data[b.ptrs[i]].(addr := b.addrs[i], leaf := b.leaves[i],
                                              data := Resize(b.data[b.ptrs[i]].data, cfg.blockSize));
              Collecting(cfg, b, before, Remove(stash, block.addr) + [block], valids[b.ptrs[i] := false], taken + 1, i + 1)
  {
    hide LiveBlocks, CountFalse, Padding, Distinct;
    LiveNext(cfg, b, i);
    if b.addrs[i] != DUMMY && valids[b.ptrs[i]] {
      CollectNext(cfg, b, before, i);
      CountFalseUpdate(valids, b.ptrs[i]);
    }
  }

  /** The stash has no other block of the address that is pushed next. */
  lemma {:induction false} CollectNext(cfg: Config, b: Bucket, stash: seq<RingBlock>, i: nat)
    requires BucketOk(cfg, b) && i < cfg.z && Live(cfg, b, i)
    requires Distinct(stash + LiveBlocks(cfg, b, cfg.z))
    ensures Remove(stash + LiveBlocks(cfg, b, i), b.addrs[i]) == stash + LiveBlocks(cfg, b, i)
    ensures b.data[b.ptrs[i]] == RingBlock(b.addrs[i], b.leaves[i], Resize(b.data[b.ptrs[i]].data, cfg.blockSize))
  {
    LivePrefix(cfg, b, i + 1, cfg.z);
    LiveNext(cfg, b, i);
    hide LiveBlocks;
    var all, soFar := stash + LiveBlocks(cfg, b, cfg.z), stash + LiveBlocks(cfg, b, i);
    assert all[|soFar|] == b.data[b.ptrs[i]];
    forall j | 0 <= j < |soFar|
      ensures soFar[j].addr != b.addrs[i]
    {
      assert all[j] == soFar[j];
    }
    RemoveNone(soFar, b.addrs[i]);
  }

  lemma {:induction false} SomeValid(valids: seq<bool>)
    requires CountFalse(valids) < |valids|
    ensures exists slot :: 0 <= slot < |valids| && valids[slot]
  {
    var v := ValidSlots(valids);
    assert v != {};
    var slot :| slot in v;
  }

  lemma {:induction false} StorableParts(cfg: Config, stash: seq<RingBlock>, n: nat)
    requires Storable(cfg, stash)
    ensures Storable(cfg, Taken(stash, cfg.treeDepth, n, cfg.z)) && Storable(cfg, Kept(stash, cfg.treeDepth, n, cfg.z))
  {
    hide Taken, Kept;
    var taken, kept := Taken(stash, cfg.treeDepth, n, cfg.z), Kept(stash, cfg.treeDepth, n, cfg.z);
    forall x | x in taken || x in kept
      ensures x.addr < DUMMY && x.leaf < UINT64_LIMIT && |x.data| == cfg.blockSize
    {
      TakenMembers(stash, cfg.treeDepth, n, cfg.z, x);
    }
  }

  lemma {:induction false} NormalizedAlready(cfg: Config, blocks: seq<RingBlock>)
    requires Storable(cfg, blocks)
    ensures NormalizeAll(blocks, cfg.blockSize) == blocks
  {
  }

  lemma {:induction false} LeafLimit(cfg: Config)
    requires cfg.Valid()
    ensures NumLeaves(cfg.treeDepth) < UINT64_LIMIT
  {
    hide Pow2;
    Pow2Of64();
    Pow2Monotone(cfg.treeDepth, 63);
  }

  lemma {:induction false} StashStorable(cfg: Config, stash: seq<RingBlock>, contents: seq<seq<RingBlock>>,
                                         pos: PositionMap, mem: Memory, loc: map<nat, int>, stale: set<nat>)
    requires cfg.Valid() && Placed(cfg, stash, contents, pos, mem, loc, stale)
    requires forall a :: a in mem ==> |mem[a]| == cfg.blockSize
    ensures Storable(cfg, stash) && LeavesBelow(stash, NumLeaves(cfg.treeDepth))
  {
    hide OnPath;
    LeafLimit(cfg);
    forall i | 0 <= i < |stash|
      ensures stash[i].addr < DUMMY && stash[i].leaf < NumLeaves(cfg.treeDepth) && |stash[i].data| == cfg.blockSize
    {
      assert stash[i] in stash;
      assert Here(cfg, pos, mem, loc, stash[i], STASH);
    }
  }

  lemma {:induction false} FreshCount(cfg: Config, b: Bucket, blocks: seq<RingBlock>)
    requires FreshWith(cfg, b, blocks)
    ensures b.count == 0
  {
  }

  lemma {:induction false} StoredNew(cfg: Config, c: Cipher, e: EncryptedRingBucket, b: Bucket)
    requires EncryptedOk(cfg, e) && Decrypted(cfg, c, e) == b && BucketOk(cfg, b)
    ensures StoredOk(cfg, c, e) && EncryptedShape(cfg, e)
    ensures Shaped(cfg, b) && UnreadOf(cfg, c, e) == LiveBlocks(cfg, b, cfg.z) && e.count == b.count
  {
  }

  lemma {:induction false} AnswerIs(mem: Memory, r: Request, blockSize: nat)
    ensures Answer(mem, r, blockSize) == if r.op == WRITE then r.data else Load(mem, r.addr, blockSize)
  {
  }

  lemma {:induction false} StillNoLimbo(before: map<nat, int>, after: map<nat, int>)
    requires NoNewLimbo(before, after) && forall a :: a in before ==> before[a] != LIMBO
    ensures forall a :: a in after ==> after[a] != LIMBO
  {
  }

  // ----- the initial state -----

  function AllNodes(n: nat): (s: set<nat>)
    ensures forall x :: x in s <==> 0 <= x < n
  {
    if n == 0 then {} else AllNodes(n - 1) + {n - 1}
  }

  function PlainOf(cfg: Config, b: Bucket): seq<RingBlock>
  {
    if Shaped(cfg, b) then LiveBlocks(cfg, b, cfg.z) else []
  }

  function PlainContents(cfg: Config, tree: seq<Bucket>): (c: seq<seq<RingBlock>>)
    ensures |c| == |tree|
    ensures forall n :: 0 <= n < |tree| ==> c[n] == PlainOf(cfg, tree[n])
  {
    seq(|tree|, n requires 0 <= n < |tree| => PlainOf(cfg, tree[n]))
  }

  ghost predicate InitialStash(cfg: Config, stash: seq<RingBlock>, pos: PositionMap)
  {
    && |stash| == cfg.numBlocks && (forall a: nat :: a in pos <==> a < cfg.numBlocks)
    && forall i :: 0 <= i < cfg.numBlocks ==>
         pos[i] < NumLeaves(cfg.treeDepth) && stash[i] == RingBlock(i, pos[i], Zeros(cfg.blockSize))
  }

  lemma {:induction false} InitialPlaced(cfg: Config, stash: seq<RingBlock>, pos: PositionMap, loc: map<nat, int>)
    requires InitialStash(cfg, stash, pos)
    requires loc == map a | a in pos :: STASH
    ensures Placed(cfg, stash, seq(NumNodes(cfg.treeDepth), _ => []), pos, map[], loc, AllNodes(NumNodes(cfg.treeDepth)))
  {
    forall x
      ensures x in stash <==> Here(cfg, pos, map[], loc, x, STASH)
    {
      if x.addr < cfg.numBlocks {
        assert stash[x.addr] == RingBlock(x.addr, pos[x.addr], Zeros(cfg.blockSize));
      }
    }
  }

  class RingORAMClient {
    const cfg: Config
    const server: RingORAMServer
    const cipher: Cipher
    var stash: seq<RingBlock>
    var positionMap: PositionMap
    var round: nat
    var evictionCounter: nat
    var readPathCount: nat
    var earlyReshuffleCount: nat

    ghost var mem: Memory
    ghost var loc: map<nat, int>

    /** The server's tree is well formed and readable with the client's key. */
    ghost predicate Ready()
      reads server`tree, server`history
    {
      && cfg.Valid() && server.cfg == cfg && server.Valid() && TreeOk(cfg, cipher, server.tree)
    }

    ghost predicate SizesOk()
      reads this`mem
    {
      forall a :: a in mem ==> |mem[a]| == cfg.blockSize
    }

    ghost predicate PlacedWith(pos: PositionMap, stale: set<nat>)
      reads this`stash, this`mem, this`loc, server`tree
    {
      Placed(cfg, stash, Unread(cfg, cipher, server.tree), pos, mem, loc, stale)
    }

    /** Between accesses: every address is in the stash or on the path of its leaf, exactly once and with
        its current data, and every bucket has been read fewer than s times. */
    ghost predicate Valid()
      reads this, server`tree, server`history, server`trace
    {
      && Ready() && server.InSync() && SizesOk() && round < cfg.a
      && PlacedWith(positionMap, {}) && (forall a :: a in loc ==> loc[a] != LIMBO)
      && AllBelow(CountsOf(server.tree), cfg.s)
    }

    ghost function Seen(): Public
      reads this`round, this`evictionCounter, server`tree
    {
      Public(round, evictionCounter, CountsOf(server.tree))
    }

    /** All blocks start as zeros; the tree is filled from the leaves up and sent to the server. */
    constructor (cfg: Config, server: RingORAMServer, cipher: Cipher)
      requires cfg.Valid() && server.cfg == cfg && server.Valid()
      modifies server
      ensures Valid() && mem == map[] && round == 0 && evictionCounter == 0
      ensures Deepest(Unread(cfg, cipher, server.tree), stash, cfg.treeDepth, cfg.z)
      ensures this.cfg == cfg && this.server == server && this.cipher == cipher
      ensures server.trace == old(server.trace) + [InitTree]
    {
      hide *;
      this.cfg, this.server, this.cipher := cfg, server, cipher;
      round, evictionCounter, readPathCount, earlyReshuffleCount := 0, 0, 0, 0;
      var blocks, positions := InitialBlocks(cfg);
      stash, positionMap := blocks, positions;
      mem, loc := map[], map a | a in positions :: STASH;
      new;
      InitializeServerStorage();
    }

    lemma {:induction false} StartFacts()
      requires cfg.Valid() && loc == (map a | a in positionMap :: STASH) && mem == map[] && round == 0
      requires InitialStash(cfg, stash, positionMap)
      ensures SizesOk() && round < cfg.a && forall a :: a in loc ==> loc[a] != LIMBO
      ensures Placed(cfg, stash, seq(NumNodes(cfg.treeDepth), _ => []), positionMap, mem, loc, AllNodes(NumNodes(cfg.treeDepth)))
    {
      InitialPlaced(cfg, stash, positionMap, loc);
    }

    /** Construction from an arbitrary configuration. */
    static method Create(cfg: Config, server: RingORAMServer, cipher: Cipher) returns (r: Result<RingORAMClient>)
      requires server.cfg == cfg && server.Valid()
      modifies server
      ensures r.Success? <==> cfg.Valid()
      ensures r.Success? ==> r.value.Valid() && r.value.mem == map[] && r.value.server == server && fresh(r.value)
      ensures r.Success? ==> Deepest(Unread(cfg, cipher, server.tree), r.value.stash, cfg.treeDepth, cfg.z)
      ensures r.Failure? ==> r.error == InvalidArgument
    {
      if !cfg.Valid() { return Failure(InvalidArgument); }
      var client := new RingORAMClient(cfg, server, cipher);
      return Success(client);
    }

    /** One block of zeros per address, each with a random leaf. */
    static method InitialBlocks(cfg: Config) returns (blocks: seq<RingBlock>, positions: PositionMap)
      ensures InitialStash(cfg, blocks, positions)
    {
      blocks, positions := [], map[];
      for addr := 0 to cfg.numBlocks
        invariant |blocks| == addr && forall a: nat :: a in positions <==> a < addr
        invariant forall i :: 0 <= i < addr ==>
                    positions[i] < NumLeaves(cfg.treeDepth) && blocks[i] == RingBlock(i, positions[i], Zeros(cfg.blockSize))
      {
        var leaf := GetRandomLeaf(cfg.treeDepth);
        positions := positions[addr := leaf];
        blocks := blocks + [RingBlock(addr, leaf, Zeros(cfg.blockSize))];
      }
    }

    method InitializeServerStorage()
      requires cfg.Valid() && server.cfg == cfg && server.Valid() && round == 0 && mem == map[]
      requires InitialStash(cfg, stash, positionMap) && loc == map a | a in positionMap :: STASH
      modifies this`stash, this`loc, server
      ensures Valid() && server.trace == old(server.trace) + [InitTree]
      ensures Deepest(Unread(cfg, cipher, server.tree), stash, cfg.treeDepth, cfg.z)
    {
      StartFacts();
      hide *;
      var tree := BuildInitialPlainTree();
      SendTree(tree);
    }

    method SendTree(tree: seq<Bucket>)
      requires cfg.Valid() && server.cfg == cfg && server.Valid() && SizesOk() && round < cfg.a
      requires |tree| == NumNodes(cfg.treeDepth)
      requires forall n :: 0 <= n < |tree| ==> BucketOk(cfg, tree[n]) && tree[n].count == 0
      requires Placed(cfg, stash, PlainContents(cfg, tree), positionMap, mem, loc, {})
      requires forall a :: a in loc ==> loc[a] != LIMBO
      modifies server
      ensures Valid() && server.trace == old(server.trace) + [InitTree]
      ensures Unread(cfg, cipher, server.tree) == PlainContents(cfg, tree)
    {
      hide BucketOk, Placed, Unread, PlainContents;
      var encrypted := EncryptTree(tree);
      SealedTree(encrypted, tree);
      var response := server.HandleInit(encrypted);
      assert response.Success?;
    }

    method EncryptTree(tree: seq<Bucket>) returns (encrypted: seq<EncryptedRingBucket>)
      requires cfg.Valid() && forall n :: 0 <= n < |tree| ==> BucketOk(cfg, tree[n]) && tree[n].count == 0
      ensures |encrypted| == |tree| && forall n :: 0 <= n < |tree| ==> Sealed(encrypted[n], tree[n])
    {
      hide BucketOk, Sealed;
      encrypted := [];
      for i := 0 to |tree|
        invariant |encrypted| == i
        invariant forall n :: 0 <= n < i ==> Sealed(encrypted[n], tree[n])
      {
        var e := SealBucket(tree[i]);
        encrypted := encrypted + [e];
      }
    }

    method SealBucket(b: Bucket) returns (e: EncryptedRingBucket)
      requires cfg.Valid() && BucketOk(cfg, b) && b.count == 0
      ensures Sealed(e, b)
    {
      hide BucketOk, Decrypted, LiveBlocks, EncryptedOk, UnreadOf;
      e := EncryptBucket(cfg, cipher, b);
      StoredNew(cfg, cipher, e, b);
    }

    lemma {:induction false} SealedTree(encrypted: seq<EncryptedRingBucket>, tree: seq<Bucket>)
      requires |encrypted| == |tree| == NumNodes(cfg.treeDepth) && cfg.s > 0
      requires forall n :: 0 <= n < |tree| ==> Sealed(encrypted[n], tree[n])
      ensures TreeOk(cfg, cipher, encrypted) && forall n :: 0 <= n < |tree| ==> EncryptedShape(cfg, encrypted[n])
      ensures Unread(cfg, cipher, encrypted) == PlainContents(cfg, tree)
      ensures AllBelow(CountsOf(encrypted), cfg.s)
    {
      hide StoredOk, UnreadOf, LiveBlocks;
      assert forall n :: 0 <= n < |tree| ==> Sealed(encrypted[n], tree[n]);
    }

    /** The stored bucket opens to the plain one. */
    ghost predicate Sealed(e: EncryptedRingBucket, b: Bucket)
    {
      && StoredOk(cfg, cipher, e) && EncryptedShape(cfg, e) && Shaped(cfg, b)
      && UnreadOf(cfg, cipher, e) == LiveBlocks(cfg, b, cfg.z) && e.count == b.count == 0
    }

    /** Fills every bucket from the stash, highest index first: every block ends up as deep on its path as there
        is room. */
    method BuildInitialPlainTree() returns (tree: seq<Bucket>)
      requires cfg.Valid() && SizesOk()
      requires Placed(cfg, stash, seq(NumNodes(cfg.treeDepth), _ => []), positionMap, mem, loc, AllNodes(NumNodes(cfg.treeDepth)))
      requires forall a :: a in loc ==> loc[a] != LIMBO
      modifies this`stash, this`loc
      ensures |tree| == NumNodes(cfg.treeDepth)
      ensures forall n :: 0 <= n < |tree| ==> BucketOk(cfg, tree[n]) && tree[n].count == 0
      ensures Placed(cfg, stash, PlainContents(cfg, tree), positionMap, mem, loc, {})
      ensures forall a :: a in loc ==> loc[a] != LIMBO
      ensures Deepest(PlainContents(cfg, tree), stash, cfg.treeDepth, cfg.z)
    {
      hide BucketOk, Placed, Taken, Kept, LiveBlocks, FreshWith, PressedFrom, Deepest;
      var nodes := NumNodes(cfg.treeDepth);
      var blank := new RingBucket(cfg);
      FreshOk(cfg, blank.Value(), []);
      FreshCount(cfg, blank.Value(), []);
      var b := blank.Value();
      tree := seq(nodes, _ => b);
      assert PlainContents(cfg, tree) == seq(nodes, _ => []);
      NonePressed(PlainContents(cfg, tree), stash, cfg.treeDepth, cfg.z);
      var idx := nodes;
      while idx > 0
        invariant 0 <= idx <= nodes && |tree| == nodes
        invariant forall n :: 0 <= n < nodes ==> BucketOk(cfg, tree[n]) && tree[n].count == 0
        invariant Placed(cfg, stash, PlainContents(cfg, tree), positionMap, mem, loc, AllNodes(idx))
        invariant NoNewLimbo(old(loc), loc)
        invariant PressedFrom(PlainContents(cfg, tree), stash, cfg.treeDepth, cfg.z, idx)
      {
        idx := idx - 1;
        PressedNext(PlainContents(cfg, tree), stash, cfg.treeDepth, cfg.z, idx);
        assert AllNodes(idx + 1) - {idx} == AllNodes(idx);
        var filled := FillInitial(idx, PlainContents(cfg, tree), AllNodes(idx + 1));
        assert PlainContents(cfg, tree[idx := filled]) == PlainContents(cfg, tree)[idx := PlainOf(cfg, filled)];
        tree := tree[idx := filled];
      }
      AllPressed(PlainContents(cfg, tree), stash, cfg.treeDepth, cfg.z);
    }

    method FillInitial(idx: nat, ghost contents: seq<seq<RingBlock>>, ghost stale: set<nat>) returns (filled: Bucket)
      requires cfg.Valid() && SizesOk() && idx < |contents| == NumNodes(cfg.treeDepth) && idx in stale
      requires Placed(cfg, stash, contents, positionMap, mem, loc, stale)
      modifies this`stash, this`loc
      ensures BucketOk(cfg, filled) && filled.count == 0
      ensures Placed(cfg, stash, contents[idx := PlainOf(cfg, filled)], positionMap, mem, loc, stale - {idx})
      ensures NoNewLimbo(old(loc), loc)
      ensures PlainOf(cfg, filled) == Taken(old(stash), cfg.treeDepth, idx, cfg.z)
      ensures stash == Kept(old(stash), cfg.treeDepth, idx, cfg.z)
    {
      hide BucketOk, Taken, Kept, LiveBlocks, FreshWith, Located;
      ghost var before := stash;
      StashStorable(cfg, stash, contents, positionMap, mem, loc, stale);
      FillPlaced(cfg, stash, contents, positionMap, mem, loc, stale, idx);
      var bucket := new RingBucket(cfg);
      FreshShape(cfg, bucket.Value(), []);
      FillBucketFromStash(idx, bucket);
      FreshOk(cfg, bucket.Value(), Taken(before, cfg.treeDepth, idx, cfg.z));
      FreshCount(cfg, bucket.Value(), Taken(before, cfg.treeDepth, idx, cfg.z));
      FreshShape(cfg, bucket.Value(), Taken(before, cfg.treeDepth, idx, cfg.z));
      filled := bucket.Value();
      loc := MovedTo(cfg, before, positionMap, mem, loc, idx);
    }

    static method GetRandomLeaf(depth: nat) returns (leaf: nat)
      ensures leaf < NumLeaves(depth)
    {
      leaf :| leaf < NumLeaves(depth);
    }

    // ----- the stash -----

    method PutBlockInStash(block: RingBlock)
      modifies this`stash
      ensures stash == if block.addr == DUMMY then old(stash) else Remove(old(stash), block.addr) + [block]
    {
      if block.addr == DUMMY { return; }
      RemoveBlockFromStash(block.addr);
      stash := stash + [block];
    }

    method RemoveBlockFromStash(addr: nat)
      modifies this`stash
      ensures stash == Remove(old(stash), addr)
    {
      hide Remove;
      RemoveNone([], addr);
      var all := stash;
      stash := [];
      assert all[..0] == [];
      for i := 0 to |all|
        invariant stash == Remove(all[..i], addr)
      {
        assert all[..i + 1] == all[..i] + [all[i]];
        RemoveSnoc(all[..i], all[i], addr);
        if all[i].addr != addr {
          stash := stash + [all[i]];
        }
      }
      assert all[..|all|] == all;
    }

    method TakeBlockFromStash(addr: nat) returns (taken: Option<RingBlock>)
      requires Distinct(stash)
      modifies this`stash
      ensures taken.None? ==> stash == old(stash) && forall x :: x in stash ==> x.addr != addr
      ensures taken.Some? ==> taken.value in old(stash) && taken.value.addr == addr && stash == Remove(old(stash), addr)
    {
      for i := 0 to |stash|
        invariant stash == old(stash) && forall j :: 0 <= j < i ==> stash[j].addr != addr
      {
        if stash[i].addr == addr {
          taken := Some(stash[i]);
          RemoveOne(stash, i);
          stash := stash[..i] + stash[i + 1..];
          return;
        }
      }
      return None;
    }

    // ----- reading a path -----

    /** Chooses one slot in every bucket of the path. */
    method ChooseSlots(metadata: seq<Metadata>, addr: nat, ghost path: seq<nat>)
      returns (offsets: seq<nat>, targetFlags: seq<bool>)
      requires TreeOk(cfg, cipher, server.tree) && addr != DUMMY
      requires |metadata| == |path|
      requires forall i :: 0 <= i < |path| ==> path[i] < |server.tree| && metadata[i] == MetadataOf(server.tree[path[i]])
      requires AllBelow(CountsOf(server.tree), cfg.s)
      requires forall n :: 0 <= n < |server.tree| ==> Distinct(Unread(cfg, cipher, server.tree)[n])
      ensures Chosen(cfg, cipher, server.tree, path, addr, offsets, targetFlags, |path|)
    {
      offsets, targetFlags := [], [];
      for i := 0 to |metadata|
        invariant Chosen(cfg, cipher, server.tree, path, addr, offsets, targetFlags, i)
      {
        hide StoredOk, Decrypted, DecryptMetadata, UnreadOf, Chosen, Readable;
        ghost var e := server.tree[path[i]];
        NodeFacts(cfg, cipher, server.tree, cfg.s, path[i]);
        var offset, selected := ChooseSlot(metadata[i], addr, e);
        ChosenNext(cfg, cipher, server.tree, path, addr, offsets, targetFlags, i, offset, selected);
        offsets, targetFlags := offsets + [offset], targetFlags + [selected];
      }
    }

    /** The choice in one bucket never fails while the bucket has been read fewer than s times. */
    method ChooseSlot(metadata: Metadata, addr: nat, ghost e: EncryptedRingBucket) returns (offset: nat, selected: bool)
      requires StoredOk(cfg, cipher, e) && metadata == MetadataOf(e) && addr != DUMMY
      requires Distinct(UnreadOf(cfg, cipher, e)) && e.count < cfg.s
      ensures Readable(cfg, Decrypted(cfg, cipher, e), addr, offset)
      ensures selected <==> HasLive(cfg, Decrypted(cfg, cipher, e), addr)
    {
      CountIs(cfg, cipher, e);
      MetadataSuffices(cfg, cipher, e, addr);
      hide BucketOk, EncryptedOk, Decrypted, DecryptMetadata, LiveBlocks, UnreadOf, Readable, HasLive;
      var bucket := DecryptMetadata(cfg, cipher, metadata);
      var choice := GetBlockOffset(cfg, bucket, addr);
      assert choice.Success?;
      offset := choice.value;
      selected := IsTarget(cfg, bucket, addr, offset);
    }

    /** Takes the dummies off the server's aggregate and decrypts what is left. */
    static method StripAndDecrypt(cfg: Config, c: Cipher, reply: XorReply, targetFlags: seq<bool>,
                                  ghost vectors: seq<seq<byte>>, ghost target: nat)
      returns (r: Result<Option<seq<byte>>>)
      requires |reply.ivs| == |targetFlags| && |reply.aggregate| == cfg.blockSize
      requires OthersAreDummies(c, vectors, reply.ivs, targetFlags, cfg.blockSize)
      requires reply.aggregate == XorAll(vectors, cfg.blockSize)
      requires forall i :: 0 <= i < |targetFlags| ==> (targetFlags[i] <==> i == target)
      ensures r == Success(if target < |targetFlags| then Some(Crypt(c, vectors[target], reply.ivs[target])) else None)
    {
      hide XorAll, Xor, Crypt, Zeros, Mask;
      var found := false;
      var targetIv: seq<byte> := [];
      var targetCiphertext := reply.aggregate;
      ghost var masks := Mask(c, reply.ivs, targetFlags, cfg.blockSize);
      StripStart(c, reply.aggregate, masks, cfg.blockSize);
      for i := 0 to |targetFlags|
        invariant found <==> target < i
        invariant found ==> targetIv == reply.ivs[target]
        invariant |targetCiphertext| == cfg.blockSize
        invariant targetCiphertext == Xor(reply.aggregate, XorAll(masks[..i], cfg.blockSize))
      {
        StripStep(c, reply, targetFlags, cfg.blockSize, i);
        if targetFlags[i] {
          if found { return Failure(RuntimeError); }
          found := true;
          targetIv := reply.ivs[i];
        } else {
          var dummy := Crypt(c, Zeros(cfg.blockSize), reply.ivs[i]);
          targetCiphertext := Xor(targetCiphertext, dummy);
        }
      }
      if !found { return Success(None); }
      StripDummies(c, vectors, reply.ivs, targetFlags, cfg.blockSize, target, |targetFlags|);
      assert vectors[..|vectors|] == vectors && masks[..|masks|] == masks;
      return Success(Some(Crypt(c, targetCiphertext, targetIv)));
    }

    /** Asks the server for the exclusive-or of the chosen slots and decodes it. */
    method FetchXorPath(leaf: nat, offsets: seq<nat>, targetFlags: seq<bool>, ghost addr: nat, ghost pos: PositionMap)
      returns (r: Option<seq<byte>>)
      requires Ready() && server.InSync() && PlacedWith(pos, {}) && leaf < NumLeaves(cfg.treeDepth) && addr != DUMMY
      requires Chosen(cfg, cipher, server.tree, PathNodes(cfg.treeDepth, leaf), addr, offsets, targetFlags, cfg.treeDepth + 1)
      modifies this`loc, server
      ensures Ready() && server.InSync() && PlacedWith(pos, {})
      ensures loc == AfterRead(cfg.treeDepth, old(loc), addr, leaf)
      ensures r == if InPath(cfg.treeDepth, old(loc), addr, leaf) then Some(Load(mem, addr, cfg.blockSize)) else None
      ensures Unread(cfg, cipher, server.tree)
           == WithoutAddr(old(Unread(cfg, cipher, server.tree)), NodeSet(PathNodes(cfg.treeDepth, leaf)), addr)
      ensures CountsOf(server.tree) == Bump(old(CountsOf(server.tree)), PathNodes(cfg.treeDepth, leaf))
      ensures server.trace == old(server.trace) + [XorSlots(leaf)]
    {
      hide StoredOk, Decrypted, UnreadOf, Readable, Open, Crypt, Bump, Chosen, TreeOk, Placed;
      ghost var path, tree := PathNodes(cfg.treeDepth, leaf), server.tree;
      ghost var target := TargetOnPath(cfg, cipher, tree, stash, pos, mem, loc, path, addr, leaf, offsets, targetFlags);
      var reply := RequestXor(leaf, offsets, targetFlags, addr, pos);
      ghost var vectors := VectorsOf(cfg, cipher, tree, path, addr, offsets, targetFlags, reply);
      var decoded := StripAndDecrypt(cfg, cipher, reply, targetFlags, vectors, target);
      assert decoded.Success?;
      r := decoded.value;
      OpenIs(cfg, cipher, tree, path, offsets, target, vectors, reply.ivs);
    }

    /** Sends the offsets; the server takes the chosen slots out of the path. */
    method RequestXor(leaf: nat, offsets: seq<nat>, ghost targetFlags: seq<bool>, ghost addr: nat,
                      ghost pos: PositionMap)
      returns (reply: XorReply)
      requires Ready() && server.InSync() && PlacedWith(pos, {}) && leaf < NumLeaves(cfg.treeDepth) && addr != DUMMY
      requires Chosen(cfg, cipher, server.tree, PathNodes(cfg.treeDepth, leaf), addr, offsets, targetFlags, cfg.treeDepth + 1)
      modifies this`loc, server
      ensures Ready() && server.InSync() && PlacedWith(pos, {})
      ensures loc == AfterRead(cfg.treeDepth, old(loc), addr, leaf)
      ensures ReplyFor(cfg, old(server.tree), PathNodes(cfg.treeDepth, leaf), offsets, reply)
      ensures Unread(cfg, cipher, server.tree)
           == WithoutAddr(old(Unread(cfg, cipher, server.tree)), NodeSet(PathNodes(cfg.treeDepth, leaf)), addr)
      ensures CountsOf(server.tree) == Bump(old(CountsOf(server.tree)), PathNodes(cfg.treeDepth, leaf))
      ensures server.trace == old(server.trace) + [XorSlots(leaf)]
    {
      hide StoredOk, Decrypted, UnreadOf, Readable, Bump, Chosen, PathReady, Revealed, ReplyFor, ReadAlong, Located;
      ghost var path, tree := PathNodes(cfg.treeDepth, leaf), server.tree;
      ChosenReady(cfg, cipher, tree, path, addr, offsets, targetFlags);
      var response := server.HandleXorPathSlots(leaf, offsets);
      assert response.Success?;
      reply := response.value;
      RevealedTree(cfg, cipher, tree, server.tree, path, addr, offsets, targetFlags);
      ReadIs(Unread(cfg, cipher, tree), Unread(cfg, cipher, server.tree), NodeSet(path), addr);
      ReadPlaced(cfg, stash, Unread(cfg, cipher, tree), Unread(cfg, cipher, server.tree), pos, mem, loc, addr, leaf);
      loc := AfterRead(cfg.treeDepth, loc, addr, leaf);
    }

    /** Reads one slot per bucket of the path of any leaf; finds the block exactly if it is in one of them. */
    method ReadPath(leaf: nat, addr: nat, ghost pos: PositionMap) returns (r: Option<seq<byte>>)
      requires Ready() && server.InSync() && PlacedWith(pos, {}) && leaf < NumLeaves(cfg.treeDepth) && addr != DUMMY
      requires AllBelow(CountsOf(server.tree), cfg.s)
      modifies this`readPathCount, this`loc, server
      ensures Ready() && server.InSync() && PlacedWith(pos, {})
      ensures loc == AfterRead(cfg.treeDepth, old(loc), addr, leaf)
      ensures r == if InPath(cfg.treeDepth, old(loc), addr, leaf) then Some(Load(mem, addr, cfg.blockSize)) else None
      ensures Unread(cfg, cipher, server.tree)
           == WithoutAddr(old(Unread(cfg, cipher, server.tree)), NodeSet(PathNodes(cfg.treeDepth, leaf)), addr)
      ensures CountsOf(server.tree) == Bump(old(CountsOf(server.tree)), PathNodes(cfg.treeDepth, leaf))
      ensures server.trace == old(server.trace) + [ReadMetadata(leaf), XorSlots(leaf)]
      ensures readPathCount == old(readPathCount) + 1
    {
      hide EncryptedOk, BucketOk, Decrypted, UnreadOf, Readable, Bump, Chosen, StoredOk;
      NodesDistinct(cfg, stash, Unread(cfg, cipher, server.tree), pos, mem, loc);
      ghost var path := PathNodes(cfg.treeDepth, leaf);
      var response := server.HandleReadPathMetadata(leaf);
      assert response.Success?;
      var offsets, targetFlags := ChooseSlots(response.value, addr, path);
      readPathCount := readPathCount + 1;
      r := FetchXorPath(leaf, offsets, targetFlags, addr, pos);
    }

    // ----- moving whole buckets -----

    /** Pushes the unread blocks of a bucket and marks their slots. */
    method CollectBlocks(b: Bucket) returns (valids: seq<bool>, taken: nat)
      requires BucketOk(cfg, b) && Distinct(stash + LiveBlocks(cfg, b, cfg.z))
      modifies this`stash
      ensures stash == old(stash) + LiveBlocks(cfg, b, cfg.z)
      ensures taken <= cfg.z && |valids| == cfg.Slots() && CountFalse(valids) == b.count + taken
      ensures Shaped(cfg, b.(valids := valids))
      ensures forall i :: 0 <= i < cfg.z ==> !Live(cfg, b.(valids := valids), i)
    {
      hide Collecting, LiveBlocks, CountFalse, Live, Distinct;
      valids, taken := b.valids, 0;
      CollectStart(cfg, b, stash);
      for i := 0 to |b.addrs|
        invariant Collecting(cfg, b, old(stash), stash, valids, taken, i)
      {
        hide *;
        CollectStep(cfg, b, old(stash), stash, valids, taken, i);
        var offset := b.ptrs[i];
        if b.addrs[i] == DUMMY || offset >= |valids| || !valids[offset] {
          continue;
        }
        var block := b.data[offset].(addr := b.addrs[i], leaf := b.leaves[i], data := Resize(b.data[offset].data, cfg.blockSize));
        PutBlockInStash(block);
        valids := valids[offset := false];
        taken := taken + 1;
      }
      CollectEnd(cfg, b, old(stash), stash, valids, taken);
    }

    /** Tops the reads up to z with spare slots; there are always enough. */
    method PadReads(b: Bucket, taken: nat) returns (valids: seq<bool>)
      requires Shaped(cfg, b) && taken <= cfg.z
      requires forall i :: 0 <= i < cfg.z ==> !Live(cfg, b, i)
      requires CountFalse(b.valids) <= cfg.s + taken
      ensures |valids| == |b.valids| && CountFalse(valids) == CountFalse(b.valids) + (cfg.z - taken)
      ensures forall slot :: 0 <= slot < |valids| && valids[slot] ==> b.valids[slot]
    {
      var bucket, done := b, taken;
      while done < cfg.z
        invariant Shaped(cfg, bucket) && bucket == b.(valids := bucket.valids)
        invariant forall slot :: 0 <= slot < cfg.Slots() && bucket.valids[slot] ==> b.valids[slot]
        invariant taken <= done <= cfg.z && CountFalse(bucket.valids) == CountFalse(b.valids) + (done - taken)
      {
        SomeValid(bucket.valids);
        var slot :| 0 <= slot < |bucket.valids| && bucket.valids[slot];
        forall i | 0 <= i < cfg.z
          ensures !Live(cfg, bucket, i)
        {
          assert !Live(cfg, b, i);
        }
        assert Spare(cfg, bucket, slot);
        var dummies := ValidDummyOffsets(cfg, bucket);
        assert |dummies| > 0;
        var pick :| 0 <= pick < |dummies|;
        assert dummies[pick] in dummies;
        CountFalseUpdate(bucket.valids, dummies[pick]);
        bucket := bucket.(valids := bucket.valids[dummies[pick] := false]);
        done := done + 1;
      }
      valids := bucket.valids;
    }

    /** Fetches a bucket and moves its unread blocks into the stash. */
    method ReadBucket(n: nat, ghost stale: set<nat>)
      requires Ready() && server.InSync() && PlacedWith(positionMap, stale) && n < |server.tree| && n !in stale
      requires server.tree[n].count <= cfg.s
      modifies this`stash, this`loc, server`trace
      ensures Ready() && server.InSync() && PlacedWith(positionMap, stale + {n})
      ensures stash == old(stash) + Unread(cfg, cipher, server.tree)[n]
      ensures NoNewLimbo(old(loc), loc)
      ensures server.trace == old(server.trace) + [FetchBucket(n)]
    {
      hide EncryptedOk, Labelled, OpenNumbers, OpenData, CountFalse, LiveBlocks, Placed, RingORAMServer.Valid,
        RingORAMServer.InSync;
      var response := server.HandleReadBucket(n);
      assert response.Success?;
      assert StoredOk(cfg, cipher, server.tree[n]);
      var bucket := Decrypted(cfg, cipher, response.value);
      CountIs(cfg, cipher, response.value);
      AbsorbDistinct(cfg, stash, Unread(cfg, cipher, server.tree), positionMap, mem, loc, stale, n);
      AbsorbPlaced(cfg, stash, Unread(cfg, cipher, server.tree), positionMap, mem, loc, stale, n);
      var valids, taken := CollectBlocks(bucket);
      var _ := PadReads(bucket.(valids := valids), taken);
      loc := Absorbed(loc, n);
    }

    /** Moves the first eligible blocks of the stash into a fresh bucket. */
    method FillBucketFromStash(n: nat, bucket: RingBucket)
      requires cfg.Valid() && bucket.cfg == cfg && Shaped(cfg, bucket.Value()) && n < NumNodes(cfg.treeDepth)
      requires Storable(cfg, stash) && LeavesBelow(stash, NumLeaves(cfg.treeDepth))
      modifies this`stash, bucket
      ensures stash == Kept(old(stash), cfg.treeDepth, n, cfg.z)
      ensures FreshWith(cfg, bucket.Value(), Taken(old(stash), cfg.treeDepth, n, cfg.z))
      ensures Storable(cfg, stash) && Storable(cfg, Taken(old(stash), cfg.treeDepth, n, cfg.z))
    {
      var selected := SelectBlocks(n);
      StorableParts(cfg, old(stash), n);
      NormalizedAlready(cfg, selected);
      var filled := bucket.ResetWithBlocks(selected);
      assert filled.Success?;
    }

    method SelectBlocks(n: nat) returns (selected: seq<RingBlock>)
      requires n < NumNodes(cfg.treeDepth)
      requires Storable(cfg, stash) && LeavesBelow(stash, NumLeaves(cfg.treeDepth))
      modifies this`stash
      ensures selected == Taken(old(stash), cfg.treeDepth, n, cfg.z)
      ensures stash == Kept(old(stash), cfg.treeDepth, n, cfg.z)
    {
      hide Taken, Kept;
      ghost var all := stash;
      NothingTaken(cfg.treeDepth, n, cfg.z);
      selected := [];
      var it := 0;
      ghost var p := 0;
      while it < |stash| && |selected| < cfg.z
        invariant p <= |all| && it <= |stash|
        invariant selected == Taken(all[..p], cfg.treeDepth, n, cfg.z)
        invariant stash[..it] == Kept(all[..p], cfg.treeDepth, n, cfg.z) && stash[it..] == all[p..]
        decreases |stash| - it
      {
        assert all[..p + 1] == all[..p] + [all[p]] && stash[it] == all[p];
        TakenSnoc(all[..p], all[p], cfg.treeDepth, n, cfg.z);
        var reside := IsBucketOnLeafPath(cfg.treeDepth, n, stash[it].leaf);
        if stash[it].addr != DUMMY && reside {
          selected := selected + [stash[it]];
          stash := stash[..it] + stash[it + 1..];
        } else {
          it := it + 1;
        }
        p := p + 1;
      }
      assert stash == stash[..it] + stash[it..] && all == all[..p] + all[p..];
      if p == |all| {
        assert all[..p] == all && stash[it..] == [];
      } else {
        TakenFull(all[..p], all[p..], cfg.treeDepth, n, cfg.z);
      }
    }

    /** Rewrites a bucket from the stash. */
    method WriteBucket(n: nat, ghost stale: set<nat>)
      requires Ready() && server.InSync() && SizesOk() && PlacedWith(positionMap, stale) && n < |server.tree|
      requires n in stale
      modifies this`stash, this`loc, server
      ensures Ready() && server.InSync() && PlacedWith(positionMap, stale - {n})
      ensures stash == Kept(old(stash), cfg.treeDepth, n, cfg.z)
      ensures Unread(cfg, cipher, server.tree) == old(Unread(cfg, cipher, server.tree))[n := Taken(old(stash), cfg.treeDepth, n, cfg.z)]
      ensures CountsOf(server.tree) == old(CountsOf(server.tree))[n := 0]
      ensures server.trace == old(server.trace) + [RingTrace.ReplaceBucket(n)]
      ensures NoNewLimbo(old(loc), loc)
    {
      hide EncryptedOk, Decrypted, BucketOk, LiveBlocks, Taken, Kept, FreshWith, Located, OnceOnly, OutIsUsed, Asked,
        Touched, Here, Storable, Load;
      ghost var tree, before := server.tree, stash;
      StashStorable(cfg, stash, Unread(cfg, cipher, tree), positionMap, mem, loc, stale);
      FillPlaced(cfg, stash, Unread(cfg, cipher, tree), positionMap, mem, loc, stale, n);
      var bucket := new RingBucket(cfg);
      FreshShape(cfg, bucket.Value(), []);
      FillBucketFromStash(n, bucket);
      FreshOk(cfg, bucket.Value(), Taken(before, cfg.treeDepth, n, cfg.z));
      FreshCount(cfg, bucket.Value(), Taken(before, cfg.treeDepth, n, cfg.z));
      var encrypted := EncryptBucket(cfg, cipher, bucket.Value());
      StoredNew(cfg, cipher, encrypted, bucket.Value());
      var response := server.HandleWriteBucket(n, encrypted);
      assert response.Success?;
      ReplaceOne(cfg, cipher, tree, n, encrypted);
      loc := MovedTo(cfg, before, positionMap, mem, loc, n);
    }

    // ----- evicting a path and reshuffling worn buckets -----

    /** Reads a whole path into the stash and writes it back from the leaf up: stash and buckets are what the
        leaf-to-root fill of the gathered blocks makes of them. */
    method EvictPath() returns (ghost gathered: seq<RingBlock>)
      requires Ready() && server.InSync() && SizesOk() && PlacedWith(positionMap, {})
      requires AllBelow(CountsOf(server.tree), cfg.s + 1)
      modifies this`stash, this`loc, this`evictionCounter, server
      ensures Ready() && server.InSync() && PlacedWith(positionMap, {}) && evictionCounter == old(evictionCounter) + 1
      ensures CountsOf(server.tree) == Reset(old(CountsOf(server.tree)), EvictionPath(cfg, old(evictionCounter)))
      ensures server.trace == old(server.trace) + EvictTrace(EvictionPath(cfg, old(evictionCounter)))
      ensures NoNewLimbo(old(loc), loc)
      ensures gathered == old(stash) + Along(old(Unread(cfg, cipher, server.tree)), EvictionPath(cfg, old(evictionCounter)))
      ensures Refilled(gathered, old(evictionCounter) % NumLeaves(cfg.treeDepth))
      ensures Tidy(cfg.treeDepth, cfg.z, NodeSet(EvictionPath(cfg, old(evictionCounter))),
                   old(Unread(cfg, cipher, server.tree)), Unread(cfg, cipher, server.tree), stash)
      ensures PathDeepest(Unread(cfg, cipher, server.tree), cfg.treeDepth, cfg.z,
                          NodeSet(EvictionPath(cfg, old(evictionCounter))))
    {
      hide *;
      var leaf := evictionCounter % NumLeaves(cfg.treeDepth);
      EvictFacts(evictionCounter);
      evictionCounter := evictionCounter + 1;
      var path := GetPathTopDown(cfg.treeDepth, leaf);
      ReadBuckets(path);
      gathered := stash;
      ghost var between, contents := loc, Unread(cfg, cipher, server.tree);
      WriteBuckets(path, leaf);
      NoLimboSteps(old(loc), between, loc);
      EvictionTidy(gathered, leaf, contents);
    }

    lemma {:induction false} EvictFacts(evictions: nat)
      requires Ready()
      ensures var leaf := evictions % NumLeaves(cfg.treeDepth);
              var path := PathNodes(cfg.treeDepth, leaf);
              && EvictionPath(cfg, evictions) == path && EvictTrace(path) == Fetches(path) + Replaces(path)
              && (forall i :: 0 <= i < |path| ==> path[i] < |server.tree|)
              && (forall i, j :: 0 <= i < j < |path| ==> path[i] != path[j])
    {
      hide StoredOk, NodeAt;
      PathDistinct(cfg.treeDepth, evictions % NumLeaves(cfg.treeDepth));
    }

    /** The path has been filled from the given blocks, from the leaf up, and the stash is what is left. */
    ghost predicate Refilled(all: seq<RingBlock>, leaf: nat)
      reads this`stash, server`tree
    {
      && LeavesBelow(all, NumLeaves(cfg.treeDepth)) && leaf < NumLeaves(cfg.treeDepth)
      && stash == FillFromLeaf(all, cfg.treeDepth, leaf, cfg.z, cfg.treeDepth + 1)
      && PathFilled(Unread(cfg, cipher, server.tree), all, cfg.treeDepth, leaf, cfg.z, 0)
    }

    lemma {:induction false} EvictionTidy(all: seq<RingBlock>, leaf: nat, contents: seq<seq<RingBlock>>)
      requires Refilled(all, leaf) && OffPath(contents, Unread(cfg, cipher, server.tree), PathNodes(cfg.treeDepth, leaf), 0)
      ensures Tidy(cfg.treeDepth, cfg.z, NodeSet(PathNodes(cfg.treeDepth, leaf)), contents,
                   Unread(cfg, cipher, server.tree), stash)
      ensures PathDeepest(Unread(cfg, cipher, server.tree), cfg.treeDepth, cfg.z, NodeSet(PathNodes(cfg.treeDepth, leaf)))
    {
      hide OffPath, PathFilled, FillFromLeaf, Tidy, PathDeepest, PathNodes, Unread, NodeSet;
      RefillDeepest(Unread(cfg, cipher, server.tree), all, cfg.treeDepth, leaf, cfg.z);
      RefillTidy(contents, Unread(cfg, cipher, server.tree), all, cfg.treeDepth, leaf, cfg.z);
    }

    /** What stays in the stash is as little as any legal placement of the gathered blocks on the path can
        leave, and it stays there because every bucket it could go to is full. */
    lemma {:induction false} EvictionOptimal(all: seq<RingBlock>, leaf: nat, other: seq<nat>)
      requires Refilled(all, leaf)
      requires Legal(MeetingsOf(all, leaf), other, cfg.treeDepth + 1, cfg.z)
      ensures |stash| <= |all| - CountLess(other, cfg.treeDepth + 1)
      ensures forall x, j :: x in stash && 0 <= j <= cfg.treeDepth && OnPath(cfg.treeDepth, NodeAt(cfg.treeDepth, leaf, j), x.leaf)
                             ==> |Unread(cfg, cipher, server.tree)[NodeAt(cfg.treeDepth, leaf, j)]| == cfg.z
    {
      hide FillFromLeaf, FillOf, NodeAt, OnPath, Best, MeetingsOf, CountLess, Legal;
      FillIsBest(all, cfg.treeDepth, leaf, cfg.z, cfg.treeDepth + 1);
      BestIsUpperBound(MeetingsOf(all, leaf), other, cfg.treeDepth + 1, cfg.z, cfg.treeDepth + 1);
      forall x, j | x in stash && 0 <= j <= cfg.treeDepth && OnPath(cfg.treeDepth, NodeAt(cfg.treeDepth, leaf, j), x.leaf)
        ensures |Unread(cfg, cipher, server.tree)[NodeAt(cfg.treeDepth, leaf, j)]| == cfg.z
      {
        LeftoverBlocked(all, cfg.treeDepth, leaf, cfg.z, cfg.treeDepth - j, x);
      }
    }

    method ReadBuckets(path: seq<nat>)
      requires Ready() && server.InSync() && PlacedWith(positionMap, {}) && AllBelow(CountsOf(server.tree), cfg.s + 1)
      requires forall i :: 0 <= i < |path| ==> path[i] < |server.tree|
      requires forall i, j :: 0 <= i < j < |path| ==> path[i] != path[j]
      modifies this`stash, this`loc, server`trace
      ensures Ready() && server.InSync() && PlacedWith(positionMap, NodeSet(path))
      ensures stash == old(stash) + Along(Unread(cfg, cipher, server.tree), path)
      ensures server.trace == old(server.trace) + Fetches(path)
      ensures NoNewLimbo(old(loc), loc)
    {
      ghost var all, trace, loc0 := stash, server.trace, loc;
      ReadingStart(path);
      for i := 0 to |path|
        invariant Reading(path, i, all, trace, loc0)
      {
        hide *;
        ReadNext(path[i], path, i, all, trace, loc0);
      }
      assert path[..|path|] == path;
    }

    /** The gathering when the buckets of path[..i] have been read. */
    ghost predicate Reading(path: seq<nat>, i: nat, all: seq<RingBlock>, trace: seq<Command>, loc0: map<nat, int>)
      reads this`stash, this`mem, this`loc, this`positionMap, server`tree, server`history, server`trace
    {
      && i <= |path| && (forall i :: 0 <= i < |path| ==> path[i] < |server.tree|)
      && (forall i, j :: 0 <= i < j < |path| ==> path[i] != path[j])
      && Ready() && server.InSync() && PlacedWith(positionMap, NodeSet(path[..i])) && AllBelow(CountsOf(server.tree), cfg.s + 1)
      && stash == all + Along(Unread(cfg, cipher, server.tree), path[..i])
      && server.trace == trace + Fetches(path[..i]) && NoNewLimbo(loc0, loc)
    }

    lemma {:induction false} ReadingStart(path: seq<nat>)
      requires Ready() && server.InSync() && PlacedWith(positionMap, {}) && AllBelow(CountsOf(server.tree), cfg.s + 1)
      requires forall i :: 0 <= i < |path| ==> path[i] < |server.tree|
      requires forall i, j :: 0 <= i < j < |path| ==> path[i] != path[j]
      ensures Reading(path, 0, stash, server.trace, loc)
    {
      hide StoredOk, Placed, Unread;
      assert path[..0] == [] && NodeSet(path[..0]) == {};
    }

    method ReadNext(n: nat, ghost path: seq<nat>, ghost i: nat, ghost all: seq<RingBlock>, ghost trace: seq<Command>,
                    ghost loc0: map<nat, int>)
      requires i < |path| && n == path[i] && Reading(path, i, all, trace, loc0)
      modifies this`stash, this`loc, server`trace
      ensures Reading(path, i + 1, all, trace, loc0)
    {
      hide StoredOk, Placed, Unread, NoNewLimbo, NodeSet, Fetches, Along, CountsOf;
      ghost var before := loc;
      BelowAt(server.tree, cfg.s + 1, n);
      PathGrows(path, i);
      AlongNext(Unread(cfg, cipher, server.tree), path, i);
      ReadBucket(n, NodeSet(path[..i]));
      NoLimboSteps(loc0, before, loc);
    }

    method WriteBuckets(path: seq<nat>, leaf: nat)
      requires leaf < NumLeaves(cfg.treeDepth) && path == PathNodes(cfg.treeDepth, leaf)
      requires Ready() && server.InSync() && SizesOk() && PlacedWith(positionMap, NodeSet(path))
      modifies this`stash, this`loc, server
      ensures Ready() && server.InSync() && PlacedWith(positionMap, {})
      ensures CountsOf(server.tree) == Reset(old(CountsOf(server.tree)), path)
      ensures server.trace == old(server.trace) + Replaces(path)
      ensures NoNewLimbo(old(loc), loc) && Refilled(old(stash), leaf)
      ensures OffPath(old(Unread(cfg, cipher, server.tree)), Unread(cfg, cipher, server.tree), path, 0)
    {
      hide OffPath, Unread;
      ghost var all, counts, trace, loc0 := stash, CountsOf(server.tree), server.trace, loc;
      ghost var contents := Unread(cfg, cipher, server.tree);
      WritingStart(path, leaf);
      OffPathStart(contents, path);
      var i := |path|;
      while i > 0
        invariant 0 <= i <= |path| && Writing(path, i, leaf, all, counts, trace, loc0)
        invariant OffPath(contents, Unread(cfg, cipher, server.tree), path, i)
      {
        hide *;
        i := i - 1;
        WriteNext(path, i, leaf, all, counts, trace, loc0, contents);
      }
      WritingEnd(path, leaf, all, counts, trace, loc0);
    }

    /** The write-back when the buckets of path[i..] have been rewritten. */
    ghost predicate Writing(path: seq<nat>, i: nat, leaf: nat, all: seq<RingBlock>, counts: seq<nat>,
                            trace: seq<Command>, loc0: map<nat, int>)
      reads this, server
    {
      && leaf < NumLeaves(cfg.treeDepth) && path == PathNodes(cfg.treeDepth, leaf) && i <= |path|
      && Ready() && server.InSync() && SizesOk() && PlacedWith(positionMap, NodeSet(path[..i]))
      && CountsOf(server.tree) == Reset(counts, path[i..])
      && trace + Replaces(path) == server.trace + Replaces(path[..i])
      && NoNewLimbo(loc0, loc)
      && LeavesBelow(all, NumLeaves(cfg.treeDepth)) && stash == FillFromLeaf(all, cfg.treeDepth, leaf, cfg.z, |path| - i)
      && PathFilled(Unread(cfg, cipher, server.tree), all, cfg.treeDepth, leaf, cfg.z, i)
    }

    lemma {:induction false} WritingStart(path: seq<nat>, leaf: nat)
      requires leaf < NumLeaves(cfg.treeDepth) && path == PathNodes(cfg.treeDepth, leaf)
      requires Ready() && server.InSync() && SizesOk() && PlacedWith(positionMap, NodeSet(path))
      ensures Writing(path, |path|, leaf, stash, CountsOf(server.tree), server.trace, loc)
    {
      LeavesInRange(cfg, stash, Unread(cfg, cipher, server.tree), positionMap, mem, loc, NodeSet(path));
      hide StoredOk, Placed, Unread, NodeAt;
      assert path[..|path|] == path && path[|path|..] == [];
      ResetNothing(CountsOf(server.tree));
    }

    lemma {:induction false} WritingEnd(path: seq<nat>, leaf: nat, all: seq<RingBlock>, counts: seq<nat>,
                                        trace: seq<Command>, loc0: map<nat, int>)
      requires Writing(path, 0, leaf, all, counts, trace, loc0)
      ensures Ready() && server.InSync() && PlacedWith(positionMap, {}) && NoNewLimbo(loc0, loc)
      ensures CountsOf(server.tree) == Reset(counts, path) && server.trace == trace + Replaces(path)
      ensures Refilled(all, leaf)
    {
      hide StoredOk, Placed, Unread, FillFromLeaf, NodeAt, Reset, PathFilled;
      assert NodeSet(path[..0]) == {} && path[0..] == path;
    }

    method WriteNext(ghost path: seq<nat>, i: nat, leaf: nat, ghost all: seq<RingBlock>, ghost counts: seq<nat>,
                     ghost trace: seq<Command>, ghost loc0: map<nat, int>, ghost contents: seq<seq<RingBlock>>)
      requires i < |path| && Writing(path, i + 1, leaf, all, counts, trace, loc0)
      requires OffPath(contents, Unread(cfg, cipher, server.tree), path, i + 1)
      modifies this`stash, this`loc, server
      ensures Writing(path, i, leaf, all, counts, trace, loc0)
      ensures OffPath(contents, Unread(cfg, cipher, server.tree), path, i)
    {
      hide *;
      ghost var before, blocks := loc, Taken(stash, cfg.treeDepth, path[i], cfg.z);
      WritingHere(path, i, leaf, all, counts, trace, loc0);
      OffPathNext(contents, Unread(cfg, cipher, server.tree), path, i, blocks);
      var n := GetBucketIndex(cfg.treeDepth, leaf, i);
      WriteBucket(n, NodeSet(path[..i + 1]));
      NoLimboSteps(loc0, before, loc);
      WritingOn(path, i, leaf, all, counts, trace, loc0);
    }

    lemma {:induction false} WritingHere(path: seq<nat>, i: nat, leaf: nat, all: seq<RingBlock>, counts: seq<nat>,
                                         trace: seq<Command>, loc0: map<nat, int>)
      requires i < |path| && Writing(path, i + 1, leaf, all, counts, trace, loc0)
      ensures WriteRest(path, i, leaf, all) && NoNewLimbo(loc0, loc)
      ensures leaf < NumLeaves(cfg.treeDepth) && i <= cfg.treeDepth
      ensures Ready() && server.InSync() && SizesOk() && PlacedWith(positionMap, NodeSet(path[..i + 1]))
      ensures path[i] == NodeAt(cfg.treeDepth, leaf, i) && path[i] < |server.tree| && path[i] in NodeSet(path[..i + 1])
      ensures NodeSet(path[..i + 1]) - {path[i]} == NodeSet(path[..i])
      ensures CountsOf(server.tree)[path[i] := 0] == Reset(counts, path[i..])
      ensures trace + Replaces(path) == server.trace + [RingTrace.ReplaceBucket(path[i])] + Replaces(path[..i])
      ensures Kept(stash, cfg.treeDepth, path[i], cfg.z) == FillFromLeaf(all, cfg.treeDepth, leaf, cfg.z, |path| - i)
      ensures PathFilled(Unread(cfg, cipher, server.tree)[path[i] := Taken(stash, cfg.treeDepth, path[i], cfg.z)],
                         all, cfg.treeDepth, leaf, cfg.z, i)
    {
      hide StoredOk, Placed, Unread, PathFilled, NodeAt, NoNewLimbo, Taken, Kept, Reset, Replaces, LeavesBelow, CountsOf,
        NodeSet, RingORAMServer.Valid, RingORAMServer.InSync;
      PathDistinct(cfg.treeDepth, leaf);
      PathFilledNext(Unread(cfg, cipher, server.tree), all, cfg.treeDepth, leaf, cfg.z, i);
      PathShrinks(path, i);
      ResetOneMore(counts, path, i);
    }

    ghost predicate WriteRest(path: seq<nat>, i: nat, leaf: nat, all: seq<RingBlock>)
    {
      && leaf < NumLeaves(cfg.treeDepth) && path == PathNodes(cfg.treeDepth, leaf) && i < |path|
      && LeavesBelow(all, NumLeaves(cfg.treeDepth))
    }

    lemma {:induction false} WritingOn(path: seq<nat>, i: nat, leaf: nat, all: seq<RingBlock>, counts: seq<nat>,
                                       trace: seq<Command>, loc0: map<nat, int>)
      requires WriteRest(path, i, leaf, all) && NoNewLimbo(loc0, loc)
      requires Ready() && server.InSync() && SizesOk() && PlacedWith(positionMap, NodeSet(path[..i]))
      requires CountsOf(server.tree) == Reset(counts, path[i..])
      requires trace + Replaces(path) == server.trace + Replaces(path[..i])
      requires stash == FillFromLeaf(all, cfg.treeDepth, leaf, cfg.z, |path| - i)
      requires PathFilled(Unread(cfg, cipher, server.tree), all, cfg.treeDepth, leaf, cfg.z, i)
      ensures Writing(path, i, leaf, all, counts, trace, loc0)
    {
      hide Ready, SizesOk, PlacedWith, CountsOf, Reset, Replaces, FillFromLeaf, PathFilled, NoNewLimbo, Unread, LeavesBelow,
        PathNodes, RingORAMServer.InSync;
    }

    /** Reads one bucket and writes it back fresh: its blocks join the stash, and the first of them all that may
        live there go in. Afterwards the bucket is full or nobody in the stash may live in it, and whoever left the
        stash is there. */
    method Reshuffle(n: nat)
      requires Ready() && server.InSync() && SizesOk() && PlacedWith(positionMap, {}) && n < |server.tree|
      requires server.tree[n].count <= cfg.s
      modifies this`stash, this`loc, server
      ensures Ready() && server.InSync() && PlacedWith(positionMap, {}) && NoNewLimbo(old(loc), loc)
      ensures CountsOf(server.tree) == old(CountsOf(server.tree))[n := 0]
      ensures server.trace == old(server.trace) + [FetchBucket(n), RingTrace.ReplaceBucket(n)]
      ensures var all := old(stash) + old(Unread(cfg, cipher, server.tree))[n];
              && stash == Kept(all, cfg.treeDepth, n, cfg.z)
              && Unread(cfg, cipher, server.tree)
                 == old(Unread(cfg, cipher, server.tree))[n := Taken(all, cfg.treeDepth, n, cfg.z)]
      ensures Pressed(Unread(cfg, cipher, server.tree), stash, cfg.treeDepth, cfg.z, n)
      ensures forall x :: x in old(stash) ==> x in stash || x in Unread(cfg, cipher, server.tree)[n]
    {
      hide StoredOk, Placed, Unread, CountsOf, NoNewLimbo, Taken, Kept, Pressed, RingORAMServer.Valid,
        RingORAMServer.InSync;
      ghost var before := stash;
      ReadBucket(n, {});
      ghost var between, all := loc, stash;
      assert {} + {n} == {n} && {n} - {n} == {};
      WriteBucket(n, {n});
      NoLimboSteps(old(loc), between, loc);
      FilledPressed(Unread(cfg, cipher, server.tree), all, cfg.treeDepth, cfg.z, n);
      forall x | x in before
        ensures x in stash || x in Unread(cfg, cipher, server.tree)[n]
      {
        TakenMembers(all, cfg.treeDepth, n, cfg.z, x);
      }
    }

    /** Rewrites the buckets of the path that have been read s times. Every other bucket keeps its blocks, and
        at the end no rewritten bucket has room for a block of the stash. */
    method EarlyReshuffle(leaf: nat)
      requires Ready() && server.InSync() && SizesOk() && PlacedWith(positionMap, {}) && leaf < NumLeaves(cfg.treeDepth)
      requires AllBelow(CountsOf(server.tree), cfg.s + 1)
      modifies this`stash, this`loc, this`earlyReshuffleCount, server
      ensures Ready() && server.InSync() && PlacedWith(positionMap, {})
      ensures CountsOf(server.tree) == ResetWorn(old(CountsOf(server.tree)), PathNodes(cfg.treeDepth, leaf), cfg.s)
      ensures server.trace == old(server.trace) + ReshuffleTrace(old(CountsOf(server.tree)), PathNodes(cfg.treeDepth, leaf), cfg.s)
      ensures NoNewLimbo(old(loc), loc)
      ensures Reshuffled(cfg.treeDepth, cfg.z, cfg.s, PathNodes(cfg.treeDepth, leaf), old(CountsOf(server.tree)),
                         cfg.treeDepth + 1, old(Unread(cfg, cipher, server.tree)), old(stash),
                         Unread(cfg, cipher, server.tree), stash)
      ensures earlyReshuffleCount
           == old(earlyReshuffleCount) + |WornNodes(PathNodes(cfg.treeDepth, leaf), old(CountsOf(server.tree)), cfg.s)|
    {
      hide Reshuffled, Unread, WornNodes;
      var path := GetPathTopDown(cfg.treeDepth, leaf);
      ghost var counts, trace, loc0 := CountsOf(server.tree), server.trace, loc;
      ghost var contents, stash0 := Unread(cfg, cipher, server.tree), stash;
      assert path[..0] == [];
      WornNothing(counts, cfg.s);
      ReshuffleStart(cfg.treeDepth, cfg.z, cfg.s, path, counts, contents, stash0);
      NoneWorn(counts, cfg.s);
      assert Reshuffling(path, 0, leaf, counts, trace, loc0);
      for i := 0 to |path|
        invariant Reshuffling(path, i, leaf, counts, trace, loc0)
        invariant Reshuffled(cfg.treeDepth, cfg.z, cfg.s, path, counts, i, contents, stash0,
                             Unread(cfg, cipher, server.tree), stash)
        invariant earlyReshuffleCount == old(earlyReshuffleCount) + |WornNodes(path[..i], counts, cfg.s)|
      {
        hide *;
        ReshuffleNext(path[i], i, leaf, path, counts, trace, loc0, contents, stash0);
      }
      assert path[..|path|] == path;
    }

    /** The reshuffle when the buckets of path[..i] have been looked at. */
    ghost predicate Reshuffling(path: seq<nat>, i: nat, leaf: nat, counts: seq<nat>, trace: seq<Command>,
                                loc0: map<nat, int>)
      reads this, server
    {
      && leaf < NumLeaves(cfg.treeDepth) && path == PathNodes(cfg.treeDepth, leaf) && i <= |path|
      && Ready() && server.InSync() && SizesOk() && PlacedWith(positionMap, {})
      && |counts| == |server.tree| && AllBelow(counts, cfg.s + 1)
      && CountsOf(server.tree) == ResetWorn(counts, path[..i], cfg.s)
      && server.trace == trace + ReshuffleTrace(counts, path[..i], cfg.s)
      && NoNewLimbo(loc0, loc)
    }

    method ReshuffleNext(n: nat, i: nat, ghost leaf: nat, ghost path: seq<nat>, ghost counts: seq<nat>,
                         ghost trace: seq<Command>, ghost loc0: map<nat, int>, ghost contents: seq<seq<RingBlock>>,
                         ghost stash0: seq<RingBlock>)
      requires i < |path| && n == path[i] && Reshuffling(path, i, leaf, counts, trace, loc0)
      requires Reshuffled(cfg.treeDepth, cfg.z, cfg.s, path, counts, i, contents, stash0,
                          Unread(cfg, cipher, server.tree), stash)
      modifies this`stash, this`loc, this`earlyReshuffleCount, server
      ensures Reshuffling(path, i + 1, leaf, counts, trace, loc0)
      ensures Reshuffled(cfg.treeDepth, cfg.z, cfg.s, path, counts, i + 1, contents, stash0,
                         Unread(cfg, cipher, server.tree), stash)
      ensures earlyReshuffleCount + |WornNodes(path[..i], counts, cfg.s)|
           == old(earlyReshuffleCount) + |WornNodes(path[..i + 1], counts, cfg.s)|
    {
      hide *;
      ReshufflingHere(path, i, leaf, counts, trace, loc0);
      ReshuffleAdds(path, i, leaf, counts, contents, stash0);
      var response := server.HandleReadBucketCount(n);
      assert response.Success?;
      if response.value >= cfg.s {
        ghost var before := loc;
        Reshuffle(n);
        NoLimboSteps(loc0, before, loc);
        earlyReshuffleCount := earlyReshuffleCount + 1;
      }
      ReshufflingOn(path, i, leaf, counts, trace, loc0);
    }

    /** What looking at one more bucket makes of stash and buckets, whether it is worn or not. */
    lemma {:induction false} ReshuffleAdds(path: seq<nat>, i: nat, leaf: nat, counts: seq<nat>,
                                           contents: seq<seq<RingBlock>>, stash0: seq<RingBlock>)
      requires ReshuffleRest(path, i, leaf, counts) && Ready() && PlacedWith(positionMap, {})
      requires Reshuffled(cfg.treeDepth, cfg.z, cfg.s, path, counts, i, contents, stash0,
                          Unread(cfg, cipher, server.tree), stash)
      ensures path[i] < |counts| && path[i] < |Unread(cfg, cipher, server.tree)|
      ensures |WornNodes(path[..i + 1], counts, cfg.s)|
           == |WornNodes(path[..i], counts, cfg.s)| + if counts[path[i]] >= cfg.s then 1 else 0
      ensures counts[path[i]] < cfg.s ==>
                Reshuffled(cfg.treeDepth, cfg.z, cfg.s, path, counts, i + 1, contents, stash0,
                           Unread(cfg, cipher, server.tree), stash)
      ensures counts[path[i]] >= cfg.s ==>
                var n, all := path[i], stash + Unread(cfg, cipher, server.tree)[path[i]];
                Reshuffled(cfg.treeDepth, cfg.z, cfg.s, path, counts, i + 1, contents, stash0,
                           Unread(cfg, cipher, server.tree)[n := Taken(all, cfg.treeDepth, n, cfg.z)],
                           Kept(all, cfg.treeDepth, n, cfg.z))
    {
      hide StoredOk, NodeAt, Reshuffled, Taken, Kept, OnPath, RingORAMServer.Valid;
      PathDistinct(cfg.treeDepth, leaf);
      NodeBlocks(path[i]);
      WornCount(path, counts, cfg.s, i);
      if counts[path[i]] < cfg.s {
        ReshufflePasses(cfg.treeDepth, cfg.z, cfg.s, path, counts, i, contents, stash0,
                        Unread(cfg, cipher, server.tree), stash);
      } else {
        ReshuffleRewrites(cfg.treeDepth, cfg.z, cfg.s, path, counts, i, leaf, contents, stash0,
                          Unread(cfg, cipher, server.tree), stash);
      }
    }

    /** A bucket holds at most z unread blocks, all on their paths. */
    lemma {:induction false} NodeBlocks(n: nat)
      requires Ready() && PlacedWith(positionMap, {}) && n < |server.tree|
      ensures |Unread(cfg, cipher, server.tree)[n]| <= cfg.z
      ensures forall x :: x in Unread(cfg, cipher, server.tree)[n] ==> OnPath(cfg.treeDepth, n, x.leaf)
    {
      hide StoredOk, OnPath, RingORAMServer.Valid, LiveBlocks, Decrypted;
      forall x | x in Unread(cfg, cipher, server.tree)[n]
        ensures OnPath(cfg.treeDepth, n, x.leaf)
      {
        assert Here(cfg, positionMap, mem, loc, x, n);
      }
    }

    lemma {:induction false} ReshufflingHere(path: seq<nat>, i: nat, leaf: nat, counts: seq<nat>, trace: seq<Command>,
                                             loc0: map<nat, int>)
      requires i < |path| && Reshuffling(path, i, leaf, counts, trace, loc0)
      ensures Ready() && server.InSync() && SizesOk() && PlacedWith(positionMap, {}) && NoNewLimbo(loc0, loc)
      ensures server.Initialized() && path[i] < |server.tree| && server.tree[path[i]].count <= cfg.s
      ensures path[i] < |counts| && counts[path[i]] == server.tree[path[i]].count
      ensures CountsOf(server.tree) == ResetWorn(counts, path[..i], cfg.s)
      ensures server.trace == trace + ReshuffleTrace(counts, path[..i], cfg.s)
      ensures ReshuffleRest(path, i, leaf, counts)
    {
      hide StoredOk, Placed, Unread, NodeAt, NoNewLimbo, ReshuffleTrace, OnPath;
      PathDistinct(cfg.treeDepth, leaf);
      WornOneMore(counts, path, i, cfg.s);
      assert CountsOf(server.tree)[path[i]] == server.tree[path[i]].count;
    }

    ghost predicate ReshuffleRest(path: seq<nat>, i: nat, leaf: nat, counts: seq<nat>)
    {
      && leaf < NumLeaves(cfg.treeDepth) && path == PathNodes(cfg.treeDepth, leaf) && i < |path|
      && |counts| == NumNodes(cfg.treeDepth) && AllBelow(counts, cfg.s + 1)
    }

    lemma {:induction false} ReshufflingOn(path: seq<nat>, i: nat, leaf: nat, counts: seq<nat>, trace: seq<Command>,
                                           loc0: map<nat, int>)
      requires ReshuffleRest(path, i, leaf, counts)
      requires Ready() && server.InSync() && SizesOk() && PlacedWith(positionMap, {}) && NoNewLimbo(loc0, loc)
      requires path[i] < |counts|
      requires CountsOf(server.tree) == if counts[path[i]] >= cfg.s then ResetWorn(counts, path[..i], cfg.s)[path[i] := 0]
                                        else ResetWorn(counts, path[..i], cfg.s)
      requires server.trace == trace + ReshuffleTrace(counts, path[..i], cfg.s) + [FetchCount(path[i])]
                               + if counts[path[i]] >= cfg.s then [FetchBucket(path[i]), RingTrace.ReplaceBucket(path[i])] else []
      ensures Reshuffling(path, i + 1, leaf, counts, trace, loc0)
    {
      hide Ready, SizesOk, PlacedWith, CountsOf, NoNewLimbo, ResetWorn, ReshuffleTrace, PathNodes, AllBelow, NodeAt;
      PathDistinct(cfg.treeDepth, leaf);
      WornOneMore(counts, path, i, cfg.s);
      WornTraceNext(counts, path, i, cfg.s, trace);
    }

    // ----- accesses -----

    /** Serves one request: reads the path of the old leaf, puts the block back with a new leaf, and now
        and then rewrites buckets. Only bad arguments are refused. */
    method Access(op: Op, addr: nat, data: seq<byte>) returns (r: Result<seq<byte>>)
      requires Valid()
      modifies this, server
      ensures Valid()
      ensures r.Success? <==> addr < cfg.numBlocks && (op == WRITE ==> |data| == cfg.blockSize)
      ensures r.Success? ==>
                && addr in old(positionMap)
                && r.value == Answer(old(mem), Request(op, addr, data), cfg.blockSize)
                && mem == Store(old(mem), Request(op, addr, data))
                && addr in positionMap && positionMap[addr] < NumLeaves(cfg.treeDepth)
                && positionMap == old(positionMap)[addr := positionMap[addr]]
                && cfg.a > 0 && Seen() == NextPublic(cfg, old(Seen()), old(positionMap)[addr])
                && Tidy(cfg.treeDepth, cfg.z, RewrittenBy(cfg, old(Seen()), old(positionMap)[addr]),
                        WithoutAddr(old(Unread(cfg, cipher, server.tree)),
                                    NodeSet(PathNodes(cfg.treeDepth, old(positionMap)[addr])), addr),
                        Unread(cfg, cipher, server.tree), stash)
                && ((old(round) + 1) % cfg.a == 0 ==>
                      PathDeepest(Unread(cfg, cipher, server.tree), cfg.treeDepth, cfg.z,
                                  NodeSet(EvictionPath(cfg, old(evictionCounter)))))
                && server.trace == old(server.trace) + AccessTrace(cfg, old(Seen()), old(positionMap)[addr])
                && readPathCount == old(readPathCount) + 1
                && earlyReshuffleCount
                   == old(earlyReshuffleCount)
                      + |WornNodes(PathNodes(cfg.treeDepth, old(positionMap)[addr]),
                                   CountsBeforeReshuffle(cfg, old(Seen()), old(positionMap)[addr]), cfg.s)|
      ensures r.Failure? ==>
                && unchanged(this) && unchanged(server)
                && r.error == if addr >= cfg.numBlocks then OutOfRange else InvalidArgument
    {
      hide Valid, Ready, SizesOk, PlacedWith, Tidy, WornNodes, PathDeepest, EvictionPath, RewrittenBy, WithoutAddr, NodeSet, PathNodes, AccessTrace, NextPublic,
        Answer, Store, AllBelow, CountsBeforeReshuffle, Unread, OnPath, Bump, RingORAMServer.InSync;
      if addr >= cfg.numBlocks { return Failure(OutOfRange); }
      if op == WRITE && |data| != cfg.blockSize { return Failure(InvalidArgument); }
      AddressKnown(addr);
      BudgetHere(positionMap[addr]);
      ghost var seen, trace := Seen(), server.trace;
      var oldLeaf := positionMap[addr];
      var newLeaf := GetRandomLeaf(cfg.treeDepth);
      var answer := ServeRequest(op, addr, data, oldLeaf, newLeaf);
      Maintain(oldLeaf, seen, trace);
      return Success(answer);
    }

    /** The rewriting that follows every read of a path. */
    method Maintain(oldLeaf: nat, ghost seen: Public, ghost trace: seq<Command>)
      requires Ready() && server.InSync() && SizesOk() && PlacedWith(positionMap, {})
      requires (forall a :: a in loc ==> loc[a] != LIMBO)
      requires oldLeaf < NumLeaves(cfg.treeDepth) && seen.round == round && seen.evictions == evictionCounter
      requires CountsOf(server.tree) == Bump(seen.counts, PathNodes(cfg.treeDepth, oldLeaf))
      requires server.trace == trace + [ReadMetadata(oldLeaf), XorSlots(oldLeaf)]
      requires AllBelow(seen.counts, cfg.s) && AllBelow(CountsBeforeReshuffle(cfg, seen, oldLeaf), cfg.s + 1)
      modifies this`stash, this`loc, this`round, this`evictionCounter, this`earlyReshuffleCount, server
      ensures Valid() && Seen() == NextPublic(cfg, seen, oldLeaf)
      ensures cfg.a > 0
      ensures Tidy(cfg.treeDepth, cfg.z, RewrittenBy(cfg, seen, oldLeaf), old(Unread(cfg, cipher, server.tree)),
                   Unread(cfg, cipher, server.tree), stash)
      ensures earlyReshuffleCount
           == old(earlyReshuffleCount)
              + |WornNodes(PathNodes(cfg.treeDepth, oldLeaf), CountsBeforeReshuffle(cfg, seen, oldLeaf), cfg.s)|
      ensures (seen.round + 1) % cfg.a == 0 ==>
                PathDeepest(Unread(cfg, cipher, server.tree), cfg.treeDepth, cfg.z,
                            NodeSet(EvictionPath(cfg, seen.evictions)))
      ensures server.trace == trace + AccessTrace(cfg, seen, oldLeaf)
    {
      hide *;
      BumpBelow(seen.counts, PathNodes(cfg.treeDepth, oldLeaf), cfg.s);
      ConfigOk();
      ghost var loc0, contents := loc, Unread(cfg, cipher, server.tree);
      NoLimboSteps(loc0, loc0, loc0);
      round := (round + 1) % cfg.a;
      ReadyForEviction(seen, oldLeaf);
      if round == 0 {
        ghost var gathered := EvictPath();
      }
      ReadyForReshuffle(seen, trace, oldLeaf);
      ghost var loc1, mid, stash1 := loc, Unread(cfg, cipher, server.tree), stash;
      EarlyReshuffle(oldLeaf);
      AccessTidy(cfg, seen, oldLeaf, contents, mid, stash1, Unread(cfg, cipher, server.tree), stash);
      NoLimboSteps(loc0, loc1, loc);
      StillNoLimbo(loc0, loc);
      Maintained(seen, trace, oldLeaf);
    }

    lemma {:induction false} ConfigOk()
      requires Ready()
      ensures cfg.a > 0 && cfg.s > 0
    {
    }

    lemma {:induction false} ReadyForEviction(seen: Public, oldLeaf: nat)
      requires cfg.a > 0 && round == (seen.round + 1) % cfg.a && evictionCounter == seen.evictions
      requires CountsOf(server.tree) == Bump(seen.counts, PathNodes(cfg.treeDepth, oldLeaf))
      ensures CountsBeforeReshuffle(cfg, seen, oldLeaf)
           == if round == 0 then Reset(CountsOf(server.tree), EvictionPath(cfg, evictionCounter)) else CountsOf(server.tree)
    {
      hide CountsOf, Bump, Reset, EvictionPath;
    }

    lemma {:induction false} ReadyForReshuffle(seen: Public, trace: seq<Command>, oldLeaf: nat)
      requires cfg.a > 0 && round == (seen.round + 1) % cfg.a
      requires evictionCounter == if round == 0 then seen.evictions + 1 else seen.evictions
      requires CountsOf(server.tree) == CountsBeforeReshuffle(cfg, seen, oldLeaf)
      requires server.trace == trace + [ReadMetadata(oldLeaf), XorSlots(oldLeaf)]
                 + if round == 0 then EvictTrace(EvictionPath(cfg, seen.evictions)) else []
      ensures server.trace + ReshuffleTrace(CountsOf(server.tree), PathNodes(cfg.treeDepth, oldLeaf), cfg.s)
           == trace + AccessTrace(cfg, seen, oldLeaf)
    {
      hide CountsOf, EvictTrace, EvictionPath, ReshuffleTrace, CountsBeforeReshuffle, PathNodes;
    }

    lemma {:induction false} Maintained(seen: Public, trace: seq<Command>, oldLeaf: nat)
      requires Ready() && server.InSync() && SizesOk() && PlacedWith(positionMap, {})
      requires (forall a :: a in loc ==> loc[a] != LIMBO)
      requires cfg.a > 0 && cfg.s > 0 && round == (seen.round + 1) % cfg.a && AllBelow(seen.counts, cfg.s)
      requires evictionCounter == if round == 0 then seen.evictions + 1 else seen.evictions
      requires CountsOf(server.tree)
            == ResetWorn(CountsBeforeReshuffle(cfg, seen, oldLeaf), PathNodes(cfg.treeDepth, oldLeaf), cfg.s)
      ensures Valid() && Seen() == NextPublic(cfg, seen, oldLeaf)
    {
      BudgetKept(cfg, seen, oldLeaf);
      hide Ready, PlacedWith, SizesOk, CountsOf, ResetWorn, CountsBeforeReshuffle, PathNodes;
    }

    lemma {:induction false} BudgetHere(leaf: nat)
      requires Valid()
      ensures cfg.a > 0 && AllBelow(Seen().counts, cfg.s)
      ensures AllBelow(CountsBeforeReshuffle(cfg, Seen(), leaf), cfg.s + 1)
    {
      hide StoredOk, Placed, CountsBeforeReshuffle, RingORAMServer.Valid, RingORAMServer.InSync;
      BudgetKept(cfg, Seen(), leaf);
    }

    lemma {:induction false} AddressKnown(addr: nat)
      requires Valid() && addr < cfg.numBlocks
      ensures addr in positionMap && positionMap[addr] < NumLeaves(cfg.treeDepth) && addr != DUMMY
      ensures addr in loc
      ensures loc[addr] == STASH || (loc[addr] >= 0 && OnPath(cfg.treeDepth, loc[addr], positionMap[addr]))
    {
    }

    /** Finds the block in the tree or in the stash, answers, and puts it into the stash with its new leaf. */
    method ServeRequest(op: Op, addr: nat, data: seq<byte>, oldLeaf: nat, newLeaf: nat) returns (answer: seq<byte>)
      requires Valid() && addr < cfg.numBlocks && newLeaf < NumLeaves(cfg.treeDepth)
      requires op == WRITE ==> |data| == cfg.blockSize
      requires addr in positionMap && positionMap[addr] == oldLeaf
      modifies this`positionMap, this`readPathCount, this`stash, this`loc, this`mem, server
      ensures Ready() && server.InSync() && SizesOk() && PlacedWith(positionMap, {})
      ensures (forall a :: a in loc ==> loc[a] != LIMBO)
      ensures positionMap == old(positionMap)[addr := newLeaf]
      ensures answer == Answer(old(mem), Request(op, addr, data), cfg.blockSize)
      ensures mem == Store(old(mem), Request(op, addr, data))
      ensures Unread(cfg, cipher, server.tree)
           == WithoutAddr(old(Unread(cfg, cipher, server.tree)), NodeSet(PathNodes(cfg.treeDepth, oldLeaf)), addr)
      ensures CountsOf(server.tree) == Bump(old(CountsOf(server.tree)), PathNodes(cfg.treeDepth, oldLeaf))
      ensures server.trace == old(server.trace) + [ReadMetadata(oldLeaf), XorSlots(oldLeaf)]
      ensures readPathCount == old(readPathCount) + 1
    {
      hide *;
      AddressKnown(addr);
      ServeStart();
      AfterReadFacts(cfg.treeDepth, loc, addr, oldLeaf);
      ghost var oldMap := positionMap;
      positionMap := positionMap[addr := newLeaf];
      var pathData := ReadPath(oldLeaf, addr, oldMap);
      answer := MoveToStash(pathData, op, addr, data, newLeaf, oldMap);
    }

    /** Takes the block from where it was found, applies the request and puts it into the stash. */
    method MoveToStash(pathData: Option<seq<byte>>, op: Op, addr: nat, data: seq<byte>, newLeaf: nat,
                       ghost pos: PositionMap) returns (answer: seq<byte>)
      requires Ready() && SizesOk() && PlacedWith(pos, {})
      requires addr in pos && addr in loc && addr != DUMMY
      requires pathData == if loc[addr] == LIMBO then Some(Load(mem, addr, cfg.blockSize)) else None
      requires (loc[addr] == LIMBO || loc[addr] == STASH) && forall a :: a in loc && a != addr ==> loc[a] != LIMBO
      requires positionMap == pos[addr := newLeaf] && newLeaf < NumLeaves(cfg.treeDepth)
      requires op == WRITE ==> |data| == cfg.blockSize
      modifies this`stash, this`loc, this`mem
      ensures SizesOk() && PlacedWith(positionMap, {}) && (forall a :: a in loc ==> loc[a] != LIMBO)
      ensures mem == Store(old(mem), Request(op, addr, data))
      ensures answer == Answer(old(mem), Request(op, addr, data), cfg.blockSize)
    {
      hide Ready, SizesOk, PlacedWith, Store, Answer, Load;
      var block := TakeBlock(pathData, addr, newLeaf, pos);
      answer := UpdateBlock(block, op, addr, data, newLeaf, pos);
    }

    /** Applies the request to the block in hand and puts it into the stash. */
    method UpdateBlock(taken: RingBlock, op: Op, addr: nat, data: seq<byte>, newLeaf: nat, ghost pos: PositionMap)
      returns (answer: seq<byte>)
      requires Ready() && SizesOk() && PlacedWith(pos, {})
      requires addr in pos && addr in loc && loc[addr] == LIMBO && addr != DUMMY
      requires positionMap == pos[addr := newLeaf] && newLeaf < NumLeaves(cfg.treeDepth)
      requires taken == RingBlock(addr, newLeaf, Load(mem, addr, cfg.blockSize))
      requires op == WRITE ==> |data| == cfg.blockSize
      modifies this`stash, this`loc, this`mem
      ensures SizesOk() && PlacedWith(positionMap, {}) && loc == old(loc)[addr := STASH]
      ensures mem == Store(old(mem), Request(op, addr, data))
      ensures answer == Answer(old(mem), Request(op, addr, data), cfg.blockSize)
    {
      hide *;
      var block := taken;
      if op == WRITE {
        block := block.(data := data);
      }
      block := block.(addr := addr, leaf := newLeaf);
      AnswerIs(mem, Request(op, addr, data), cfg.blockSize);
      ReturnBlock(block, op, data, pos);
      answer := block.data;
    }

    lemma {:induction false} ServeStart()
      requires Valid()
      ensures Ready() && server.InSync() && SizesOk() && PlacedWith(positionMap, {})
      ensures AllBelow(CountsOf(server.tree), cfg.s)
      ensures forall a :: a in loc ==> loc[a] != LIMBO
    {
    }

    /** The current copy of the block, now in nobody's hands but the client's. A block of zeros is never
        made up, because every address has a block. */
    method TakeBlock(pathData: Option<seq<byte>>, addr: nat, newLeaf: nat, ghost pos: PositionMap)
      returns (block: RingBlock)
      requires Ready() && PlacedWith(pos, {}) && addr in pos && addr in loc
      requires pathData == if loc[addr] == LIMBO then Some(Load(mem, addr, cfg.blockSize)) else None
      requires loc[addr] == LIMBO || loc[addr] == STASH
      modifies this`stash, this`loc
      ensures PlacedWith(pos, {}) && loc == old(loc)[addr := LIMBO]
      ensures block == RingBlock(addr, newLeaf, Load(mem, addr, cfg.blockSize))
    {
      hide Ready, Unread, Located, Load;
      if pathData.Some? {
        block := RingBlock(addr, newLeaf, pathData.value);
        InLimbo(cfg, stash, Unread(cfg, cipher, server.tree), pos, mem, loc, addr);
        RemoveNone(stash, addr);
        RemoveBlockFromStash(addr);
      } else {
        TakePlaced(cfg, stash, Unread(cfg, cipher, server.tree), pos, mem, loc, addr);
        var taken := TakeBlockFromStash(addr);
        assert taken.Some? by {
          assert Current(cfg, pos, mem, addr) in old(stash);
        }
        assert Here(cfg, pos, mem, old(loc), taken.value, STASH);
        block := taken.value.(leaf := newLeaf);
        loc := loc[addr := LIMBO];
      }
    }

    method ReturnBlock(block: RingBlock, ghost op: Op, ghost data: seq<byte>, ghost pos: PositionMap)
      requires Ready() && SizesOk() && PlacedWith(pos, {})
      requires block.addr in pos && block.addr in loc && loc[block.addr] == LIMBO && block.addr != DUMMY
      requires positionMap == pos[block.addr := block.leaf] && block.leaf < NumLeaves(cfg.treeDepth)
      requires block.data == Answer(mem, Request(op, block.addr, data), cfg.blockSize)
      requires op == WRITE ==> |data| == cfg.blockSize
      modifies this`stash, this`loc, this`mem
      ensures SizesOk() && PlacedWith(positionMap, {}) && loc == old(loc)[block.addr := STASH]
      ensures mem == Store(old(mem), Request(op, block.addr, data))
    {
      hide Ready, Unread, Located, Remove;
      var addr := block.addr;
      ghost var mem' := Store(mem, Request(op, addr, data));
      InLimbo(cfg, stash, Unread(cfg, cipher, server.tree), pos, mem, loc, addr);
      RemoveNone(stash, addr);
      PutPlaced(cfg, stash, Unread(cfg, cipher, server.tree), pos, mem, loc, addr, block.leaf, mem');
      PutBlockInStash(block);
      assert block == Current(cfg, positionMap, mem', addr);
      mem, loc := mem', loc[addr := STASH];
    }

    method Read(addr: nat) returns (r: Result<seq<byte>>)
      requires Valid()
      modifies this, server
      ensures Valid() && mem == old(mem)
      ensures r == if addr < cfg.numBlocks then Success(Load(mem, addr, cfg.blockSize)) else Failure(OutOfRange)
    {
      r := Access(READ, addr, []);
    }

    method Write(addr: nat, data: seq<byte>) returns (r: Result<seq<byte>>)
      requires Valid()
      modifies this, server
      ensures Valid()
      ensures r.Success? <==> addr < cfg.numBlocks && |data| == cfg.blockSize
      ensures mem == if r.Success? then old(mem)[addr := data] else old(mem)
    {
      r := Access(WRITE, addr, data);
    }
  }

  /** The position map after as many requests as leaves were drawn. */
  ghost function Redrawn(pos: PositionMap, requests: seq<Request>, drawn: seq<nat>): (r: PositionMap)
    requires |drawn| <= |requests|
    ensures forall a :: a in pos ==> a in r
  {
    if drawn == [] then pos else
      var n := |drawn| - 1;
      Redrawn(pos, requests, drawn[..n])[requests[n].addr := drawn[n]]
  }

  /** The leaves whose paths are read: for each request the one drawn at the last access to its address. */
  ghost function LeavesRead(pos: PositionMap, requests: seq<Request>, drawn: seq<nat>): (leaves: seq<nat>)
    requires |drawn| <= |requests| && forall i :: 0 <= i < |requests| ==> requests[i].addr in pos
    ensures |leaves| == |drawn|
  {
    if drawn == [] then [] else
      var n := |drawn| - 1;
      LeavesRead(pos, requests, drawn[..n]) + [Redrawn(pos, requests, drawn[..n])[requests[n].addr]]
  }

  lemma {:induction false} DrawOne(pos: PositionMap, requests: seq<Request>, drawn: seq<nat>, leaf: nat)
    requires |drawn| < |requests| && forall i :: 0 <= i < |requests| ==> requests[i].addr in pos
    ensures var now, addr := Redrawn(pos, requests, drawn), requests[|drawn|].addr;
            && Redrawn(pos, requests, drawn + [leaf]) == now[addr := leaf]
            && LeavesRead(pos, requests, drawn + [leaf]) == LeavesRead(pos, requests, drawn) + [now[addr]]
  {
    assert (drawn + [leaf])[..|drawn|] == drawn;
  }

  ghost predicate AllAcceptable(cfg: Config, requests: seq<Request>)
  {
    forall i :: 0 <= i < |requests| ==>
      requests[i].addr < cfg.numBlocks && (requests[i].op == WRITE ==> |requests[i].data| == cfg.blockSize)
  }

  ghost predicate InRange(cfg: Config, leaves: seq<nat>)
  {
    forall i :: 0 <= i < |leaves| ==> leaves[i] < NumLeaves(cfg.treeDepth)
  }

  /** A client and its server at one time. */
  datatype Snapshot = Snapshot(mem: Memory, seen: Public, trace: seq<Command>, pos: PositionMap, stash: seq<RingBlock>,
                               unread: seq<seq<RingBlock>>)

  ghost function SnapshotOf(client: RingORAMClient): Snapshot
    reads client, client.server
  {
    Snapshot(client.mem, client.Seen(), client.server.trace, client.positionMap, client.stash,
             Unread(client.cfg, client.cipher, client.server.tree))
  }

  /** What one access does to the buckets: the address leaves its old path; the evicted path and the worn buckets
      are rewritten and have no room for anyone left in the stash; all others keep their blocks. */
  ghost predicate Rearranged(cfg: Config, before: Snapshot, after: Snapshot, addr: nat)
  {
    && cfg.a > 0 && addr in before.pos
    && Tidy(cfg.treeDepth, cfg.z, RewrittenBy(cfg, before.seen, before.pos[addr]),
            WithoutAddr(before.unread, NodeSet(PathNodes(cfg.treeDepth, before.pos[addr])), addr), after.unread,
            after.stash)
    && ((before.seen.round + 1) % cfg.a == 0 ==>
          PathDeepest(after.unread, cfg.treeDepth, cfg.z, NodeSet(EvictionPath(cfg, before.seen.evictions))))
  }

  /** A run after its first i requests, with all its states. */
  ghost predicate Ran(cfg: Config, requests: seq<Request>, i: nat, answers: seq<seq<byte>>, leaves: seq<nat>,
                      drawn: seq<nat>, states: seq<Snapshot>)
  {
    && i <= |requests| && cfg.a > 0 && AllAcceptable(cfg, requests) && |states| == i + 1
    && states[i].mem == After(states[0].mem, requests[..i])
    && answers == Answers(states[0].mem, requests[..i], cfg.blockSize)
    && |leaves| == |drawn| == i && InRange(cfg, leaves) && InRange(cfg, drawn)
    && (forall j :: 0 <= j < |requests| ==> requests[j].addr in states[0].pos)
    && states[i].pos == Redrawn(states[0].pos, requests, drawn)
    && leaves == LeavesRead(states[0].pos, requests, drawn)
    && states[i].seen == RunPublic(cfg, states[0].seen, leaves)
    && states[i].trace == states[0].trace + RunTrace(cfg, states[0].seen, leaves)
    && AllRearranged(cfg, requests, states)
  }

  ghost predicate AllRearranged(cfg: Config, requests: seq<Request>, states: seq<Snapshot>)
  {
    && |states| <= |requests| + 1
    && forall i: nat :: i + 1 < |states| ==> Rearranged(cfg, states[i], states[i + 1], requests[i].addr)
  }

  lemma {:induction false} RunUnrolls(cfg: Config, requests: seq<Request>, i: nat, leaves: seq<nat>, leaf: nat,
                                      start: Snapshot)
    requires i < |requests| && |leaves| == i && cfg.a > 0
    ensures After(start.mem, requests[..i + 1]) == Store(After(start.mem, requests[..i]), requests[i])
    ensures Answers(start.mem, requests[..i + 1], cfg.blockSize)
         == Answers(start.mem, requests[..i], cfg.blockSize)
            + [Answer(After(start.mem, requests[..i]), requests[i], cfg.blockSize)]
    ensures RunPublic(cfg, start.seen, leaves + [leaf]) == NextPublic(cfg, RunPublic(cfg, start.seen, leaves), leaf)
    ensures RunTrace(cfg, start.seen, leaves + [leaf])
         == RunTrace(cfg, start.seen, leaves) + AccessTrace(cfg, RunPublic(cfg, start.seen, leaves), leaf)
  {
    hide Store, Answer, NextPublic, AccessTrace;
    assert requests[..i + 1][..i] == requests[..i];
    assert (leaves + [leaf])[..i] == leaves;
  }

  lemma {:induction false} RanNext(cfg: Config, requests: seq<Request>, i: nat, answers: seq<seq<byte>>,
                                   leaves: seq<nat>, drawn: seq<nat>, states: seq<Snapshot>, next: Snapshot)
    requires i < |requests| && Ran(cfg, requests, i, answers, leaves, drawn, states)
    requires var addr, now := requests[i].addr, states[i];
             && addr in now.pos && now.pos[addr] < NumLeaves(cfg.treeDepth)
             && addr in next.pos && next.pos[addr] < NumLeaves(cfg.treeDepth)
             && next.pos == now.pos[addr := next.pos[addr]]
             && next.mem == Store(now.mem, requests[i]) && next.seen == NextPublic(cfg, now.seen, now.pos[addr])
             && next.trace == now.trace + AccessTrace(cfg, now.seen, now.pos[addr])
             && Rearranged(cfg, now, next, addr)
    ensures Ran(cfg, requests, i + 1, answers + [Answer(states[i].mem, requests[i], cfg.blockSize)],
                leaves + [states[i].pos[requests[i].addr]], drawn + [next.pos[requests[i].addr]], states + [next])
  {
    hide Store, Answer, NextPublic, AccessTrace, LeavesRead, Redrawn, NumLeaves, After, Answers, RunPublic, RunTrace,
      Rearranged;
    RunUnrolls(cfg, requests, i, leaves, states[i].pos[requests[i].addr], states[0]);
    DrawOne(states[0].pos, requests, drawn, next.pos[requests[i].addr]);
  }

  lemma {:induction false} RunStarts(client: RingORAMClient, requests: seq<Request>)
    requires client.Valid() && AllAcceptable(client.cfg, requests)
    ensures Ran(client.cfg, requests, 0, [], [], [], [SnapshotOf(client)])
  {
    hide StoredOk, NodeAt, RingORAMServer.Valid, RingORAMServer.InSync;
    assert requests[..0] == [];
    forall i | 0 <= i < |requests|
      ensures requests[i].addr in client.positionMap
    {
      client.AddressKnown(requests[i].addr);
    }
  }

  lemma {:induction false} OnceInRun(client: RingORAMClient)
    requires client.Valid()
    ensures OnceOnly(client.server.history) && client.server.InSync()
  {
    hide StoredOk, NodeAt, OnceOnly, Asked, Touched, Placed;
  }

  method RunOne(client: RingORAMClient, requests: seq<Request>, answers: seq<seq<byte>>, ghost leaves: seq<nat>,
                ghost drawn: seq<nat>, ghost states: seq<Snapshot>)
    returns (answers': seq<seq<byte>>, ghost leaves': seq<nat>, ghost drawn': seq<nat>, ghost states': seq<Snapshot>)
    requires |leaves| < |requests| && |answers| == |leaves| && |states| == |leaves| + 1 && client.Valid()
    requires Ran(client.cfg, requests, |leaves|, answers, leaves, drawn, states) && states[|leaves|] == SnapshotOf(client)
    modifies client, client.server
    ensures client.Valid() && |answers'| == |leaves'| == |leaves| + 1 && |states'| == |leaves| + 2
    ensures Ran(client.cfg, requests, |leaves| + 1, answers', leaves', drawn', states')
    ensures states'[0] == states[0] && states'[|leaves| + 1] == SnapshotOf(client)
  {
    hide RingORAMClient.Valid, RingORAMClient.Seen, Ran, NextPublic, AccessTrace, Answer, Store, OnPath, Tidy,
      PathDeepest, RewrittenBy, WithoutAddr, EvictionPath, NodeSet, PathNodes, WornNodes, CountsBeforeReshuffle, Unread;
    var request := requests[|answers|];
    RanBounds(client.cfg, requests, |leaves|, answers, leaves, drawn, states);
    client.AddressKnown(request.addr);
    ghost var leaf := client.positionMap[request.addr];
    SeenRound(client);
    var answer := client.Access(request.op, request.addr, request.data);
    assert answer.Success?;
    RanNext(client.cfg, requests, |leaves|, answers, leaves, drawn, states, SnapshotOf(client));
    answers', leaves', drawn' := answers + [answer.value], leaves + [leaf], drawn + [client.positionMap[request.addr]];
    states' := states + [SnapshotOf(client)];
  }

  lemma {:induction false} SeenRound(client: RingORAMClient)
    ensures client.Seen().round == client.round && client.Seen().evictions == client.evictionCounter
  {
  }

  lemma {:induction false} RanBounds(cfg: Config, requests: seq<Request>, i: nat, answers: seq<seq<byte>>,
                                     leaves: seq<nat>, drawn: seq<nat>, states: seq<Snapshot>)
    requires Ran(cfg, requests, i, answers, leaves, drawn, states)
    ensures AllAcceptable(cfg, requests) && cfg.a > 0
  {
  }

  /** A whole run: every answer is the one a plain memory gives; what the server has seen is a function of the
      leaves that were read, which are those drawn at random before; no slot leaves the server twice before its
      bucket is rewritten; and every access rearranges the blocks as it should. */
  method RunWorkload(client: RingORAMClient, requests: seq<Request>)
    returns (answers: seq<seq<byte>>, ghost leaves: seq<nat>, ghost drawn: seq<nat>, ghost states: seq<Snapshot>)
    requires client.Valid() && AllAcceptable(client.cfg, requests)
    modifies client, client.server
    ensures client.Valid() && client.mem == After(old(client.mem), requests)
    ensures answers == Answers(old(client.mem), requests, client.cfg.blockSize)
    ensures |drawn| == |requests| && forall i :: 0 <= i < |drawn| ==> drawn[i] < NumLeaves(client.cfg.treeDepth)
    ensures forall i :: 0 <= i < |requests| ==> requests[i].addr in old(client.positionMap)
    ensures client.positionMap == Redrawn(old(client.positionMap), requests, drawn)
    ensures leaves == LeavesRead(old(client.positionMap), requests, drawn)
    ensures forall i :: 0 <= i < |leaves| ==> leaves[i] < NumLeaves(client.cfg.treeDepth)
    ensures client.Seen() == RunPublic(client.cfg, old(client.Seen()), leaves)
    ensures client.server.trace == old(client.server.trace) + RunTrace(client.cfg, old(client.Seen()), leaves)
    ensures OnceOnly(client.server.history) && client.server.InSync()
    ensures |states| == |requests| + 1 && states[0] == old(SnapshotOf(client)) && states[|requests|] == SnapshotOf(client)
    ensures forall i: nat :: i < |requests| ==> Rearranged(client.cfg, states[i], states[i + 1], requests[i].addr)
  {
    hide RingORAMClient.Valid, RingORAMClient.Seen, Redrawn, LeavesRead, Rearranged;
    answers, leaves, drawn, states := [], [], [], [SnapshotOf(client)];
    RunStarts(client, requests);
    for i := 0 to |requests|
      invariant |answers| == |leaves| == i && |states| == i + 1 && client.Valid()
      invariant Ran(client.cfg, requests, i, answers, leaves, drawn, states)
      invariant states[0] == old(SnapshotOf(client)) && states[i] == SnapshotOf(client)
    {
      hide *;
      answers, leaves, drawn, states := RunOne(client, requests, answers, leaves, drawn, states);
    }
    assert requests[..|requests|] == requests;
    OnceInRun(client);
  }
}
