/** Ring ORAM: the server. It stores encrypted buckets, reveals slots one per bucket as a single
    exclusive-or, and never gives out a slot twice between two rewrites of its bucket. */
module RingServers {
  import opened Bytes
  import opened CtrCipher
  import opened HeapTree
  import opened Results
  import opened RingBuckets
  import opened RingHistory
  import opened RingState
  import opened RingTrace

  datatype Metadata = Metadata(count: nat, valids: seq<bool>, addrs: seq<EncryptedField>, leaves: seq<EncryptedField>,
                               ptrs: seq<EncryptedField>)

  function MetadataOf(e: EncryptedRingBucket): Metadata
  {
    Metadata(e.count, e.valids, e.addrs, e.leaves, e.ptrs)
  }

  datatype XorReply = XorReply(aggregate: seq<byte>, ivs: seq<seq<byte>>)

  function ConsumeStored(e: EncryptedRingBucket, slot: nat): EncryptedRingBucket
    requires slot < |e.valids|
  {
    e.(valids := e.valids[slot := false], count := e.count + 1)
  }

  /** The server may hand out this slot. */
  predicate SlotReady(cfg: Config, e: EncryptedRingBucket, slot: nat)
  {
    slot < |e.data| && slot < |e.valids| && e.valids[slot] && |e.data[slot].ciphertext| == cfg.blockSize
  }

  ghost predicate PathReady(cfg: Config, tree: seq<EncryptedRingBucket>, path: seq<nat>, offsets: seq<nat>, k: nat)
  {
    && k <= |path| == |offsets|
    && forall i :: 0 <= i < k ==> path[i] < |tree| && SlotReady(cfg, tree[path[i]], offsets[i])
  }

  /** The tree after the first k slots of a path have been handed out. */
  ghost predicate Revealed(tree: seq<EncryptedRingBucket>, tree': seq<EncryptedRingBucket>, path: seq<nat>,
                           offsets: seq<nat>, k: nat)
  {
    && |tree'| == |tree| && k <= |path| == |offsets|
    && (forall i :: 0 <= i < k ==> path[i] < |tree| && offsets[i] < |tree[path[i]].valids|
                                   && tree'[path[i]] == ConsumeStored(tree[path[i]], offsets[i]))
    && (forall n :: 0 <= n < |tree| && n !in path[..k] ==> tree'[n] == tree[n])
  }

  /** Slots that have been handed out are marked as used. */
  ghost predicate OutIsUsed(tree: seq<EncryptedRingBucket>, history: seq<Event>)
  {
    forall n: nat, slot: nat :: IsOut(history, n, slot) ==> n < |tree| && slot < |tree[n].valids| && !tree[n].valids[slot]
  }

  lemma {:induction false} HandingOut(tree: seq<EncryptedRingBucket>, history: seq<Event>, n: nat, slot: nat)
    requires OutIsUsed(tree, history) && OnceOnly(history)
    requires n < |tree| && slot < |tree[n].valids| && tree[n].valids[slot]
    ensures OutIsUsed(tree[n := ConsumeStored(tree[n], slot)], history + [HandedOut(n, slot)])
    ensures OnceOnly(history + [HandedOut(n, slot)])
  {
    hide IsOut, OnceOnly;
    forall m: nat, other: nat
      ensures IsOut(history + [HandedOut(n, slot)], m, other) <==> (m == n && other == slot) || IsOut(history, m, other)
    {
      OutAfter(history, HandedOut(n, slot), m, other);
    }
    OutAfter(history, HandedOut(n, slot), n, slot);
  }

  lemma {:induction false} Rewriting(tree: seq<EncryptedRingBucket>, history: seq<Event>, n: nat,
                                     bucket: EncryptedRingBucket)
    requires OutIsUsed(tree, history) && OnceOnly(history) && n < |tree|
    ensures OutIsUsed(tree[n := bucket], history + [Rewritten(n)])
    ensures OnceOnly(history + [Rewritten(n)])
  {
    hide IsOut, OnceOnly;
    forall m: nat, slot: nat
      ensures IsOut(history + [Rewritten(n)], m, slot) ==> m != n && IsOut(history, m, slot)
    {
      OutAfter(history, Rewritten(n), m, slot);
    }
    OutAfter(history, Rewritten(n), n, 0);
  }

  lemma {:induction false} Restarting(history: seq<Event>)
    requires OnceOnly(history)
    ensures OnceOnly(history + [Restarted])
    ensures forall n: nat, slot: nat :: !IsOut(history + [Restarted], n, slot)
  {
    hide IsOut, OnceOnly;
    OutAfter(history, Restarted, 0, 0);
    forall n: nat, slot: nat
      ensures !IsOut(history + [Restarted], n, slot)
    {
      OutAfter(history, Restarted, n, slot);
    }
  }

  lemma {:induction false} HandedStart(history: seq<Event>, path: seq<nat>, offsets: seq<nat>)
    ensures history + Handed(path, offsets, 0) == history
  {
  }

  lemma {:induction false} HandedNext(history: seq<Event>, path: seq<nat>, offsets: seq<nat>, k: nat)
    requires k < |path| && k < |offsets|
    ensures history + Handed(path, offsets, k) + [HandedOut(path[k], offsets[k])] == history + Handed(path, offsets, k + 1)
  {
  }

  /** The vectors and initialisation vectors of the first k chosen slots. */
  ghost predicate Selected(cfg: Config, tree: seq<EncryptedRingBucket>, path: seq<nat>, offsets: seq<nat>, k: nat,
                           vectors: seq<seq<byte>>, ivs: seq<seq<byte>>)
  {
    && k <= |path| == |offsets| && |vectors| == |ivs| == k && AllOfSize(vectors, cfg.blockSize)
    && forall i :: 0 <= i < k ==> path[i] < |tree| && offsets[i] < |tree[path[i]].data|
                                  && tree[path[i]].data[offsets[i]] == EncryptedField(ivs[i], vectors[i])
  }

  ghost predicate ReplyFor(cfg: Config, tree: seq<EncryptedRingBucket>, path: seq<nat>, offsets: seq<nat>,
                           reply: XorReply)
  {
    exists vectors :: Selected(cfg, tree, path, offsets, |path|, vectors, reply.ivs)
                      && reply.aggregate == XorAll(vectors, cfg.blockSize)
  }

  /** The handler after k slots. */
  ghost predicate XorState(cfg: Config, tree: seq<EncryptedRingBucket>, tree': seq<EncryptedRingBucket>, path: seq<nat>,
                           offsets: seq<nat>, k: nat, vectors: seq<seq<byte>>, ivs: seq<seq<byte>>)
  {
    && PathReady(cfg, tree, path, offsets, k) && Revealed(tree, tree', path, offsets, k)
    && Selected(cfg, tree, path, offsets, k, vectors, ivs)
  }

  lemma {:induction false} XorStateNext(cfg: Config, tree: seq<EncryptedRingBucket>, tree': seq<EncryptedRingBucket>,
                                        path: seq<nat>, offsets: seq<nat>, k: nat, vectors: seq<seq<byte>>,
                                        ivs: seq<seq<byte>>)
    requires XorState(cfg, tree, tree', path, offsets, k, vectors, ivs) && k < |path|
    requires AllOfSize(vectors, cfg.blockSize)
    requires forall i, j :: 0 <= i < j < |path| ==> path[i] != path[j]
    ensures |tree'| == |tree| && |offsets| == |path|
    ensures !(path[k] < |tree'| && SlotReady(cfg, tree'[path[k]], offsets[k])) ==>
              !PathReady(cfg, tree, path, offsets, |path|)
    ensures path[k] < |tree'| && SlotReady(cfg, tree'[path[k]], offsets[k]) ==>
              && offsets[k] < |tree'[path[k]].valids| && offsets[k] < |tree'[path[k]].data|
              && var n, field := path[k], tree'[path[k]].data[offsets[k]];
                 && |field.ciphertext| == cfg.blockSize
                 && XorState(cfg, tree, tree'[n := ConsumeStored(tree'[n], offsets[k])], path, offsets, k + 1,
                             vectors + [field.ciphertext], ivs + [field.iv])
                 && AllOfSize(vectors + [field.ciphertext], cfg.blockSize)
                 && XorAll(vectors + [field.ciphertext], cfg.blockSize)
                    == Xor(XorAll(vectors, cfg.blockSize), field.ciphertext)
  {
    if path[k] < |tree'| && SlotReady(cfg, tree'[path[k]], offsets[k]) {
      var field := tree'[path[k]].data[offsets[k]];
      assert (vectors + [field.ciphertext])[..k] == vectors;
      RevealedStep(tree, path, offsets, k, tree', tree'[path[k] := ConsumeStored(tree'[path[k]], offsets[k])]);
    }
  }

  lemma {:induction false} RevealedStep(tree: seq<EncryptedRingBucket>, path: seq<nat>, offsets: seq<nat>, i: nat,
                                        before: seq<EncryptedRingBucket>, tree': seq<EncryptedRingBucket>)
    requires i < |path| == |offsets| && path[i] < |tree| && offsets[i] < |tree[path[i]].valids|
    requires forall i, j :: 0 <= i < j < |path| ==> path[i] != path[j]
    requires Revealed(tree, before, path, offsets, i)
    requires tree' == before[path[i] := ConsumeStored(tree[path[i]], offsets[i])]
    ensures Revealed(tree, tree', path, offsets, i + 1)
  {
  }

  class RingORAMServer {
    const cfg: Config
    var tree: seq<EncryptedRingBucket>
    var xorPathReadCount: nat
    var lastXorPathSlotCount: nat

    ghost var trace: seq<Command>
    ghost var history: seq<Event>

    /** Every bucket has its shape, and no slot is handed out twice before its bucket is rewritten. */
    ghost predicate Valid()
      reads this`tree, this`history
    {
      && (forall n :: 0 <= n < |tree| ==> EncryptedShape(cfg, tree[n]))
      && OutIsUsed(tree, history) && OnceOnly(history)
    }

    /** What was asked for since the tree was sent has been done, and nothing else. */
    ghost predicate InSync()
      reads this`trace, this`history
    {
      Asked(cfg.treeDepth, trace) == Touched(history)
    }

    predicate Initialized()
      reads this`tree
    {
      |tree| == NumNodes(cfg.treeDepth)
    }

    constructor (cfg: Config)
      ensures Valid() && this.cfg == cfg && tree == [] && trace == [] && history == []
    {
      this.cfg := cfg;
      tree, xorPathReadCount, lastXorPathSlotCount, trace, history := [], 0, 0, [], [];
    }

    /** Replaces the whole tree. If a bucket has the wrong shape, the buckets before it stay. */
    method HandleInit(buckets: seq<EncryptedRingBucket>) returns (r: Result<()>)
      requires Valid()
      modifies this
      ensures Valid()
      ensures r.Success? <==> |buckets| == NumNodes(cfg.treeDepth)
                              && forall n :: 0 <= n < |buckets| ==> EncryptedShape(cfg, buckets[n])
      ensures r.Success? ==> tree == buckets
      ensures r.Failure? ==>
                if |buckets| != NumNodes(cfg.treeDepth) then tree == old(tree)
                else |tree| < |buckets| && tree == buckets[..|tree|] && !EncryptedShape(cfg, buckets[|tree|])
      ensures trace == old(trace) + [InitTree]
      ensures history == if |buckets| != NumNodes(cfg.treeDepth) then old(history) else old(history) + [Restarted]
      ensures r.Success? ==> InSync()
    {
      hide OnceOnly, Asked, Touched;
      Restarting(history);
      AskedAfter(cfg.treeDepth, trace, InitTree);
      TouchedAfter(history, Restarted);
      trace := trace + [InitTree];
      if |buckets| != NumNodes(cfg.treeDepth) { return Failure(InvalidArgument); }
      tree, history := [], history + [Restarted];
      for i := 0 to |buckets|
        invariant Valid() && tree == buckets[..i] && trace == old(trace) + [InitTree]
        invariant history == old(history) + [Restarted]
      {
        if |buckets[i].valids| != cfg.Slots() || |buckets[i].addrs| != cfg.z || |buckets[i].leaves| != cfg.z
           || |buckets[i].ptrs| != cfg.z || |buckets[i].data| != cfg.Slots() {
          return Failure(InvalidArgument);
        }
        tree := tree + [buckets[i]];
      }
      return Success(());
    }

    method HandleReadPathMetadata(leaf: nat) returns (r: Result<seq<Metadata>>)
      modifies this`trace
      ensures trace == old(trace) + [ReadMetadata(leaf)] && (old(InSync()) ==> InSync())
      ensures r.Success? <==> Initialized() && leaf < NumLeaves(cfg.treeDepth)
      ensures r.Success? ==>
                && |r.value| == cfg.treeDepth + 1
                && forall i :: 0 <= i <= cfg.treeDepth ==>
                     PathNodes(cfg.treeDepth, leaf)[i] < |tree|
                     && r.value[i] == MetadataOf(tree[PathNodes(cfg.treeDepth, leaf)[i]])
    {
      AskedAfter(cfg.treeDepth, trace, ReadMetadata(leaf));
      trace := trace + [ReadMetadata(leaf)];
      if |tree| != NumNodes(cfg.treeDepth) { return Failure(RuntimeError); }
      if leaf >= NumLeaves(cfg.treeDepth) { return Failure(OutOfRange); }
      var path := GetPathTopDown(cfg.treeDepth, leaf);
      var metadata: seq<Metadata> := [];
      for i := 0 to |path|
        invariant |metadata| == i && trace == old(trace) + [ReadMetadata(leaf)]
        invariant forall j :: 0 <= j < i ==> path[j] < |tree| && metadata[j] == MetadataOf(tree[path[j]])
      {
        PathMembers(cfg.treeDepth, leaf, path[i]);
        metadata := metadata + [MetadataOf(tree[path[i]])];
      }
      return Success(metadata);
    }

    /** Hands out one slot of one bucket and marks it as used. */
    method RevealSlot(n: nat, slot: nat) returns (r: Result<EncryptedField>)
      requires Valid()
      modifies this`tree, this`history
      ensures Valid() && |tree| == old(|tree|)
      ensures r.Success? <==> n < |tree| && SlotReady(cfg, old(tree[n]), slot)
      ensures r.Success? ==>
                && r.value == old(tree[n]).data[slot]
                && tree == old(tree)[n := ConsumeStored(old(tree[n]), slot)]
                && !IsOut(old(history), n, slot) && history == old(history) + [HandedOut(n, slot)]
      ensures r.Failure? ==> tree == old(tree) && history == old(history)
    {
      hide IsOut, OnceOnly;
      if n >= |tree| { return Failure(OutOfRange); }
      var bucket := tree[n];
      if slot >= |bucket.data| || slot >= |bucket.valids| { return Failure(OutOfRange); }
      if !bucket.valids[slot] { return Failure(RuntimeError); }
      if |bucket.data[slot].ciphertext| != cfg.blockSize { return Failure(RuntimeError); }
      HandingOut(tree, history, n, slot);
      tree := tree[n := ConsumeStored(bucket, slot)];
      history := history + [HandedOut(n, slot)];
      return Success(bucket.data[slot]);
    }

    /** Exclusive-or of one slot from each bucket of a path. If a slot is refused, those before it are used up. */
    method HandleXorPathSlots(leaf: nat, offsets: seq<nat>) returns (r: Result<XorReply>)
      requires Valid()
      modifies this`tree, this`history, this`trace, this`xorPathReadCount, this`lastXorPathSlotCount
      ensures Valid() && trace == old(trace) + [XorSlots(leaf)]
      ensures r.Success? <==>
                && old(Initialized()) && leaf < NumLeaves(cfg.treeDepth)
                && PathReady(cfg, old(tree), PathNodes(cfg.treeDepth, leaf), offsets, cfg.treeDepth + 1)
      ensures r.Success? ==>
                && Revealed(old(tree), tree, PathNodes(cfg.treeDepth, leaf), offsets, cfg.treeDepth + 1)
                && ReplyFor(cfg, old(tree), PathNodes(cfg.treeDepth, leaf), offsets, r.value)
                && xorPathReadCount == old(xorPathReadCount) + 1 && lastXorPathSlotCount == cfg.treeDepth + 1
                && history == old(history) + Handed(PathNodes(cfg.treeDepth, leaf), offsets, cfg.treeDepth + 1)
                && (old(InSync()) ==> InSync())
      ensures r.Failure? ==>
                || (tree == old(tree) && history == old(history))
                || RefusedAlong(old(tree), old(history), PathNodes(cfg.treeDepth, leaf), offsets)
    {
      hide Valid, Revealed, ReplyFor, RefusedAlong, Asked, Touched, SlotsTaken, Handed;
      AskedAfter(cfg.treeDepth, trace, XorSlots(leaf));
      trace := trace + [XorSlots(leaf)];
      if |tree| != NumNodes(cfg.treeDepth) { return Failure(RuntimeError); }
      if leaf >= NumLeaves(cfg.treeDepth) { return Failure(OutOfRange); }
      var path := GetPathTopDown(cfg.treeDepth, leaf);
      if |offsets| != |path| { return Failure(InvalidArgument); }
      PathDistinct(cfg.treeDepth, leaf);
      TouchedAlong(history, path, offsets, |path|);
      assert path[..|path|] == path;
      var reply :- XorPath(path, offsets);
      xorPathReadCount := xorPathReadCount + 1;
      lastXorPathSlotCount := |offsets|;
      return Success(reply);
    }

    /** The path up to the slot that was refused. */
    ghost predicate RefusedAlong(before: seq<EncryptedRingBucket>, past: seq<Event>, path: seq<nat>, offsets: seq<nat>)
      reads this`tree, this`history
    {
      exists k: nat :: k < |path| == |offsets|
                       && Revealed(before, tree, path, offsets, k) && history == past + Handed(path, offsets, k)
    }

    method XorPath(path: seq<nat>, offsets: seq<nat>) returns (r: Result<XorReply>)
      requires Valid() && |offsets| == |path|
      requires forall i, j :: 0 <= i < j < |path| ==> path[i] != path[j]
      modifies this`tree, this`history
      ensures Valid() && |tree| == old(|tree|)
      ensures r.Success? <==> PathReady(cfg, old(tree), path, offsets, |path|)
      ensures r.Success? ==> Revealed(old(tree), tree, path, offsets, |path|)
                             && ReplyFor(cfg, old(tree), path, offsets, r.value)
                             && history == old(history) + Handed(path, offsets, |path|)
      ensures r.Failure? ==> RefusedAlong(old(tree), old(history), path, offsets)
    {
      hide Handed, IsOut, OnceOnly, OutIsUsed;
      HandedStart(history, path, offsets);
      var aggregate := Zeros(cfg.blockSize);
      var selectedIvs: seq<seq<byte>> := [];
      ghost var selected: seq<seq<byte>> := [];
      assert XorAll(selected, cfg.blockSize) == aggregate;
      for i := 0 to |path|
        invariant Valid() && XorState(cfg, old(tree), tree, path, offsets, i, selected, selectedIvs)
        invariant AllOfSize(selected, cfg.blockSize) && history == old(history) + Handed(path, offsets, i)
        invariant |aggregate| == cfg.blockSize && aggregate == XorAll(selected, cfg.blockSize)
      {
        hide Valid, XorState, SlotReady, XorAll, Xor, PathReady;
        XorStateNext(cfg, old(tree), tree, path, offsets, i, selected, selectedIvs);
        HandedNext(old(history), path, offsets, i);
        var field :- RevealSlot(path[i], offsets[i]);
        aggregate := Xor(aggregate, field.ciphertext);
        selectedIvs := selectedIvs + [field.iv];
        selected := selected + [field.ciphertext];
      }
      r := Success(XorReply(aggregate, selectedIvs));
    }

    method HandleReadBucket(n: nat) returns (r: Result<EncryptedRingBucket>)
      modifies this`trace
      ensures trace == old(trace) + [FetchBucket(n)] && (old(InSync()) ==> InSync())
      ensures r.Success? <==> Initialized() && n < |tree|
      ensures r.Success? ==> n < |tree| && r.value == tree[n]
    {
      AskedAfter(cfg.treeDepth, trace, FetchBucket(n));
      trace := trace + [FetchBucket(n)];
      if |tree| != NumNodes(cfg.treeDepth) { return Failure(RuntimeError); }
      if n >= |tree| { return Failure(OutOfRange); }
      return Success(tree[n]);
    }

    /** Replaces one bucket and nothing else. */
    method HandleWriteBucket(n: nat, bucket: EncryptedRingBucket) returns (r: Result<()>)
      requires Valid()
      modifies this`tree, this`history, this`trace
      ensures Valid() && trace == old(trace) + [ReplaceBucket(n)]
      ensures r.Success? <==> old(Initialized()) && n < old(|tree|) && EncryptedShape(cfg, bucket)
      ensures tree == if r.Success? then old(tree)[n := bucket] else old(tree)
      ensures history == if r.Success? then old(history) + [Rewritten(n)] else old(history)
      ensures r.Success? && old(InSync()) ==> InSync()
    {
      hide IsOut, OnceOnly, Asked, Touched, OutIsUsed;
      AskedAfter(cfg.treeDepth, trace, ReplaceBucket(n));
      TouchedAfter(history, Rewritten(n));
      trace := trace + [ReplaceBucket(n)];
      if |tree| != NumNodes(cfg.treeDepth) { return Failure(RuntimeError); }
      if |bucket.valids| != cfg.Slots() || |bucket.addrs| != cfg.z || |bucket.leaves| != cfg.z
         || |bucket.ptrs| != cfg.z || |bucket.data| != cfg.Slots() {
        return Failure(InvalidArgument);
      }
      if n >= |tree| { return Failure(OutOfRange); }
      Rewriting(tree, history, n, bucket);
      tree, history := tree[n := bucket], history + [Rewritten(n)];
      return Success(());
    }

    method HandleReadBucketCount(n: nat) returns (r: Result<nat>)
      modifies this`trace
      ensures trace == old(trace) + [FetchCount(n)] && (old(InSync()) ==> InSync())
      ensures r.Success? <==> Initialized() && n < |tree|
      ensures r.Success? ==> n < |tree| && r.value == tree[n].count
    {
      AskedAfter(cfg.treeDepth, trace, FetchCount(n));
      trace := trace + [FetchCount(n)];
      if |tree| != NumNodes(cfg.treeDepth) { return Failure(RuntimeError); }
      if n >= |tree| { return Failure(OutOfRange); }
      return Success(tree[n].count);
    }
  }
}
