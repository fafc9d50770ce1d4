/** Ring ORAM: the server's encrypted tree, read with the client's key. */
module RingView {
  import opened Bytes
  import opened CtrCipher
  import opened HeapTree
  import opened Ram
  import opened RingBuckets
  import opened RingPlacement
  import opened RingServers
  import opened RingState
  import opened RingTrace

  ghost predicate StoredOk(cfg: Config, c: Cipher, e: EncryptedRingBucket)
  {
    EncryptedOk(cfg, e) && BucketOk(cfg, Decrypted(cfg, c, e))
  }

  ghost predicate TreeOk(cfg: Config, c: Cipher, tree: seq<EncryptedRingBucket>)
  {
    |tree| == NumNodes(cfg.treeDepth) && forall n :: 0 <= n < |tree| ==> StoredOk(cfg, c, tree[n])
  }

  /** The unread blocks of a stored bucket. */
  function UnreadOf(cfg: Config, c: Cipher, e: EncryptedRingBucket): seq<RingBlock>
  {
    if EncryptedShape(cfg, e) && Shaped(cfg, Decrypted(cfg, c, e)) then LiveBlocks(cfg, Decrypted(cfg, c, e), cfg.z) else []
  }

  function Unread(cfg: Config, c: Cipher, tree: seq<EncryptedRingBucket>): (u: seq<seq<RingBlock>>)
    ensures |u| == |tree|
    ensures forall n :: 0 <= n < |tree| ==> u[n] == UnreadOf(cfg, c, tree[n])
  {
    seq(|tree|, n requires 0 <= n < |tree| => UnreadOf(cfg, c, tree[n]))
  }

  function CountsOf(tree: seq<EncryptedRingBucket>): (counts: seq<nat>)
    ensures |counts| == |tree|
    ensures forall n :: 0 <= n < |tree| ==> counts[n] == tree[n].count
  {
    seq(|tree|, n requires 0 <= n < |tree| => tree[n].count)
  }

  lemma {:induction false} BelowAt(tree: seq<EncryptedRingBucket>, limit: nat, n: nat)
    requires AllBelow(CountsOf(tree), limit) && n < |tree|
    ensures tree[n].count < limit
  {
    assert CountsOf(tree)[n] < limit;
  }

  lemma {:induction false} ReplaceOne(cfg: Config, c: Cipher, tree: seq<EncryptedRingBucket>, n: nat,
                                      e: EncryptedRingBucket)
    requires TreeOk(cfg, c, tree) && n < |tree| && StoredOk(cfg, c, e)
    ensures TreeOk(cfg, c, tree[n := e])
    ensures Unread(cfg, c, tree[n := e]) == Unread(cfg, c, tree)[n := UnreadOf(cfg, c, e)]
    ensures CountsOf(tree[n := e]) == CountsOf(tree)[n := e.count]
  {
  }

  // ----- choosing slots -----

  ghost predicate HasAddr(blocks: seq<RingBlock>, addr: nat)
  {
    exists x :: x in blocks && x.addr == addr
  }

  /** A bucket in which an address has at most one unread entry. */
  ghost predicate Indexed(cfg: Config, b: Bucket)
  {
    && Shaped(cfg, b)
    && (forall i, j :: 0 <= i < j < cfg.z ==> b.ptrs[i] != b.ptrs[j])
    && (forall i, j :: 0 <= i < j < cfg.z && Live(cfg, b, i) && Live(cfg, b, j) ==> b.addrs[i] != b.addrs[j])
  }

  lemma {:induction false} LiveAddrsDistinct(cfg: Config, b: Bucket, k: nat, i: nat, j: nat)
    requires BucketOk(cfg, b) && k <= cfg.z && Distinct(LiveBlocks(cfg, b, k))
    requires i < j < k && Live(cfg, b, i) && Live(cfg, b, j)
    ensures b.addrs[i] != b.addrs[j]
  {
    var prefix, all := LiveBlocks(cfg, b, k - 1), LiveBlocks(cfg, b, k);
    assert all == prefix + if Live(cfg, b, k - 1) then [b.data[b.ptrs[k - 1]]] else [];
    hide LiveBlocks;
    assert forall x :: 0 <= x < |prefix| ==> all[x] == prefix[x];
    if j < k - 1 {
      LiveAddrsDistinct(cfg, b, k - 1, i, j);
    } else {
      LiveMembers(cfg, b, k - 1, b.data[b.ptrs[i]]);
      var p :| 0 <= p < |prefix| && prefix[p] == b.data[b.ptrs[i]];
      assert all[p].addr != all[|prefix|].addr;
    }
  }

  lemma {:induction false} DistinctIndexed(cfg: Config, b: Bucket)
    requires BucketOk(cfg, b) && Distinct(LiveBlocks(cfg, b, cfg.z))
    ensures Indexed(cfg, b)
  {
    forall i, j | 0 <= i < j < cfg.z && Live(cfg, b, i) && Live(cfg, b, j)
      ensures b.addrs[i] != b.addrs[j]
    {
      LiveAddrsDistinct(cfg, b, cfg.z, i, j);
    }
  }

  predicate HasLive(cfg: Config, b: Bucket, addr: nat)
    requires Shaped(cfg, b)
  {
    exists i :: 0 <= i < cfg.z && Live(cfg, b, i) && b.addrs[i] == addr
  }

  lemma {:induction false} HasLiveIsHasAddr(cfg: Config, b: Bucket, addr: nat)
    requires BucketOk(cfg, b)
    ensures HasLive(cfg, b, addr) <==> HasAddr(LiveBlocks(cfg, b, cfg.z), addr)
  {
    if i :| 0 <= i < cfg.z && Live(cfg, b, i) && b.addrs[i] == addr {
      LiveMembers(cfg, b, cfg.z, b.data[b.ptrs[i]]);
    }
    if x :| x in LiveBlocks(cfg, b, cfg.z) && x.addr == addr {
      LiveMembers(cfg, b, cfg.z, x);
    }
  }

  /** A slot chosen without a live entry for the address is padding, so it decrypts to zeros. */
  lemma {:induction false} ChosenDummy(cfg: Config, c: Cipher, e: EncryptedRingBucket, addr: nat, slot: nat)
    requires StoredOk(cfg, c, e) && Readable(cfg, Decrypted(cfg, c, e), addr, slot)
    requires !HasLive(cfg, Decrypted(cfg, c, e), addr)
    ensures Open(c, e.data[slot]) == Zeros(cfg.blockSize)
  {
    hide Labelled, Open;
    var b := Decrypted(cfg, c, e);
    SlotPayload(cfg, c, e, slot);
    assert forall i :: 0 <= i < cfg.z && Live(cfg, b, i) ==> b.addrs[i] != addr;
    assert Padding(cfg, b, slot);
  }

  /** A slot chosen for a live entry decrypts to that block's data. */
  lemma {:induction false} ChosenTarget(cfg: Config, c: Cipher, e: EncryptedRingBucket, addr: nat, slot: nat)
    returns (x: RingBlock)
    requires StoredOk(cfg, c, e) && Readable(cfg, Decrypted(cfg, c, e), addr, slot)
    requires HasLive(cfg, Decrypted(cfg, c, e), addr)
    ensures x in UnreadOf(cfg, c, e) && x.addr == addr && x.data == Open(c, e.data[slot])
  {
    hide Labelled, Open;
    var b := Decrypted(cfg, c, e);
    SlotPayload(cfg, c, e, slot);
    var i :| 0 <= i < cfg.z && Live(cfg, b, i) && b.addrs[i] == addr;
    x := b.data[b.ptrs[i]];
    LiveMembers(cfg, b, cfg.z, x);
  }

  lemma {:induction false} StoredConsume(cfg: Config, c: Cipher, e: EncryptedRingBucket, addr: nat, slot: nat)
    requires StoredOk(cfg, c, e) && Readable(cfg, Decrypted(cfg, c, e), addr, slot)
    ensures slot < |e.valids| && StoredOk(cfg, c, ConsumeStored(e, slot))
    ensures UnreadOf(cfg, c, ConsumeStored(e, slot)) == Remove(UnreadOf(cfg, c, e), addr)
  {
    var b := Decrypted(cfg, c, e);
    ConsumeOk(cfg, b, slot);
    ReadRemoves(cfg, b, addr, slot, cfg.z);
    assert Decrypted(cfg, c, ConsumeStored(e, slot)) == Consume(b, slot);
  }

  // ----- reading a path -----

  /** The offsets chosen for a path, and which of them is the target's. */
  ghost predicate Chosen(cfg: Config, c: Cipher, tree: seq<EncryptedRingBucket>, path: seq<nat>, addr: nat,
                         offsets: seq<nat>, flags: seq<bool>, k: nat)
  {
    && k <= |path| && |offsets| == |flags| == k
    && forall i :: 0 <= i < k ==>
         && path[i] < |tree| && StoredOk(cfg, c, tree[path[i]])
         && Readable(cfg, Decrypted(cfg, c, tree[path[i]]), addr, offsets[i])
         && (flags[i] <==> HasLive(cfg, Decrypted(cfg, c, tree[path[i]]), addr))
  }

  lemma {:induction false} ChosenReady(cfg: Config, c: Cipher, tree: seq<EncryptedRingBucket>, path: seq<nat>,
                                       addr: nat, offsets: seq<nat>, flags: seq<bool>)
    requires Chosen(cfg, c, tree, path, addr, offsets, flags, |path|)
    ensures PathReady(cfg, tree, path, offsets, |path|)
  {
    forall i | 0 <= i < |path|
      ensures path[i] < |tree| && SlotReady(cfg, tree[path[i]], offsets[i])
    {
      assert StoredOk(cfg, c, tree[path[i]]);
    }
  }

  lemma {:induction false} RevealedNode(cfg: Config, c: Cipher, tree: seq<EncryptedRingBucket>,
                                        tree': seq<EncryptedRingBucket>, path: seq<nat>, addr: nat, offsets: seq<nat>,
                                        flags: seq<bool>, n: nat)
    requires TreeOk(cfg, c, tree) && Chosen(cfg, c, tree, path, addr, offsets, flags, |path|)
    requires Revealed(tree, tree', path, offsets, |path|) && n < |tree|
    ensures StoredOk(cfg, c, tree'[n])
    ensures UnreadOf(cfg, c, tree'[n])
         == if n in path then Remove(UnreadOf(cfg, c, tree[n]), addr) else UnreadOf(cfg, c, tree[n])
    ensures tree'[n].count == if n in path then tree[n].count + 1 else tree[n].count
  {
    hide Decrypted, UnreadOf, BucketOk, EncryptedOk, Readable;
    assert path[..|path|] == path;
    if n in path {
      var i :| 0 <= i < |path| && path[i] == n;
      StoredConsume(cfg, c, tree[n], addr, offsets[i]);
    } else {
      assert tree'[n] == tree[n];
    }
  }

  /** Handing out the chosen slots takes the address out of the path and raises the path's counts. */
  lemma {:induction false} RevealedTree(cfg: Config, c: Cipher, tree: seq<EncryptedRingBucket>,
                                        tree': seq<EncryptedRingBucket>, path: seq<nat>, addr: nat, offsets: seq<nat>,
                                        flags: seq<bool>)
    requires TreeOk(cfg, c, tree) && Chosen(cfg, c, tree, path, addr, offsets, flags, |path|)
    requires Revealed(tree, tree', path, offsets, |path|)
    ensures TreeOk(cfg, c, tree')
    ensures ReadAlong(Unread(cfg, c, tree), Unread(cfg, c, tree'), NodeSet(path), addr)
    ensures CountsOf(tree') == Bump(CountsOf(tree), path)
  {
    hide StoredOk, UnreadOf, Chosen, Revealed;
    assert |tree'| == |tree| by { RevealedSize(tree, tree', path, offsets); }
    forall n: nat | n < |tree|
      ensures StoredOk(cfg, c, tree'[n])
      ensures UnreadOf(cfg, c, tree'[n])
           == if n in path then Remove(UnreadOf(cfg, c, tree[n]), addr) else UnreadOf(cfg, c, tree[n])
      ensures tree'[n].count == if n in path then tree[n].count + 1 else tree[n].count
    {
      RevealedNode(cfg, c, tree, tree', path, addr, offsets, flags, n);
    }
  }

  lemma {:induction false} RevealedSize(tree: seq<EncryptedRingBucket>, tree': seq<EncryptedRingBucket>,
                                        path: seq<nat>, offsets: seq<nat>)
    requires Revealed(tree, tree', path, offsets, |path|)
    ensures |tree'| == |tree|
  {
  }

  /** Which slot of the path, if any, is the target's: the position of the node the address is in. */
  lemma {:induction false} TargetOnPath(cfg: Config, c: Cipher, tree: seq<EncryptedRingBucket>, stash: seq<RingBlock>,
                                        pos: PositionMap, mem: Memory, loc: map<nat, int>, path: seq<nat>, addr: nat,
                                        leaf: nat, offsets: seq<nat>, flags: seq<bool>)
    returns (target: nat)
    requires TreeOk(cfg, c, tree) && Placed(cfg, stash, Unread(cfg, c, tree), pos, mem, loc, {})
    requires leaf < NumLeaves(cfg.treeDepth) && path == PathNodes(cfg.treeDepth, leaf)
    requires Chosen(cfg, c, tree, path, addr, offsets, flags, |path|)
    ensures target <= |path| && forall i :: 0 <= i < |flags| ==> (flags[i] <==> i == target)
    ensures target < |path| <==> InPath(cfg.treeDepth, loc, addr, leaf)
    ensures target < |path| ==>
              && path[target] < |tree| && offsets[target] < |tree[path[target]].data|
              && Open(c, tree[path[target]].data[offsets[target]]) == Load(mem, addr, cfg.blockSize)
  {
    hide Decrypted, BucketOk, EncryptedOk, Readable, Open, UnreadOf, OnPath;
    forall i: nat | i < |path|
      ensures flags[i] <==> addr in loc && loc[addr] == path[i]
    {
      FlagIs(cfg, c, tree, stash, pos, mem, loc, path, addr, offsets, flags, i);
    }
    PathDistinct(cfg.treeDepth, leaf);
    forall i: nat | i < |path|
      ensures OnPath(cfg.treeDepth, path[i], leaf)
    {
      PathMembers(cfg.treeDepth, leaf, path[i]);
    }
    if InPath(cfg.treeDepth, loc, addr, leaf) {
      PathMembers(cfg.treeDepth, leaf, loc[addr]);
      target :| 0 <= target < |path| && path[target] == loc[addr];
      var x := ChosenTarget(cfg, c, tree[path[target]], addr, offsets[target]);
      assert x in Unread(cfg, c, tree)[path[target]];
      assert Here(cfg, pos, mem, loc, x, path[target]);
      OffsetInRange(cfg, c, tree[path[target]], addr, offsets[target]);
    } else {
      target := |path|;
    }
  }

  lemma {:induction false} OffsetInRange(cfg: Config, c: Cipher, e: EncryptedRingBucket, addr: nat, slot: nat)
    requires StoredOk(cfg, c, e) && Readable(cfg, Decrypted(cfg, c, e), addr, slot)
    ensures slot < |e.data|
  {
  }

  lemma {:induction false} FlagIs(cfg: Config, c: Cipher, tree: seq<EncryptedRingBucket>, stash: seq<RingBlock>,
                                  pos: PositionMap, mem: Memory, loc: map<nat, int>, path: seq<nat>, addr: nat,
                                  offsets: seq<nat>, flags: seq<bool>, i: nat)
    requires TreeOk(cfg, c, tree) && Placed(cfg, stash, Unread(cfg, c, tree), pos, mem, loc, {})
    requires Chosen(cfg, c, tree, path, addr, offsets, flags, |path|) && i < |path|
    ensures flags[i] <==> addr in loc && loc[addr] == path[i]
  {
    hide Labelled, Readable, LiveBlocks, HasLive;
    var n := path[i];
    assert StoredOk(cfg, c, tree[n]);
    HasLiveIsHasAddr(cfg, Decrypted(cfg, c, tree[n]), addr);
    if addr in loc {
      var current := Current(cfg, pos, mem, addr);
      assert current in Unread(cfg, c, tree)[n] <==> Here(cfg, pos, mem, loc, current, n);
    }
    if x :| x in Unread(cfg, c, tree)[n] && x.addr == addr {
      assert Here(cfg, pos, mem, loc, x, n);
    }
  }

  lemma {:induction false} NodesDistinct(cfg: Config, stash: seq<RingBlock>, contents: seq<seq<RingBlock>>,
                                         pos: PositionMap, mem: Memory, loc: map<nat, int>)
    requires Placed(cfg, stash, contents, pos, mem, loc, {})
    ensures forall n :: 0 <= n < |contents| ==> Distinct(contents[n])
  {
  }

  /** The ciphertexts behind the server's reply: those of all slots but the target's encrypt zeros. */
  lemma {:induction false} VectorsOf(cfg: Config, c: Cipher, tree: seq<EncryptedRingBucket>, path: seq<nat>,
                                     addr: nat, offsets: seq<nat>, flags: seq<bool>, reply: XorReply)
    returns (vectors: seq<seq<byte>>)
    requires Chosen(cfg, c, tree, path, addr, offsets, flags, |path|)
    requires ReplyFor(cfg, tree, path, offsets, reply)
    ensures Selected(cfg, tree, path, offsets, |path|, vectors, reply.ivs)
    ensures |reply.ivs| == |flags| && |reply.aggregate| == cfg.blockSize
    ensures OthersAreDummies(c, vectors, reply.ivs, flags, cfg.blockSize)
    ensures reply.aggregate == XorAll(vectors, cfg.blockSize)
  {
    hide XorAll, Decrypted, Readable, HasLive, Zeros, Crypt;
    vectors :| Selected(cfg, tree, path, offsets, |path|, vectors, reply.ivs)
               && reply.aggregate == XorAll(vectors, cfg.blockSize);
    forall i | 0 <= i < |flags| && !flags[i]
      ensures vectors[i] == Crypt(c, Zeros(cfg.blockSize), reply.ivs[i])
    {
      ChosenDummy(cfg, c, tree[path[i]], addr, offsets[i]);
      CryptInverts(c, vectors[i], reply.ivs[i]);
    }
  }

  lemma {:induction false} OpenIs(cfg: Config, c: Cipher, tree: seq<EncryptedRingBucket>, path: seq<nat>,
                                  offsets: seq<nat>, target: nat, vectors: seq<seq<byte>>, ivs: seq<seq<byte>>)
    requires Selected(cfg, tree, path, offsets, |path|, vectors, ivs)
    requires target < |path| ==> path[target] < |tree| && offsets[target] < |tree[path[target]].data|
    ensures target < |path| ==>
              Open(c, tree[path[target]].data[offsets[target]]) == Crypt(c, vectors[target], ivs[target])
  {
  }

  lemma {:induction false} NodeFacts(cfg: Config, c: Cipher, tree: seq<EncryptedRingBucket>, limit: nat, n: nat)
    requires TreeOk(cfg, c, tree) && AllBelow(CountsOf(tree), limit) && n < |tree|
    ensures StoredOk(cfg, c, tree[n]) && tree[n].count < limit
    ensures Unread(cfg, c, tree)[n] == UnreadOf(cfg, c, tree[n])
  {
    assert CountsOf(tree)[n] < limit;
  }

  lemma {:induction false} ChosenNext(cfg: Config, c: Cipher, tree: seq<EncryptedRingBucket>, path: seq<nat>,
                                      addr: nat, offsets: seq<nat>, flags: seq<bool>, i: nat, offset: nat, flag: bool)
    requires Chosen(cfg, c, tree, path, addr, offsets, flags, i) && i < |path| && path[i] < |tree|
    requires StoredOk(cfg, c, tree[path[i]]) && Readable(cfg, Decrypted(cfg, c, tree[path[i]]), addr, offset)
    requires flag <==> HasLive(cfg, Decrypted(cfg, c, tree[path[i]]), addr)
    ensures Chosen(cfg, c, tree, path, addr, offsets + [offset], flags + [flag], i + 1)
  {
    hide Decrypted, Readable, HasLive, BucketOk;
  }

  lemma {:induction false} StripStart(c: Cipher, aggregate: seq<byte>, masks: seq<seq<byte>>, n: nat)
    requires AllOfSize(masks, n) && |aggregate| == n
    ensures aggregate == Xor(aggregate, XorAll(masks[..0], n))
  {
    XorLaws(aggregate, aggregate, aggregate);
  }

  lemma {:induction false} StripStep(c: Cipher, reply: XorReply, flags: seq<bool>, n: nat, i: nat)
    requires |reply.ivs| == |flags| && |reply.aggregate| == n && i < |flags|
    ensures var masks := Mask(c, reply.ivs, flags, n);
            var before := Xor(reply.aggregate, XorAll(masks[..i], n));
            && |before| == n
            && Xor(reply.aggregate, XorAll(masks[..i + 1], n))
               == if flags[i] then before else Xor(before, Crypt(c, Zeros(n), reply.ivs[i]))
  {
    hide XorAll, Xor, Crypt, Zeros;
    var masks := Mask(c, reply.ivs, flags, n);
    XorAllSnoc(masks, i, n);
    XorLaws(reply.aggregate, XorAll(masks[..i], n), masks[i]);
    XorLaws(Xor(reply.aggregate, XorAll(masks[..i], n)), masks[i], masks[i]);
  }

  lemma {:induction false} LeavesInRange(cfg: Config, stash: seq<RingBlock>, contents: seq<seq<RingBlock>>,
                                         pos: PositionMap, mem: Memory, loc: map<nat, int>, stale: set<nat>)
    requires Placed(cfg, stash, contents, pos, mem, loc, stale)
    ensures LeavesBelow(stash, NumLeaves(cfg.treeDepth))
  {
    forall p | 0 <= p < |stash|
      ensures stash[p].leaf < NumLeaves(cfg.treeDepth)
    {
      assert stash[p] in stash;
      assert Here(cfg, pos, mem, loc, stash[p], STASH);
    }
  }
}
