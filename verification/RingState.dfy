/** Ring ORAM: buckets as the client sees them, and where every block is. */
module RingState {
  import opened Bytes
  import opened LittleEndian
  import opened Permutations

  const DUMMY: nat := 0xFFFF_FFFF_FFFF_FFFF
  const STASH: int := -1
  const LIMBO: int := -2

  datatype Config = Config(numBlocks: nat, treeDepth: nat, z: nat, s: nat, a: nat, blockSize: nat) {
    /** What both constructors check, and sizes that fit the machine's 64-bit counters. */
    predicate Valid() {
      && 0 < numBlocks <= DUMMY && treeDepth < 63
      && z > 0 && s > 0 && a > 0 && blockSize > 0
      && z + s < UINT64_LIMIT
    }

    function Slots(): nat {
      z + s
    }
  }

  datatype RingBlock = RingBlock(addr: nat, leaf: nat, data: seq<byte>)

  function DummyBlock(blockSize: nat): RingBlock
  {
    RingBlock(DUMMY, 0, Zeros(blockSize))
  }

  /** A bucket in plain text: entry i says that slot ptrs[i] holds the block of addrs[i]. */
  datatype Bucket = Bucket(count: nat, valids: seq<bool>, addrs: seq<nat>, leaves: seq<nat>, ptrs: seq<nat>,
                           data: seq<RingBlock>)

  function CountFalse(s: seq<bool>): (c: nat)
    ensures c <= |s|
  {
    if s == [] then 0 else CountFalse(s[..|s| - 1]) + (if s[|s| - 1] then 0 else 1)
  }

  predicate Shaped(cfg: Config, b: Bucket)
  {
    && |b.valids| == |b.data| == cfg.Slots()
    && |b.addrs| == |b.leaves| == |b.ptrs| == cfg.z
    && (forall i :: 0 <= i < cfg.z ==> b.ptrs[i] < cfg.Slots())
  }

  /** The entry stands for a block that has not been read yet. */
  predicate Live(cfg: Config, b: Bucket, i: nat)
    requires Shaped(cfg, b) && i < cfg.z
  {
    b.addrs[i] != DUMMY && b.valids[b.ptrs[i]]
  }

  /** No entry with an address points to the slot. */
  ghost predicate Padding(cfg: Config, b: Bucket, slot: nat)
    requires Shaped(cfg, b)
  {
    forall i :: 0 <= i < cfg.z && b.ptrs[i] == slot ==> b.addrs[i] == DUMMY
  }

  ghost predicate BucketOk(cfg: Config, b: Bucket)
  {
    && Shaped(cfg, b)
    && (forall i, j :: 0 <= i < j < cfg.z ==> b.ptrs[i] != b.ptrs[j])
    && (forall i :: 0 <= i < cfg.z ==> b.addrs[i] <= DUMMY && b.leaves[i] < UINT64_LIMIT)
    && (forall slot :: 0 <= slot < cfg.Slots() ==> |b.data[slot].data| == cfg.blockSize)
    && (forall i :: 0 <= i < cfg.z && b.addrs[i] != DUMMY ==>
          b.data[b.ptrs[i]].addr == b.addrs[i] && b.data[b.ptrs[i]].leaf == b.leaves[i])
    && (forall slot :: 0 <= slot < cfg.Slots() && Padding(cfg, b, slot) ==> b.data[slot] == DummyBlock(cfg.blockSize))
    && b.count == CountFalse(b.valids)
  }

  /** The blocks of the first k entries that have not been read yet. */
  function LiveBlocks(cfg: Config, b: Bucket, k: nat): (blocks: seq<RingBlock>)
    requires Shaped(cfg, b) && k <= cfg.z
    ensures |blocks| <= k
  {
    if k == 0 then [] else
      LiveBlocks(cfg, b, k - 1) + (if Live(cfg, b, k - 1) then [b.data[b.ptrs[k - 1]]] else [])
  }

  /** Reading a slot uses it up. */
  function Consume(b: Bucket, slot: nat): Bucket
    requires slot < |b.valids|
  {
    b.(valids := b.valids[slot := false], count := b.count + 1)
  }

  predicate Distinct(blocks: seq<RingBlock>)
  {
    forall i, j :: 0 <= i < j < |blocks| ==> blocks[i].addr != blocks[j].addr
  }

  function Remove(blocks: seq<RingBlock>, addr: nat): (kept: seq<RingBlock>)
  {
    if blocks == [] then [] else
      var last := blocks[|blocks| - 1];
      Remove(blocks[..|blocks| - 1], addr) + (if last.addr != addr then [last] else [])
  }

  lemma {:induction false} RemoveMembers(blocks: seq<RingBlock>, addr: nat, x: RingBlock)
    ensures x in Remove(blocks, addr) <==> x in blocks && x.addr != addr
  {
    if blocks != [] {
      RemoveMembers(blocks[..|blocks| - 1], addr, x);
      assert blocks == blocks[..|blocks| - 1] + [blocks[|blocks| - 1]];
    }
  }

  lemma {:induction false} RemoveDistinct(blocks: seq<RingBlock>, addr: nat)
    requires Distinct(blocks)
    ensures Distinct(Remove(blocks, addr))
  {
    if blocks != [] {
      var n := |blocks| - 1;
      var kept := Remove(blocks[..n], addr);
      RemoveDistinct(blocks[..n], addr);
      forall i | 0 <= i < |kept|
        ensures kept[i].addr != blocks[n].addr
      {
        RemoveMembers(blocks[..n], addr, kept[i]);
      }
    }
  }

  /** Removing the only block of an address is removing one position. */
  lemma {:induction false} RemoveOne(blocks: seq<RingBlock>, i: nat)
    requires Distinct(blocks) && i < |blocks|
    ensures Remove(blocks, blocks[i].addr) == blocks[..i] + blocks[i + 1..]
  {
    var n := |blocks| - 1;
    if i < n {
      RemoveOne(blocks[..n], i);
      assert blocks[..i] + blocks[i + 1..] == (blocks[..n][..i] + blocks[..n][i + 1..]) + [blocks[n]];
    } else {
      RemoveNone(blocks[..n], blocks[n].addr);
      assert blocks[..i] + blocks[i + 1..] == blocks[..n];
    }
  }

  lemma {:induction false} RemoveNone(blocks: seq<RingBlock>, addr: nat)
    requires forall i :: 0 <= i < |blocks| ==> blocks[i].addr != addr
    ensures Remove(blocks, addr) == blocks
  {
    if blocks != [] {
      RemoveNone(blocks[..|blocks| - 1], addr);
    }
  }

  // ----- reading one slot -----

  lemma {:induction false} LiveMembers(cfg: Config, b: Bucket, k: nat, x: RingBlock)
    requires Shaped(cfg, b) && k <= cfg.z
    ensures x in LiveBlocks(cfg, b, k) <==> exists i :: 0 <= i < k && Live(cfg, b, i) && b.data[b.ptrs[i]] == x
  {
    if k > 0 { LiveMembers(cfg, b, k - 1, x); }
  }

  lemma {:induction false} CountFalseUpdate(s: seq<bool>, i: nat)
    requires i < |s| && s[i]
    ensures CountFalse(s[i := false]) == CountFalse(s) + 1
  {
    var n := |s| - 1;
    if i < n {
      CountFalseUpdate(s[..n], i);
      assert s[i := false][..n] == s[..n][i := false];
    } else {
      assert s[i := false][..n] == s[..n];
    }
  }

  lemma {:induction false} ConsumeOk(cfg: Config, b: Bucket, slot: nat)
    requires BucketOk(cfg, b) && slot < cfg.Slots() && b.valids[slot]
    ensures BucketOk(cfg, Consume(b, slot))
  {
    CountFalseUpdate(b.valids, slot);
    var c := Consume(b, slot);
    forall i | 0 <= i < cfg.Slots() && Padding(cfg, c, i)
      ensures Padding(cfg, b, i)
    {
      forall j | 0 <= j < cfg.z && b.ptrs[j] == i
        ensures b.addrs[j] == DUMMY
      {
        assert c.ptrs[j] == i;
      }
    }
  }

  /** The slot a read of `addr` may use in this bucket: that of its live entry, or else any unread slot
      that no live entry points to. */
  ghost predicate Readable(cfg: Config, b: Bucket, addr: nat, slot: nat)
    requires Shaped(cfg, b)
  {
    && slot < cfg.Slots() && b.valids[slot]
    && (forall i :: 0 <= i < cfg.z && Live(cfg, b, i) ==> (b.ptrs[i] == slot <==> b.addrs[i] == addr))
  }

  /** Reading for `addr` takes that address, and nothing else, out of the bucket. */
  lemma {:induction false} ReadRemoves(cfg: Config, b: Bucket, addr: nat, slot: nat, k: nat)
    requires BucketOk(cfg, b) && Readable(cfg, b, addr, slot) && k <= cfg.z
    ensures Shaped(cfg, Consume(b, slot))
    ensures LiveBlocks(cfg, Consume(b, slot), k) == Remove(LiveBlocks(cfg, b, k), addr)
  {
    if k > 0 {
      ReadRemoves(cfg, b, addr, slot, k - 1);
      var prefix, c := LiveBlocks(cfg, b, k - 1), Consume(b, slot);
      if Live(cfg, b, k - 1) {
        var x := b.data[b.ptrs[k - 1]];
        assert LiveBlocks(cfg, b, k) == prefix + [x];
        hide Remove;
        RemoveSnoc(prefix, x, addr);
        assert Live(cfg, c, k - 1) <==> x.addr != addr;
      } else {
        assert LiveBlocks(cfg, b, k) == prefix && !Live(cfg, c, k - 1);
      }
    }
  }

  lemma {:induction false} RemoveSnoc(blocks: seq<RingBlock>, x: RingBlock, addr: nat)
    ensures Remove(blocks + [x], addr) == Remove(blocks, addr) + if x.addr != addr then [x] else []
  {
    assert (blocks + [x])[..|blocks|] == blocks;
  }

  // ----- how many slots are left -----

  function ValidSlots(s: seq<bool>): (v: set<nat>)
    ensures forall i :: i in v <==> 0 <= i < |s| && s[i]
    ensures |v| == |s| - CountFalse(s)
  {
    if s == [] then {} else
      var n := |s| - 1;
      assert forall i :: 0 <= i < n ==> s[..n][i] == s[i];
      ValidSlots(s[..n]) + (if s[n] then {n} else {})
  }

  function Targets(s: seq<nat>): (t: set<nat>)
    ensures forall x :: x in t <==> x in s
    ensures |t| <= |s|
  {
    if s == [] then {} else
      assert s == s[..|s| - 1] + [s[|s| - 1]];
      Targets(s[..|s| - 1]) + {s[|s| - 1]}
  }

  /** While a bucket has been read fewer than s times it still has an unread slot that no entry uses. */
  lemma {:induction false} SpareSlot(cfg: Config, b: Bucket) returns (slot: nat)
    requires BucketOk(cfg, b) && b.count < cfg.s
    ensures slot < cfg.Slots() && b.valids[slot] && slot !in b.ptrs
  {
    var valid, used := ValidSlots(b.valids), Targets(b.ptrs);
    if valid <= used {
      SubsetSize(valid, used);
      assert false;
    }
    slot :| slot in valid && slot !in used;
  }
}
