/** Path ORAM's wire format. The parser checks no bounds, and it drops the blocks that do not fit the
    capacity it is given. */
module CoreSerializer {
  import opened Bytes
  import opened LittleEndian
  import opened PathState
  import opened Results
  import opened RingCodec
  import opened RingLayout

  function CoreBlockWire(b: Block): seq<byte>
  {
    Uint64Wire(b.id) + BytesWire(b.data)
  }

  function CoreListWire(blocks: seq<Block>): seq<byte>
  {
    if blocks == [] then [] else CoreListWire(blocks[..|blocks| - 1]) + CoreBlockWire(blocks[|blocks| - 1])
  }

  function CoreBucketWire(blocks: seq<Block>): seq<byte>
  {
    Uint64Wire(|blocks|) + CoreListWire(blocks)
  }

  predicate CoreFits(b: Block)
  {
    b.id < UINT64_LIMIT && |b.data| < UINT64_LIMIT
  }

  predicate CoreListFits(blocks: seq<Block>)
  {
    |blocks| < UINT64_LIMIT && forall i :: 0 <= i < |blocks| ==> CoreFits(blocks[i])
  }

  function ParseCoreBlock(s: seq<byte>): Parsed<Block>
  {
    match ParseUint64(s)
    case None => None
    case Some((id, rest)) =>
      match ParseBytes(rest)
      case None => None
      case Some((data, rest')) => Some((Block(id, data), rest'))
  }

  function ParseCoreList(s: seq<byte>, count: nat): Parsed<seq<Block>>
  {
    if count == 0 then Some(([], s)) else
      match ParseCoreList(s, count - 1)
      case None => None
      case Some((blocks, rest)) =>
        match ParseCoreBlock(rest)
        case None => None
        case Some((b, rest')) => Some((blocks + [b], rest'))
  }

  function ParseCoreBucket(s: seq<byte>): Parsed<seq<Block>>
  {
    match ParseUint64(s)
    case None => None
    case Some((count, rest)) => ParseCoreList(rest, count)
  }

  lemma {:induction false} CoreBlockBack(b: Block, rest: seq<byte>)
    requires CoreFits(b)
    ensures ParseCoreBlock(CoreBlockWire(b) + rest) == Some((b, rest))
  {
    hide ParseBytes, BytesWire, ParseUint64, Uint64Wire;
    Uint64Back(b.id, BytesWire(b.data) + rest);
    BytesBack(b.data, rest);
    assert CoreBlockWire(b) + rest == Uint64Wire(b.id) + (BytesWire(b.data) + rest);
  }

  lemma {:induction false} CoreListBack(blocks: seq<Block>, rest: seq<byte>)
    requires forall i :: 0 <= i < |blocks| ==> CoreFits(blocks[i])
    ensures ParseCoreList(CoreListWire(blocks) + rest, |blocks|) == Some((blocks, rest))
  {
    hide ParseCoreBlock, CoreBlockWire;
    if blocks == [] {
      assert CoreListWire(blocks) + rest == rest;
    } else {
      var init, last := blocks[..|blocks| - 1], blocks[|blocks| - 1];
      assert blocks == init + [last];
      CoreListBack(init, CoreBlockWire(last) + rest);
      CoreBlockBack(last, rest);
      assert CoreListWire(blocks) == CoreListWire(init) + CoreBlockWire(last);
      hide CoreListWire;
      assert CoreListWire(blocks) + rest == CoreListWire(init) + (CoreBlockWire(last) + rest);
    }
  }

  lemma {:induction false} CoreBucketBack(blocks: seq<Block>, rest: seq<byte>)
    requires CoreListFits(blocks)
    ensures ParseCoreBucket(CoreBucketWire(blocks) + rest) == Some((blocks, rest))
  {
    hide Uint64Wire, ParseUint64, ParseCoreList, CoreListWire;
    Uint64Back(|blocks|, CoreListWire(blocks) + rest);
    CoreListBack(blocks, rest);
    assert CoreBucketWire(blocks) + rest == Uint64Wire(|blocks|) + (CoreListWire(blocks) + rest);
  }

  // ----- where the bytes are -----

  ghost predicate CoreBlockAt(s: seq<byte>, o: nat, b: Block)
  {
    NumberAt(s, o, b.id) && BytesAt(s, o + 8, b.data)
  }

  /** Where block i starts when the list starts at o. */
  ghost function CoreStart(o: nat, blocks: seq<Block>, i: nat): nat
    requires i <= |blocks|
  {
    if i == 0 then o else CoreStart(o, blocks, i - 1) + 16 + |blocks[i - 1].data|
  }

  ghost predicate CoreBucketAt(s: seq<byte>, blocks: seq<Block>)
  {
    && NumberAt(s, 0, |blocks|) && |s| == CoreStart(8, blocks, |blocks|)
    && forall i: nat :: i < |blocks| ==> CoreBlockAt(s, CoreStart(8, blocks, i), blocks[i])
  }

  lemma {:induction false} CoreBlockLies(before: seq<byte>, b: Block, rest: seq<byte>)
    ensures CoreBlockAt(before + CoreBlockWire(b) + rest, |before|, b) && |CoreBlockWire(b)| == 16 + |b.data|
  {
    hide Uint64Wire, NumberAt, BytesAt;
    var id, data := Uint64Wire(b.id), BytesWire(b.data);
    var s := before + CoreBlockWire(b) + rest;
    NumberLies(before, b.id, data + rest);
    assert s == before + id + (data + rest);
    BytesLie(before + id, b.data, rest);
    assert s == before + id + data + rest;
  }

  lemma {:induction false} CoreStartPrefix(o: nat, blocks: seq<Block>, more: seq<Block>, i: nat)
    requires i <= |blocks|
    ensures CoreStart(o, blocks + more, i) == CoreStart(o, blocks, i)
  {
    if i > 0 { CoreStartPrefix(o, blocks, more, i - 1); }
  }

  lemma {:induction false} CoreListSize(blocks: seq<Block>, o: nat)
    ensures |CoreListWire(blocks)| + o == CoreStart(o, blocks, |blocks|)
  {
    if blocks != [] {
      var init, last := blocks[..|blocks| - 1], blocks[|blocks| - 1];
      assert blocks == init + [last];
      CoreListSize(init, o);
      CoreStartPrefix(o, init, [last], |init|);
      CoreBlockLies([], last, []);
    }
  }

  lemma {:induction false} CoreListLies(before: seq<byte>, blocks: seq<Block>, rest: seq<byte>, i: nat)
    requires i < |blocks|
    ensures CoreBlockAt(before + CoreListWire(blocks) + rest, CoreStart(|before|, blocks, i), blocks[i])
  {
    hide CoreBlockWire, CoreBlockAt, CoreStart;
    var init, last := blocks[..|blocks| - 1], blocks[|blocks| - 1];
    assert blocks == init + [last];
    assert CoreListWire(blocks) == CoreListWire(init) + CoreBlockWire(last);
    hide CoreListWire;
    Between(before, CoreListWire(init), CoreBlockWire(last), rest);
    CoreStartPrefix(|before|, init, [last], if i < |init| then i else |init|);
    if i < |init| {
      CoreListLies(before, init, CoreBlockWire(last) + rest, i);
    } else {
      CoreListSize(init, |before|);
      CoreBlockLies(before + CoreListWire(init), last, rest);
    }
  }

  /** The bytes of a written bucket. */
  lemma {:induction false} CoreBucketLies(blocks: seq<Block>)
    ensures CoreBucketAt(CoreBucketWire(blocks), blocks)
  {
    hide Uint64Wire, CoreListWire, NumberAt, CoreBlockAt, CoreStart;
    var size, list := Uint64Wire(|blocks|), CoreListWire(blocks);
    NumberLies([], |blocks|, list);
    assert [] + size + list == CoreBucketWire(blocks);
    CoreListSize(blocks, 8);
    assert size + list + [] == CoreBucketWire(blocks);
    forall i: nat | i < |blocks|
      ensures CoreBlockAt(size + list + [], CoreStart(8, blocks, i), blocks[i])
    {
      CoreListLies(size, blocks, [], i);
    }
  }

  /** The transport is lossless exactly for buckets within the reader's capacity. */
  lemma {:induction false} TransportLossless(blocks: seq<Block>, rest: seq<byte>, capacity: nat)
    requires CoreListFits(blocks)
    ensures ParseCoreBucket(CoreBucketWire(blocks) + rest).Some?
    ensures UpTo(ParseCoreBucket(CoreBucketWire(blocks) + rest).value.0, capacity) == blocks <==> |blocks| <= capacity
  {
    CoreBucketBack(blocks, rest);
  }

  method SerializeBlock(b: Block) returns (bytes: seq<byte>)
    requires CoreFits(b)
    ensures bytes == CoreBlockWire(b)
  {
    bytes := AppendUint64([], b.id);
    bytes := AppendUint64(bytes, |b.data|);
    bytes := bytes + b.data;
  }

  method SerializeBucket(blocks: seq<Block>) returns (bytes: seq<byte>)
    requires CoreListFits(blocks)
    ensures bytes == CoreBucketWire(blocks) && CoreBucketAt(bytes, blocks)
  {
    CoreBucketLies(blocks);
    hide Uint64Wire, CoreBlockWire, CoreBucketAt;
    bytes := AppendUint64([], |blocks|);
    ghost var start := bytes;
    for i := 0 to |blocks|
      invariant bytes == start + CoreListWire(blocks[..i])
    {
      var blockBytes := SerializeBlock(blocks[i]);
      assert blocks[..i + 1][..i] == blocks[..i];
      bytes := bytes + blockBytes;
    }
    assert blocks[..|blocks|] == blocks;
  }

  /** Reads one block; the caller must know that the bytes are there. */
  method DeserializeBlock(bytes: seq<byte>, offset: nat) returns (b: Block, end: nat)
    requires offset <= |bytes| && ParseCoreBlock(bytes[offset..]).Some?
    ensures ReadsAs(bytes, offset, end, Success(b), ParseCoreBlock(bytes[offset..]))
  {
    hide ParseUint64, ParseBytes;
    var id, e := ReadUint64(bytes, offset);
    var data;
    data, end := ReadBytes(bytes, e);
    b := Block(id.value, data.value);
  }

  lemma {:induction false} CoreListFails(s: seq<byte>, k: nat, count: nat)
    requires k <= count && ParseCoreList(s, count).Some?
    ensures ParseCoreList(s, k).Some?
  {
    hide ParseCoreBlock;
    if k < count { CoreListFails(s, k, count - 1); }
  }

  /** Adds blocks until the bucket is full; the rest is read and dropped. */
  method DeserializeBucket(bytes: seq<byte>, capacity: nat) returns (bucket: seq<Block>)
    requires ParseCoreBucket(bytes).Some?
    ensures bucket == UpTo(ParseCoreBucket(bytes).value.0, capacity)
  {
    hide ParseUint64, ParseCoreBlock;
    bucket := [];
    assert bytes[0..] == bytes;
    var count, offset := ReadUint64(bytes, 0);
    ghost var start := bytes[offset..];
    ghost var blocks: seq<Block> := [];
    for i := 0 to count.value
      invariant 0 <= offset <= |bytes| && ParseCoreList(start, i) == Some((blocks, bytes[offset..]))
      invariant bucket == UpTo(blocks, capacity)
    {
      CoreListFails(start, i + 1, count.value);
      var b;
      b, offset := DeserializeBlock(bytes, offset);
      blocks := blocks + [b];
      bucket := AddBlock(bucket, capacity, b);
    }
  }

  /** A full bucket refuses the block. */
  method AddBlock(bucket: seq<Block>, capacity: nat, b: Block) returns (longer: seq<Block>)
    ensures longer == if |bucket| < capacity then bucket + [b] else bucket
  {
    if |bucket| >= capacity { return bucket; }
    return bucket + [b];
  }
}
