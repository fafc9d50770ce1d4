/** Ring ORAM's wire and stash format: numbers are eight bytes, everything of variable size is preceded by
    its size. */
module RingCodec {
  import opened Bytes
  import opened CtrCipher
  import opened LittleEndian
  import opened Results
  import opened RingBuckets
  import opened RingLayout
  import opened RingServers
  import opened RingState

  // ----- the format -----

  function Uint64Wire(v: nat): (w: seq<byte>)
    ensures |w| == 8
  {
    Encode(v, 8)
  }

  function BytesWire(b: seq<byte>): seq<byte>
  {
    Uint64Wire(|b|) + b
  }

  function Flag(value: bool): byte
  {
    if value then 1 else 0
  }

  function FlagBytes(values: seq<bool>): (w: seq<byte>)
    ensures |w| == |values|
  {
    seq(|values|, i requires 0 <= i < |values| => Flag(values[i]))
  }

  function BoolsWire(values: seq<bool>): seq<byte>
  {
    Uint64Wire(|values|) + FlagBytes(values)
  }

  function FieldWire(f: EncryptedField): seq<byte>
  {
    BytesWire(f.iv) + BytesWire(f.ciphertext)
  }

  function FieldListWire(fields: seq<EncryptedField>): seq<byte>
  {
    if fields == [] then [] else FieldListWire(fields[..|fields| - 1]) + FieldWire(fields[|fields| - 1])
  }

  function FieldsWire(fields: seq<EncryptedField>): seq<byte>
  {
    Uint64Wire(|fields|) + FieldListWire(fields)
  }

  function BlockWire(b: RingBlock): seq<byte>
  {
    Uint64Wire(b.addr) + Uint64Wire(b.leaf) + BytesWire(b.data)
  }

  function BlockListWire(blocks: seq<RingBlock>): seq<byte>
  {
    if blocks == [] then [] else BlockListWire(blocks[..|blocks| - 1]) + BlockWire(blocks[|blocks| - 1])
  }

  function BlocksWire(blocks: seq<RingBlock>): seq<byte>
  {
    Uint64Wire(|blocks|) + BlockListWire(blocks)
  }

  function MetadataWire(m: Metadata): seq<byte>
  {
    Uint64Wire(m.count) + BoolsWire(m.valids) + FieldsWire(m.addrs) + FieldsWire(m.leaves) + FieldsWire(m.ptrs)
  }

  function BucketWire(e: EncryptedRingBucket): seq<byte>
  {
    MetadataWire(MetadataOf(e)) + FieldsWire(e.data)
  }

  // ----- what fits the format -----

  predicate FieldFits(f: EncryptedField)
  {
    |f.iv| < UINT64_LIMIT && |f.ciphertext| < UINT64_LIMIT
  }

  predicate FieldsFit(fields: seq<EncryptedField>)
  {
    |fields| < UINT64_LIMIT && forall i :: 0 <= i < |fields| ==> FieldFits(fields[i])
  }

  predicate BlockFits(b: RingBlock)
  {
    b.addr < UINT64_LIMIT && b.leaf < UINT64_LIMIT && |b.data| < UINT64_LIMIT
  }

  predicate BlocksFit(blocks: seq<RingBlock>)
  {
    |blocks| < UINT64_LIMIT && forall i :: 0 <= i < |blocks| ==> BlockFits(blocks[i])
  }

  predicate MetadataFits(m: Metadata)
  {
    m.count < UINT64_LIMIT && |m.valids| < UINT64_LIMIT && FieldsFit(m.addrs) && FieldsFit(m.leaves) && FieldsFit(m.ptrs)
  }

  // ----- reading: a value and the bytes after it -----

  type Parsed<T> = Option<(T, seq<byte>)>

  function ParseUint64(s: seq<byte>): Parsed<nat>
  {
    if |s| < 8 then None else Some((Decode(s[..8]), s[8..]))
  }

  function ParseBytes(s: seq<byte>): Parsed<seq<byte>>
  {
    match ParseUint64(s)
    case None => None
    case Some((size, rest)) => if size > |rest| then None else Some((rest[..size], rest[size..]))
  }

  function Flags(w: seq<byte>): (values: seq<bool>)
    ensures |values| == |w|
  {
    seq(|w|, i requires 0 <= i < |w| => w[i] != 0)
  }

  function ParseBools(s: seq<byte>): Parsed<seq<bool>>
  {
    match ParseBytes(s)
    case None => None
    case Some((w, rest)) => Some((Flags(w), rest))
  }

  function ParseField(s: seq<byte>): Parsed<EncryptedField>
  {
    match ParseBytes(s)
    case None => None
    case Some((iv, rest)) =>
      match ParseBytes(rest)
      case None => None
      case Some((ciphertext, rest')) => Some((EncryptedField(iv, ciphertext), rest'))
  }

  function ParseFieldList(s: seq<byte>, count: nat): Parsed<seq<EncryptedField>>
  {
    if count == 0 then Some(([], s)) else
      match ParseFieldList(s, count - 1)
      case None => None
      case Some((fields, rest)) =>
        match ParseField(rest)
        case None => None
        case Some((f, rest')) => Some((fields + [f], rest'))
  }

  function ParseFields(s: seq<byte>): Parsed<seq<EncryptedField>>
  {
    match ParseUint64(s)
    case None => None
    case Some((count, rest)) => ParseFieldList(rest, count)
  }

  function ParseBlock(s: seq<byte>): Parsed<RingBlock>
  {
    match ParseUint64(s)
    case None => None
    case Some((addr, rest)) =>
      match ParseUint64(rest)
      case None => None
      case Some((leaf, rest')) =>
        match ParseBytes(rest')
        case None => None
        case Some((data, rest'')) => Some((RingBlock(addr, leaf, data), rest''))
  }

  function ParseBlockList(s: seq<byte>, count: nat): Parsed<seq<RingBlock>>
  {
    if count == 0 then Some(([], s)) else
      match ParseBlockList(s, count - 1)
      case None => None
      case Some((blocks, rest)) =>
        match ParseBlock(rest)
        case None => None
        case Some((b, rest')) => Some((blocks + [b], rest'))
  }

  function ParseBlocks(s: seq<byte>): Parsed<seq<RingBlock>>
  {
    match ParseUint64(s)
    case None => None
    case Some((count, rest)) => ParseBlockList(rest, count)
  }

  function ParseMetadata(s: seq<byte>): Parsed<Metadata>
  {
    match ParseUint64(s)
    case None => None
    case Some((count, s1)) =>
      match ParseBools(s1)
      case None => None
      case Some((valids, s2)) =>
        match ParseFields(s2)
        case None => None
        case Some((addrs, s3)) =>
          match ParseFields(s3)
          case None => None
          case Some((leaves, s4)) =>
            match ParseFields(s4)
            case None => None
            case Some((ptrs, s5)) => Some((Metadata(count, valids, addrs, leaves, ptrs), s5))
  }

  function ParseBucket(s: seq<byte>): Parsed<EncryptedRingBucket>
  {
    match ParseMetadata(s)
    case None => None
    case Some((m, rest)) =>
      match ParseFields(rest)
      case None => None
      case Some((data, rest')) => Some((EncryptedRingBucket(m.count, m.valids, m.addrs, m.leaves, m.ptrs, data), rest'))
  }

  // ----- what is written is read back -----

  lemma {:induction false} Uint64Back(v: nat, rest: seq<byte>)
    requires v < UINT64_LIMIT
    ensures ParseUint64(Uint64Wire(v) + rest) == Some((v, rest))
  {
    hide Encode, Decode;
    var w := Uint64Wire(v);
    assert (w + rest)[..8] == w && (w + rest)[8..] == rest;
    Uint64RoundTrip(v);
  }

  lemma {:induction false} BytesBack(b: seq<byte>, rest: seq<byte>)
    requires |b| < UINT64_LIMIT
    ensures ParseBytes(BytesWire(b) + rest) == Some((b, rest))
  {
    hide Uint64Wire, ParseUint64;
    Uint64Back(|b|, b + rest);
    assert BytesWire(b) + rest == Uint64Wire(|b|) + (b + rest);
    assert (b + rest)[..|b|] == b && (b + rest)[|b|..] == rest;
  }

  lemma {:induction false} BoolsBack(values: seq<bool>, rest: seq<byte>)
    requires |values| < UINT64_LIMIT
    ensures ParseBools(BoolsWire(values) + rest) == Some((values, rest))
  {
    hide ParseBytes;
    BytesBack(FlagBytes(values), rest);
    assert Flags(FlagBytes(values)) == values;
  }

  lemma {:induction false} FieldBack(f: EncryptedField, rest: seq<byte>)
    requires FieldFits(f)
    ensures ParseField(FieldWire(f) + rest) == Some((f, rest))
  {
    hide ParseBytes, BytesWire;
    BytesBack(f.iv, BytesWire(f.ciphertext) + rest);
    BytesBack(f.ciphertext, rest);
    assert FieldWire(f) + rest == BytesWire(f.iv) + (BytesWire(f.ciphertext) + rest);
  }

  lemma {:induction false} FieldListBack(fields: seq<EncryptedField>, rest: seq<byte>)
    requires forall i :: 0 <= i < |fields| ==> FieldFits(fields[i])
    ensures ParseFieldList(FieldListWire(fields) + rest, |fields|) == Some((fields, rest))
  {
    hide ParseField, FieldWire;
    if fields == [] {
      assert FieldListWire(fields) + rest == rest;
    } else {
      var init, last := fields[..|fields| - 1], fields[|fields| - 1];
      assert fields == init + [last];
      FieldListBack(init, FieldWire(last) + rest);
      FieldBack(last, rest);
      assert FieldListWire(fields) == FieldListWire(init) + FieldWire(last);
      hide FieldListWire;
      assert FieldListWire(fields) + rest == FieldListWire(init) + (FieldWire(last) + rest);
    }
  }

  lemma {:induction false} FieldsBack(fields: seq<EncryptedField>, rest: seq<byte>)
    requires FieldsFit(fields)
    ensures ParseFields(FieldsWire(fields) + rest) == Some((fields, rest))
  {
    hide Uint64Wire, ParseUint64, ParseFieldList, FieldListWire;
    Uint64Back(|fields|, FieldListWire(fields) + rest);
    FieldListBack(fields, rest);
    assert FieldsWire(fields) + rest == Uint64Wire(|fields|) + (FieldListWire(fields) + rest);
  }

  lemma {:induction false} BlockBack(b: RingBlock, rest: seq<byte>)
    requires BlockFits(b)
    ensures ParseBlock(BlockWire(b) + rest) == Some((b, rest))
  {
    hide ParseBytes, BytesWire, ParseUint64, Uint64Wire;
    var tail := BytesWire(b.data) + rest;
    Uint64Back(b.addr, Uint64Wire(b.leaf) + tail);
    Uint64Back(b.leaf, tail);
    BytesBack(b.data, rest);
    assert BlockWire(b) + rest == Uint64Wire(b.addr) + (Uint64Wire(b.leaf) + tail);
  }

  lemma {:induction false} BlockListBack(blocks: seq<RingBlock>, rest: seq<byte>)
    requires forall i :: 0 <= i < |blocks| ==> BlockFits(blocks[i])
    ensures ParseBlockList(BlockListWire(blocks) + rest, |blocks|) == Some((blocks, rest))
  {
    hide ParseBlock, BlockWire;
    if blocks == [] {
      assert BlockListWire(blocks) + rest == rest;
    } else {
      var init, last := blocks[..|blocks| - 1], blocks[|blocks| - 1];
      assert blocks == init + [last];
      BlockListBack(init, BlockWire(last) + rest);
      BlockBack(last, rest);
      assert BlockListWire(blocks) == BlockListWire(init) + BlockWire(last);
      hide BlockListWire;
      assert BlockListWire(blocks) + rest == BlockListWire(init) + (BlockWire(last) + rest);
    }
  }

  /** The stash survives its file. */
  lemma {:induction false} BlocksBack(blocks: seq<RingBlock>, rest: seq<byte>)
    requires BlocksFit(blocks)
    ensures ParseBlocks(BlocksWire(blocks) + rest) == Some((blocks, rest))
  {
    hide Uint64Wire, ParseUint64, ParseBlockList, BlockListWire;
    Uint64Back(|blocks|, BlockListWire(blocks) + rest);
    BlockListBack(blocks, rest);
    assert BlocksWire(blocks) + rest == Uint64Wire(|blocks|) + (BlockListWire(blocks) + rest);
  }

  lemma {:induction false} MetadataBack(m: Metadata, rest: seq<byte>)
    requires MetadataFits(m)
    ensures ParseMetadata(MetadataWire(m) + rest) == Some((m, rest))
  {
    hide Uint64Wire, ParseUint64, ParseFields, FieldsWire, ParseBools, BoolsWire, FieldsFit;
    var s4 := FieldsWire(m.ptrs) + rest;
    var s3 := FieldsWire(m.leaves) + s4;
    var s2 := FieldsWire(m.addrs) + s3;
    var s1 := BoolsWire(m.valids) + s2;
    Uint64Back(m.count, s1);
    BoolsBack(m.valids, s2);
    FieldsBack(m.addrs, s3);
    FieldsBack(m.leaves, s4);
    FieldsBack(m.ptrs, rest);
    assert MetadataWire(m) + rest == Uint64Wire(m.count) + s1;
  }

  /** An encrypted bucket survives the network. */
  lemma {:induction false} BucketBack(e: EncryptedRingBucket, rest: seq<byte>)
    requires MetadataFits(MetadataOf(e)) && FieldsFit(e.data)
    ensures ParseBucket(BucketWire(e) + rest) == Some((e, rest))
  {
    hide ParseFields, FieldsWire, ParseMetadata, MetadataWire, FieldsFit, MetadataFits;
    MetadataBack(MetadataOf(e), FieldsWire(e.data) + rest);
    FieldsBack(e.data, rest);
    assert BucketWire(e) + rest == MetadataWire(MetadataOf(e)) + (FieldsWire(e.data) + rest);
  }

  // ----- where the bytes are -----

  lemma {:induction false} NumberLies(before: seq<byte>, v: nat, rest: seq<byte>)
    ensures NumberAt(before + Uint64Wire(v) + rest, |before|, v)
  {
    hide Encode, Pow256;
    EncodeIsNumber(v);
    var w, s := Uint64Wire(v), before + Uint64Wire(v) + rest;
    forall k | 0 <= k < 8
      ensures s[|before| + k] == v / Pow256(k) % 256
    {
      assert s[|before| + k] == w[k];
    }
  }

  lemma {:induction false} BytesLie(before: seq<byte>, data: seq<byte>, rest: seq<byte>)
    ensures BytesAt(before + BytesWire(data) + rest, |before|, data)
  {
    hide Uint64Wire, NumberAt;
    NumberLies(before, |data|, data + rest);
    var s := before + BytesWire(data) + rest;
    assert s == before + Uint64Wire(|data|) + (data + rest);
  }

  lemma {:induction false} FlagsLie(before: seq<byte>, flags: seq<bool>, rest: seq<byte>)
    ensures FlagsAt(before + BoolsWire(flags) + rest, |before|, flags)
  {
    hide Uint64Wire, NumberAt;
    NumberLies(before, |flags|, FlagBytes(flags) + rest);
    var s := before + BoolsWire(flags) + rest;
    assert s == before + Uint64Wire(|flags|) + (FlagBytes(flags) + rest);
  }

  lemma {:induction false} BlockLies(before: seq<byte>, b: RingBlock, rest: seq<byte>)
    ensures BlockAt(before + BlockWire(b) + rest, |before|, b) && |BlockWire(b)| == 24 + |b.data|
  {
    hide Uint64Wire, NumberAt, BytesAt;
    var addr, leaf, data := Uint64Wire(b.addr), Uint64Wire(b.leaf), BytesWire(b.data);
    var s := before + BlockWire(b) + rest;
    NumberLies(before, b.addr, leaf + data + rest);
    assert s == before + addr + (leaf + data + rest);
    NumberLies(before + addr, b.leaf, data + rest);
    assert s == before + addr + leaf + (data + rest);
    BytesLie(before + addr + leaf, b.data, rest);
    assert s == before + addr + leaf + data + rest;
  }

  lemma {:induction false} Between(before: seq<byte>, a: seq<byte>, b: seq<byte>, rest: seq<byte>)
    ensures before + (a + b) + rest == before + a + (b + rest) == before + a + b + rest
  {
  }

  lemma {:induction false} BlockStartPrefix(o: nat, blocks: seq<RingBlock>, more: seq<RingBlock>, i: nat)
    requires i <= |blocks|
    ensures BlockStart(o, blocks + more, i) == BlockStart(o, blocks, i)
  {
    if i > 0 { BlockStartPrefix(o, blocks, more, i - 1); }
  }

  lemma {:induction false} BlockListSize(blocks: seq<RingBlock>, o: nat)
    ensures |BlockListWire(blocks)| + o == BlockStart(o, blocks, |blocks|)
  {
    if blocks != [] {
      var init, last := blocks[..|blocks| - 1], blocks[|blocks| - 1];
      assert blocks == init + [last];
      BlockListSize(init, o);
      BlockStartPrefix(o, init, [last], |init|);
      BlockLies([], last, []);
    }
  }

  lemma {:induction false} BlockListLies(before: seq<byte>, blocks: seq<RingBlock>, rest: seq<byte>, i: nat)
    requires i < |blocks|
    ensures BlockAt(before + BlockListWire(blocks) + rest, BlockStart(|before|, blocks, i), blocks[i])
  {
    hide BlockWire, BlockAt, BlockStart;
    var init, last := blocks[..|blocks| - 1], blocks[|blocks| - 1];
    assert blocks == init + [last];
    assert BlockListWire(blocks) == BlockListWire(init) + BlockWire(last);
    hide BlockListWire;
    Between(before, BlockListWire(init), BlockWire(last), rest);
    BlockStartPrefix(|before|, init, [last], if i < |init| then i else |init|);
    if i < |init| {
      BlockListLies(before, init, BlockWire(last) + rest, i);
    } else {
      BlockListSize(init, |before|);
      BlockLies(before + BlockListWire(init), last, rest);
    }
  }

  /** The bytes of a written stash. */
  lemma {:induction false} BlocksLie(blocks: seq<RingBlock>)
    ensures BlocksAt(BlocksWire(blocks), 0, blocks) && |BlocksWire(blocks)| == BlockStart(8, blocks, |blocks|)
  {
    hide Uint64Wire, BlockListWire, NumberAt, BlockAt, BlockStart;
    var size, list := Uint64Wire(|blocks|), BlockListWire(blocks);
    NumberLies([], |blocks|, list);
    assert [] + size + list == BlocksWire(blocks);
    BlockListSize(blocks, 8);
    forall i: nat | i < |blocks|
      ensures BlockAt(size + list + [], BlockStart(8, blocks, i), blocks[i])
    {
      BlockListLies(size, blocks, [], i);
    }
    assert size + list + [] == BlocksWire(blocks);
  }

  lemma {:induction false} FieldLies(before: seq<byte>, f: EncryptedField, rest: seq<byte>)
    ensures FieldAt(before + FieldWire(f) + rest, |before|, f) && |FieldWire(f)| == 16 + |f.iv| + |f.ciphertext|
  {
    hide Uint64Wire, BytesAt;
    var iv, text := BytesWire(f.iv), BytesWire(f.ciphertext);
    var s := before + FieldWire(f) + rest;
    BytesLie(before, f.iv, text + rest);
    assert s == before + iv + (text + rest);
    BytesLie(before + iv, f.ciphertext, rest);
    assert s == before + iv + text + rest;
  }

  lemma {:induction false} FieldStartPrefix(o: nat, fields: seq<EncryptedField>, more: seq<EncryptedField>, i: nat)
    requires i <= |fields|
    ensures FieldStart(o, fields + more, i) == FieldStart(o, fields, i)
  {
    if i > 0 { FieldStartPrefix(o, fields, more, i - 1); }
  }

  lemma {:induction false} FieldListSize(fields: seq<EncryptedField>, o: nat)
    ensures |FieldListWire(fields)| + o == FieldStart(o, fields, |fields|)
  {
    if fields != [] {
      var init, last := fields[..|fields| - 1], fields[|fields| - 1];
      assert fields == init + [last];
      FieldListSize(init, o);
      FieldStartPrefix(o, init, [last], |init|);
      FieldLies([], last, []);
    }
  }

  lemma {:induction false} FieldListLies(before: seq<byte>, fields: seq<EncryptedField>, rest: seq<byte>, i: nat)
    requires i < |fields|
    ensures FieldAt(before + FieldListWire(fields) + rest, FieldStart(|before|, fields, i), fields[i])
  {
    hide FieldWire, FieldAt, FieldStart;
    var init, last := fields[..|fields| - 1], fields[|fields| - 1];
    assert fields == init + [last];
    assert FieldListWire(fields) == FieldListWire(init) + FieldWire(last);
    hide FieldListWire;
    Between(before, FieldListWire(init), FieldWire(last), rest);
    FieldStartPrefix(|before|, init, [last], if i < |init| then i else |init|);
    if i < |init| {
      FieldListLies(before, init, FieldWire(last) + rest, i);
    } else {
      FieldListSize(init, |before|);
      FieldLies(before + FieldListWire(init), last, rest);
    }
  }

  lemma {:induction false} FieldsLie(before: seq<byte>, fields: seq<EncryptedField>, rest: seq<byte>)
    ensures FieldsAt(before + FieldsWire(fields) + rest, |before|, fields)
    ensures |before| + |FieldsWire(fields)| == FieldsEnd(|before|, fields)
  {
    hide Uint64Wire, FieldListWire, NumberAt, FieldAt, FieldStart;
    var size, list := Uint64Wire(|fields|), FieldListWire(fields);
    var s := before + FieldsWire(fields) + rest;
    NumberLies(before, |fields|, list + rest);
    assert s == before + size + (list + rest);
    FieldListSize(fields, |before| + 8);
    assert s == before + size + list + rest;
    forall i: nat | i < |fields|
      ensures FieldAt(s, FieldStart(|before| + 8, fields, i), fields[i])
    {
      FieldListLies(before + size, fields, rest, i);
    }
  }

  /** The bytes of written metadata, whatever follows. */
  lemma {:induction false} MetadataLies(m: Metadata, rest: seq<byte>)
    ensures MetadataAt(MetadataWire(m) + rest, m) && |MetadataWire(m)| == MetadataEnd(m)
  {
    hide Uint64Wire, BoolsWire, FieldsWire, NumberAt, FlagsAt, FieldsAt, FieldsEnd;
    var count, flags := Uint64Wire(m.count), BoolsWire(m.valids);
    var addrs, leaves, ptrs := FieldsWire(m.addrs), FieldsWire(m.leaves), FieldsWire(m.ptrs);
    BoolsSize(m.valids);
    NumberLies([], m.count, flags + addrs + leaves + ptrs + rest);
    FlagsLie(count, m.valids, addrs + leaves + ptrs + rest);
    FieldsLie(count + flags, m.addrs, leaves + ptrs + rest);
    FieldsLie(count + flags + addrs, m.leaves, ptrs + rest);
    FieldsLie(count + flags + addrs + leaves, m.ptrs, rest);
    Groupings(count, flags, addrs, leaves, ptrs, rest);
  }

  lemma {:induction false} BoolsSize(values: seq<bool>)
    ensures |BoolsWire(values)| == 8 + |values|
  {
  }

  lemma {:induction false} Groupings(a: seq<byte>, b: seq<byte>, c: seq<byte>, d: seq<byte>, e: seq<byte>, r: seq<byte>)
    ensures var s := a + b + c + d + e + r;
            && s == [] + a + (b + c + d + e + r) && s == a + b + (c + d + e + r)
            && s == a + b + c + (d + e + r) && s == a + b + c + d + (e + r)
  {
  }

  /** The bytes of a written bucket. */
  lemma {:induction false} BucketLies(e: EncryptedRingBucket)
    ensures BucketAt(BucketWire(e), e)
  {
    hide MetadataWire, FieldsWire, MetadataAt, FieldsAt, FieldsEnd, MetadataEnd;
    var m := MetadataWire(MetadataOf(e));
    MetadataLies(MetadataOf(e), FieldsWire(e.data));
    FieldsLie(m, e.data, []);
    assert m + FieldsWire(e.data) + [] == BucketWire(e);
  }

  // ----- what is read is what was written -----

  lemma {:induction false} Uint64Canonical(s: seq<byte>)
    ensures ParseUint64(s).Some? ==>
              var (v, rest) := ParseUint64(s).value; v < UINT64_LIMIT && s == Uint64Wire(v) + rest
  {
    hide Encode, Decode;
    if |s| >= 8 {
      EncodeDecode(s[..8]);
      Uint64Limit();
      assert s == s[..8] + s[8..];
    }
  }

  lemma {:induction false} BytesCanonical(s: seq<byte>)
    ensures ParseBytes(s).Some? ==>
              var (b, rest) := ParseBytes(s).value; |b| < UINT64_LIMIT && s == BytesWire(b) + rest
  {
    hide Uint64Wire, ParseUint64;
    Uint64Canonical(s);
    if ParseBytes(s).Some? {
      var (size, rest) := ParseUint64(s).value;
      assert rest == rest[..size] + rest[size..];
      assert s == Uint64Wire(size) + rest[..size] + rest[size..];
    }
  }

  lemma {:induction false} BlockCanonical(s: seq<byte>)
    ensures ParseBlock(s).Some? ==> var (b, rest) := ParseBlock(s).value; BlockFits(b) && s == BlockWire(b) + rest
  {
    hide Uint64Wire, ParseUint64, ParseBytes, BytesWire;
    if ParseBlock(s).Some? {
      Uint64Canonical(s);
      var (addr, s1) := ParseUint64(s).value;
      Uint64Canonical(s1);
      var (leaf, s2) := ParseUint64(s1).value;
      BytesCanonical(s2);
      var (data, s3) := ParseBytes(s2).value;
      assert s == Uint64Wire(addr) + Uint64Wire(leaf) + BytesWire(data) + s3;
    }
  }

  lemma {:induction false} BlockListCanonical(s: seq<byte>, count: nat)
    ensures ParseBlockList(s, count).Some? ==>
              var (blocks, rest) := ParseBlockList(s, count).value;
              && |blocks| == count && (forall i :: 0 <= i < count ==> BlockFits(blocks[i]))
              && s == BlockListWire(blocks) + rest
  {
    hide ParseBlock, BlockWire, BlockFits;
    if count > 0 && ParseBlockList(s, count).Some? {
      BlockListCanonical(s, count - 1);
      var (init, s1) := ParseBlockList(s, count - 1).value;
      BlockCanonical(s1);
      var (last, s2) := ParseBlock(s1).value;
      assert (init + [last])[..count - 1] == init;
      assert s == BlockListWire(init) + BlockWire(last) + s2;
    } else if count == 0 {
      assert s == BlockListWire([]) + s;
    }
  }

  /** Any bytes that are accepted as a stash are exactly what writing that stash would have produced. */
  lemma {:induction false} BlocksCanonical(s: seq<byte>)
    ensures ParseBlocks(s).Some? ==>
              var (blocks, rest) := ParseBlocks(s).value; BlocksFit(blocks) && s == BlocksWire(blocks) + rest
  {
    hide Uint64Wire, ParseUint64, ParseBlockList, BlockListWire, BlockFits;
    Uint64Canonical(s);
    if ParseBlocks(s).Some? {
      var (count, s1) := ParseUint64(s).value;
      BlockListCanonical(s1, count);
      var (blocks, rest) := ParseBlockList(s1, count).value;
      assert s == Uint64Wire(count) + BlockListWire(blocks) + rest;
    }
  }

  lemma {:induction false} FieldCanonical(s: seq<byte>)
    ensures ParseField(s).Some? ==> var (f, rest) := ParseField(s).value; s == FieldWire(f) + rest
  {
    hide ParseBytes, BytesWire;
    if ParseField(s).Some? {
      BytesCanonical(s);
      var (iv, s1) := ParseBytes(s).value;
      BytesCanonical(s1);
      var (ciphertext, s2) := ParseBytes(s1).value;
      assert s == BytesWire(iv) + BytesWire(ciphertext) + s2;
    }
  }

  lemma {:induction false} FieldListCanonical(s: seq<byte>, count: nat)
    ensures ParseFieldList(s, count).Some? ==>
              var (fields, rest) := ParseFieldList(s, count).value; |fields| == count && s == FieldListWire(fields) + rest
  {
    hide ParseField, FieldWire;
    if count > 0 && ParseFieldList(s, count).Some? {
      FieldListCanonical(s, count - 1);
      var (init, s1) := ParseFieldList(s, count - 1).value;
      FieldCanonical(s1);
      var (last, s2) := ParseField(s1).value;
      assert (init + [last])[..count - 1] == init;
      assert s == FieldListWire(init) + FieldWire(last) + s2;
    } else if count == 0 {
      assert s == FieldListWire([]) + s;
    }
  }

  lemma {:induction false} FieldsCanonical(s: seq<byte>)
    ensures ParseFields(s).Some? ==> var (fields, rest) := ParseFields(s).value; s == FieldsWire(fields) + rest
  {
    hide Uint64Wire, ParseUint64, ParseFieldList, FieldListWire;
    Uint64Canonical(s);
    if ParseFields(s).Some? {
      var (count, s1) := ParseUint64(s).value;
      FieldListCanonical(s1, count);
      var (fields, rest) := ParseFieldList(s1, count).value;
      assert s == Uint64Wire(count) + FieldListWire(fields) + rest;
    }
  }

  predicate FlagsOnly(w: seq<byte>)
  {
    forall i :: 0 <= i < |w| ==> w[i] <= 1
  }

  lemma {:induction false} FlagsBack(w: seq<byte>)
    ensures FlagBytes(Flags(w)) == w <==> FlagsOnly(w)
  {
    if FlagBytes(Flags(w)) == w {
      assert forall i :: 0 <= i < |w| ==> w[i] == FlagBytes(Flags(w))[i];
    }
  }

  /** Flags are not canonical: any nonzero byte reads as true. */
  lemma {:induction false} BoolsCanonical(s: seq<byte>) returns (w: seq<byte>)
    ensures ParseBools(s).Some? ==>
              var (values, rest) := ParseBools(s).value;
              && values == Flags(w) && s == Uint64Wire(|w|) + w + rest
              && (BoolsWire(values) == Uint64Wire(|w|) + w <==> FlagsOnly(w))
  {
    hide ParseBytes, Uint64Wire, FlagsOnly;
    BytesCanonical(s);
    w := [];
    if ParseBools(s).Some? {
      w := ParseBytes(s).value.0;
      FlagsBack(w);
      var wire := BoolsWire(Flags(w));
      assert wire[8..] == FlagBytes(Flags(w)) && (Uint64Wire(|w|) + w)[8..] == w;
    }
  }

  /** Accepted metadata is what writing it would have produced exactly if every flag byte, which starts
      after the count and the number of flags, is 0 or 1. */
  lemma {:induction false} MetadataCanonical(s: seq<byte>)
    ensures ParseMetadata(s).Some? ==>
              var (m, rest) := ParseMetadata(s).value;
              16 + |m.valids| <= |s| && (s == MetadataWire(m) + rest <==> FlagsOnly(s[16..16 + |m.valids|]))
  {
    hide Uint64Wire, ParseUint64, ParseFields, FieldsWire, ParseBools, BoolsWire, FlagsOnly;
    if ParseMetadata(s).Some? {
      Uint64Canonical(s);
      var (count, s1) := ParseUint64(s).value;
      var w := BoolsCanonical(s1);
      var (valids, s2) := ParseBools(s1).value;
      FieldsCanonical(s2);
      var (addrs, s3) := ParseFields(s2).value;
      FieldsCanonical(s3);
      var (leaves, s4) := ParseFields(s3).value;
      FieldsCanonical(s4);
      var (ptrs, rest) := ParseFields(s4).value;
      var tail := FieldsWire(addrs) + FieldsWire(leaves) + FieldsWire(ptrs) + rest;
      assert s2 == tail;
      MetadataFlags(s, count, valids, w, tail);
      assert MetadataWire(Metadata(count, valids, addrs, leaves, ptrs)) + rest == Uint64Wire(count) + BoolsWire(valids) + tail;
    }
  }

  lemma {:induction false} MetadataFlags(s: seq<byte>, count: nat, valids: seq<bool>, w: seq<byte>, tail: seq<byte>)
    requires s == Uint64Wire(count) + (Uint64Wire(|w|) + w + tail) && valids == Flags(w)
    ensures 16 + |valids| <= |s|
    ensures s == Uint64Wire(count) + BoolsWire(valids) + tail <==> FlagsOnly(s[16..16 + |valids|])
  {
    hide Uint64Wire, FlagsOnly;
    assert s[16..16 + |valids|] == w;
    FlagsBack(w);
    var again := Uint64Wire(count) + BoolsWire(valids) + tail;
    assert again[16..16 + |valids|] == FlagBytes(valids);
    if FlagBytes(valids) == w {
      assert again == s;
    }
  }

  /** Two as a flag: read as true, written as one. */
  lemma {:induction false} FlagTwo()
    ensures var s := Uint64Wire(1) + [2];
            ParseBools(s) == Some(([true], [])) && BoolsWire([true]) != s
  {
    hide Uint64Wire, ParseUint64;
    var s := Uint64Wire(1) + [2];
    Uint64Back(1, [2]);
    assert Flags([2]) == [true] && [2][..1] == [2] && [2][1..] == [];
    assert BoolsWire([true])[8] == 1 && s[8] == 2;
  }

  // ----- whole inputs -----

  /** A value with nothing after it. */
  function Whole<T>(parsed: Parsed<T>): Result<T>
  {
    if parsed.Some? && parsed.value.1 == [] then Success(parsed.value.0) else Failure(InvalidArgument)
  }

  /** Exactly one byte string reads as a given stash: the one that writing it produces. */
  lemma {:induction false} StashFile(blocks: seq<RingBlock>, bytes: seq<byte>)
    ensures BlocksFit(blocks) ==> (Whole(ParseBlocks(bytes)) == Success(blocks) <==> bytes == BlocksWire(blocks))
    ensures Whole(ParseBlocks(bytes)) == Success(blocks) ==> BlocksFit(blocks)
  {
    hide ParseBlocks, BlocksWire, BlocksFit;
    BlocksCanonical(bytes);
    if BlocksFit(blocks) {
      BlocksBack(blocks, []);
      assert BlocksWire(blocks) + [] == BlocksWire(blocks);
    }
    if Whole(ParseBlocks(bytes)) == Success(blocks) {
      assert BlocksWire(blocks) + [] == BlocksWire(blocks);
    }
  }

  /** A bucket that is encrypted, written, read and decrypted is the bucket again. */
  lemma {:induction false} StoredBucketBack(cfg: Config, c: Cipher, e: EncryptedRingBucket, b: Bucket)
    requires BucketOk(cfg, b) && Encrypts(cfg, c, e, b)
    requires cfg.Slots() < UINT64_LIMIT && cfg.blockSize < UINT64_LIMIT && b.count < UINT64_LIMIT
    ensures Whole(ParseBucket(BucketWire(e))) == Success(e) && Decrypted(cfg, c, e) == b
  {
    DecryptsBack(cfg, c, e, b);
    EncryptedFits(cfg, e);
    hide BucketOk, Encrypts, Decrypted, ParseBucket, BucketWire, MetadataFits, FieldsFit;
    BucketWhole(e);
  }

  lemma {:induction false} EncryptedFits(cfg: Config, e: EncryptedRingBucket)
    requires EncryptedOk(cfg, e) && cfg.Slots() < UINT64_LIMIT && cfg.blockSize < UINT64_LIMIT && e.count < UINT64_LIMIT
    ensures MetadataFits(MetadataOf(e)) && FieldsFit(e.data)
  {
  }

  // ----- writing -----

  method AppendUint64(out: seq<byte>, value: nat) returns (longer: seq<byte>)
    requires value < UINT64_LIMIT
    ensures longer == out + Uint64Wire(value)
  {
    longer := out + Encode(value, 8);
  }

  method AppendBytes(out: seq<byte>, bytes: seq<byte>) returns (longer: seq<byte>)
    requires |bytes| < UINT64_LIMIT
    ensures longer == out + BytesWire(bytes)
  {
    hide Uint64Wire;
    longer := AppendUint64(out, |bytes|);
    longer := longer + bytes;
  }

  method AppendBoolVector(out: seq<byte>, values: seq<bool>) returns (longer: seq<byte>)
    requires |values| < UINT64_LIMIT
    ensures longer == out + BoolsWire(values)
  {
    hide Uint64Wire;
    longer := AppendUint64(out, |values|);
    ghost var start := longer;
    for i := 0 to |values|
      invariant longer == start + FlagBytes(values)[..i]
    {
      longer := longer + [if values[i] then 1 else 0];
    }
    assert FlagBytes(values)[..|values|] == FlagBytes(values);
  }

  method AppendField(out: seq<byte>, field: EncryptedField) returns (longer: seq<byte>)
    requires FieldFits(field)
    ensures longer == out + FieldWire(field)
  {
    hide BytesWire;
    longer := AppendBytes(out, field.iv);
    longer := AppendBytes(longer, field.ciphertext);
  }

  method AppendFields(out: seq<byte>, fields: seq<EncryptedField>) returns (longer: seq<byte>)
    requires FieldsFit(fields)
    ensures longer == out + FieldsWire(fields)
  {
    hide Uint64Wire, FieldWire;
    longer := AppendUint64(out, |fields|);
    ghost var start := longer;
    for i := 0 to |fields|
      invariant longer == start + FieldListWire(fields[..i])
    {
      FieldListSnoc(fields, i);
      longer := AppendField(longer, fields[i]);
    }
    assert fields[..|fields|] == fields;
  }

  lemma {:induction false} FieldListSnoc(fields: seq<EncryptedField>, i: nat)
    requires i < |fields|
    ensures FieldListWire(fields[..i + 1]) == FieldListWire(fields[..i]) + FieldWire(fields[i])
  {
    hide FieldWire;
    assert fields[..i + 1][..i] == fields[..i];
  }

  method AppendRingBlock(out: seq<byte>, block: RingBlock) returns (longer: seq<byte>)
    requires BlockFits(block)
    ensures longer == out + BlockWire(block)
  {
    hide BytesWire, Uint64Wire;
    longer := AppendUint64(out, block.addr);
    longer := AppendUint64(longer, block.leaf);
    longer := AppendBytes(longer, block.data);
  }

  method SerializeRingBlocks(blocks: seq<RingBlock>) returns (bytes: seq<byte>)
    requires BlocksFit(blocks)
    ensures bytes == BlocksWire(blocks) && Whole(ParseBlocks(bytes)) == Success(blocks)
    ensures BlocksAt(bytes, 0, blocks) && |bytes| == BlockStart(8, blocks, |blocks|)
  {
    StashFile(blocks, BlocksWire(blocks));
    BlocksLie(blocks);
    hide Uint64Wire, BlockWire, ParseBlocks, BlocksAt, BlockStart;
    bytes := AppendUint64([], |blocks|);
    ghost var start := bytes;
    for i := 0 to |blocks|
      invariant bytes == start + BlockListWire(blocks[..i])
    {
      BlockListSnoc(blocks, i);
      bytes := AppendRingBlock(bytes, blocks[i]);
    }
    assert blocks[..|blocks|] == blocks;
  }

  lemma {:induction false} BlockListSnoc(blocks: seq<RingBlock>, i: nat)
    requires i < |blocks|
    ensures BlockListWire(blocks[..i + 1]) == BlockListWire(blocks[..i]) + BlockWire(blocks[i])
  {
    hide BlockWire;
    assert blocks[..i + 1][..i] == blocks[..i];
  }

  method AppendMetadata(out: seq<byte>, m: Metadata) returns (longer: seq<byte>)
    requires MetadataFits(m)
    ensures longer == out + MetadataWire(m)
  {
    hide Uint64Wire, BoolsWire, FieldsWire, FieldsFit;
    longer := AppendUint64(out, m.count);
    longer := AppendBoolVector(longer, m.valids);
    longer := AppendFields(longer, m.addrs);
    longer := AppendFields(longer, m.leaves);
    longer := AppendFields(longer, m.ptrs);
    Regroup(out, Uint64Wire(m.count), BoolsWire(m.valids), FieldsWire(m.addrs), FieldsWire(m.leaves), FieldsWire(m.ptrs));
  }

  lemma {:induction false} Regroup(out: seq<byte>, a: seq<byte>, b: seq<byte>, c: seq<byte>, d: seq<byte>, e: seq<byte>)
    ensures out + a + b + c + d + e == out + (a + b + c + d + e)
  {
  }

  lemma {:induction false} MetadataWhole(m: Metadata)
    requires MetadataFits(m)
    ensures Whole(ParseMetadata(MetadataWire(m))) == Success(m)
  {
    hide MetadataWire, ParseMetadata, MetadataFits;
    MetadataBack(m, []);
    assert MetadataWire(m) + [] == MetadataWire(m);
  }

  lemma {:induction false} BucketWhole(e: EncryptedRingBucket)
    requires MetadataFits(MetadataOf(e)) && FieldsFit(e.data)
    ensures Whole(ParseBucket(BucketWire(e))) == Success(e)
  {
    hide BucketWire, ParseBucket, MetadataFits, FieldsFit;
    BucketBack(e, []);
    assert BucketWire(e) + [] == BucketWire(e);
  }

  method SerializeRingBucketMetadata(m: Metadata) returns (bytes: seq<byte>)
    requires MetadataFits(m)
    ensures bytes == MetadataWire(m) && Whole(ParseMetadata(bytes)) == Success(m)
    ensures MetadataAt(bytes, m) && |bytes| == MetadataEnd(m)
  {
    hide MetadataWire, ParseMetadata, MetadataFits, MetadataAt, MetadataEnd;
    MetadataWhole(m);
    MetadataLies(m, []);
    assert MetadataWire(m) + [] == MetadataWire(m);
    bytes := AppendMetadata([], m);
  }

  method SerializeEncryptedRingBucket(e: EncryptedRingBucket) returns (bytes: seq<byte>)
    requires MetadataFits(MetadataOf(e)) && FieldsFit(e.data)
    ensures bytes == BucketWire(e) && Whole(ParseBucket(bytes)) == Success(e)
    ensures BucketAt(bytes, e)
  {
    hide MetadataWire, FieldsWire, ParseBucket, MetadataFits, FieldsFit, BucketAt;
    BucketWhole(e);
    BucketLies(e);
    bytes := AppendMetadata([], MetadataOf(e));
    bytes := AppendFields(bytes, e.data);
  }

  // ----- reading at an offset -----

  /** The read at an offset does what parsing the rest of the input does. */
  ghost predicate ReadsAs<T>(bytes: seq<byte>, offset: nat, end: nat, r: Result<T>, parsed: Parsed<T>)
  {
    && (parsed.None? ==> r == Failure(InvalidArgument))
    && (parsed.Some? ==> r == Success(parsed.value.0) && offset <= end <= |bytes| && bytes[end..] == parsed.value.1)
  }

  method ReadUint64(bytes: seq<byte>, offset: nat) returns (r: Result<nat>, end: nat)
    requires offset <= |bytes|
    ensures ReadsAs(bytes, offset, end, r, ParseUint64(bytes[offset..]))
  {
    end := offset;
    if offset + 8 > |bytes| {
      r := Failure(InvalidArgument);
      return;
    }
    var value := Decode(bytes[offset..offset + 8]);
    assert bytes[offset..][..8] == bytes[offset..offset + 8] && bytes[offset..][8..] == bytes[offset + 8..];
    r, end := Success(value), offset + 8;
  }

  method ReadBytes(bytes: seq<byte>, offset: nat) returns (r: Result<seq<byte>>, end: nat)
    requires offset <= |bytes|
    ensures ReadsAs(bytes, offset, end, r, ParseBytes(bytes[offset..]))
  {
    hide ParseUint64;
    var size;
    size, end := ReadUint64(bytes, offset);
    if size.Failure? {
      r := Failure(size.error);
      return;
    }
    if end + size.value > |bytes| {
      r := Failure(InvalidArgument);
      return;
    }
    assert bytes[end..][..size.value] == bytes[end..end + size.value];
    assert bytes[end..][size.value..] == bytes[end + size.value..];
    r, end := Success(bytes[end..end + size.value]), end + size.value;
  }

  method ReadBoolVector(bytes: seq<byte>, offset: nat) returns (r: Result<seq<bool>>, end: nat)
    requires offset <= |bytes|
    ensures ReadsAs(bytes, offset, end, r, ParseBools(bytes[offset..]))
  {
    hide ParseUint64;
    var size;
    size, end := ReadUint64(bytes, offset);
    if size.Failure? {
      r := Failure(size.error);
      return;
    }
    if end + size.value > |bytes| {
      r := Failure(InvalidArgument);
      return;
    }
    ghost var w := bytes[end..end + size.value];
    var result := seq(size.value, _ => false);
    for i := 0 to size.value
      invariant |result| == size.value && forall j :: 0 <= j < i ==> result[j] == (w[j] != 0)
    {
      result := result[i := bytes[end + i] != 0];
    }
    assert bytes[end..][..size.value] == w && bytes[end..][size.value..] == bytes[end + size.value..];
    assert result == Flags(w);
    r, end := Success(result), end + size.value;
  }

  method ReadField(bytes: seq<byte>, offset: nat) returns (r: Result<EncryptedField>, end: nat)
    requires offset <= |bytes|
    ensures ReadsAs(bytes, offset, end, r, ParseField(bytes[offset..]))
  {
    hide ParseBytes;
    var iv, ciphertext;
    iv, end := ReadBytes(bytes, offset);
    if iv.Failure? {
      r := Failure(iv.error);
      return;
    }
    ciphertext, end := ReadBytes(bytes, end);
    if ciphertext.Failure? {
      r := Failure(ciphertext.error);
      return;
    }
    r := Success(EncryptedField(iv.value, ciphertext.value));
  }

  lemma {:induction false} FieldListFails(s: seq<byte>, k: nat, count: nat)
    requires k <= count && ParseFieldList(s, k).None?
    ensures ParseFieldList(s, count).None?
  {
    hide ParseField;
    if k < count { FieldListFails(s, k, count - 1); }
  }

  method ReadFields(bytes: seq<byte>, offset: nat) returns (r: Result<seq<EncryptedField>>, end: nat)
    requires offset <= |bytes|
    ensures ReadsAs(bytes, offset, end, r, ParseFields(bytes[offset..]))
  {
    hide ParseUint64, ParseField;
    var size;
    size, end := ReadUint64(bytes, offset);
    if size.Failure? {
      r := Failure(size.error);
      return;
    }
    ghost var start := bytes[end..];
    var fields: seq<EncryptedField> := [];
    for i := 0 to size.value
      invariant offset <= end <= |bytes| && ParseFieldList(start, i) == Some((fields, bytes[end..]))
    {
      var field;
      field, end := ReadField(bytes, end);
      if field.Failure? {
        FieldListFails(start, i + 1, size.value);
        r := Failure(field.error);
        return;
      }
      fields := fields + [field.value];
    }
    r := Success(fields);
  }

  method ReadRingBlockPayload(bytes: seq<byte>, offset: nat) returns (r: Result<RingBlock>, end: nat)
    requires offset <= |bytes|
    ensures ReadsAs(bytes, offset, end, r, ParseBlock(bytes[offset..]))
  {
    hide ParseUint64, ParseBytes;
    var addr, leaf, data;
    addr, end := ReadUint64(bytes, offset);
    if addr.Failure? {
      r := Failure(addr.error);
      return;
    }
    leaf, end := ReadUint64(bytes, end);
    if leaf.Failure? {
      r := Failure(leaf.error);
      return;
    }
    data, end := ReadBytes(bytes, end);
    if data.Failure? {
      r := Failure(data.error);
      return;
    }
    r := Success(RingBlock(addr.value, leaf.value, data.value));
  }

  lemma {:induction false} BlockListFails(s: seq<byte>, k: nat, count: nat)
    requires k <= count && ParseBlockList(s, k).None?
    ensures ParseBlockList(s, count).None?
  {
    hide ParseBlock;
    if k < count { BlockListFails(s, k, count - 1); }
  }

  /** Accepts exactly the byte strings that SerializeRingBlocks produces. */
  method DeserializeRingBlocks(bytes: seq<byte>) returns (r: Result<seq<RingBlock>>)
    ensures r == Whole(ParseBlocks(bytes))
    ensures r.Success? ==> BlocksFit(r.value) && bytes == BlocksWire(r.value)
  {
    BlocksCanonical(bytes);
    hide ParseUint64, ParseBlock, BlocksWire, BlocksFit;
    assert bytes[0..] == bytes;
    var count, offset := ReadUint64(bytes, 0);
    if count.Failure? { return Failure(count.error); }
    ghost var start := bytes[offset..];
    var blocks: seq<RingBlock> := [];
    for i := 0 to count.value
      invariant 0 <= offset <= |bytes| && ParseBlockList(start, i) == Some((blocks, bytes[offset..]))
    {
      var block;
      block, offset := ReadRingBlockPayload(bytes, offset);
      if block.Failure? {
        BlockListFails(start, i + 1, count.value);
        return Failure(block.error);
      }
      blocks := blocks + [block.value];
    }
    if offset != |bytes| { return Failure(InvalidArgument); }
    assert BlocksWire(blocks) + [] == BlocksWire(blocks);
    return Success(blocks);
  }

  method ReadMetadata(bytes: seq<byte>) returns (r: Result<Metadata>, end: nat)
    ensures ReadsAs(bytes, 0, end, r, ParseMetadata(bytes))
  {
    hide ParseUint64, ParseBools, ParseFields;
    assert bytes[0..] == bytes;
    var count, valids, addrs, leaves, ptrs;
    count, end := ReadUint64(bytes, 0);
    if count.Failure? {
      r := Failure(count.error);
      return;
    }
    valids, end := ReadBoolVector(bytes, end);
    if valids.Failure? {
      r := Failure(valids.error);
      return;
    }
    addrs, end := ReadFields(bytes, end);
    if addrs.Failure? {
      r := Failure(addrs.error);
      return;
    }
    leaves, end := ReadFields(bytes, end);
    if leaves.Failure? {
      r := Failure(leaves.error);
      return;
    }
    ptrs, end := ReadFields(bytes, end);
    if ptrs.Failure? {
      r := Failure(ptrs.error);
      return;
    }
    r := Success(Metadata(count.value, valids.value, addrs.value, leaves.value, ptrs.value));
  }

  method DeserializeRingBucketMetadata(bytes: seq<byte>) returns (r: Result<Metadata>)
    ensures r == Whole(ParseMetadata(bytes))
  {
    hide ParseMetadata;
    var m, end := ReadMetadata(bytes);
    if m.Failure? { return m; }
    if end != |bytes| { return Failure(InvalidArgument); }
    return m;
  }

  method DeserializeEncryptedRingBucket(bytes: seq<byte>) returns (r: Result<EncryptedRingBucket>)
    ensures r == Whole(ParseBucket(bytes))
  {
    hide ParseMetadata, ParseFields;
    var m, end := ReadMetadata(bytes);
    if m.Failure? { return Failure(m.error); }
    var data;
    data, end := ReadFields(bytes, end);
    if data.Failure? { return Failure(data.error); }
    if end != |bytes| { return Failure(InvalidArgument); }
    return Success(EncryptedRingBucket(m.value.count, m.value.valids, m.value.addrs, m.value.leaves, m.value.ptrs, data.value));
  }
}
