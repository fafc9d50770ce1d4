/** Where the bytes of the written formats are, position by position. */
module RingLayout {
  import opened Bytes
  import opened LittleEndian
  import opened RingBuckets
  import opened RingServers
  import opened RingState

  /** Eight bytes from o on, least significant first. */
  ghost predicate NumberAt(s: seq<byte>, o: nat, v: nat)
  {
    o + 8 <= |s| && forall k :: 0 <= k < 8 ==> s[o + k] == v / Pow256(k) % 256
  }

  /** A size and as many bytes. */
  ghost predicate BytesAt(s: seq<byte>, o: nat, data: seq<byte>)
  {
    && NumberAt(s, o, |data|) && o + 8 + |data| <= |s|
    && forall k :: 0 <= k < |data| ==> s[o + 8 + k] == data[k]
  }

  ghost predicate FlagsAt(s: seq<byte>, o: nat, flags: seq<bool>)
  {
    && NumberAt(s, o, |flags|) && o + 8 + |flags| <= |s|
    && forall k :: 0 <= k < |flags| ==> s[o + 8 + k] == if flags[k] then 1 else 0
  }

  // ----- lists of blocks -----

  ghost predicate BlockAt(s: seq<byte>, o: nat, b: RingBlock)
  {
    NumberAt(s, o, b.addr) && NumberAt(s, o + 8, b.leaf) && BytesAt(s, o + 16, b.data)
  }

  /** Where block i starts when the list starts at o. */
  ghost function BlockStart(o: nat, blocks: seq<RingBlock>, i: nat): nat
    requires i <= |blocks|
  {
    if i == 0 then o else BlockStart(o, blocks, i - 1) + 24 + |blocks[i - 1].data|
  }

  ghost predicate BlocksAt(s: seq<byte>, o: nat, blocks: seq<RingBlock>)
  {
    NumberAt(s, o, |blocks|) && forall i: nat :: i < |blocks| ==> BlockAt(s, BlockStart(o + 8, blocks, i), blocks[i])
  }

  // ----- lists of fields -----

  ghost predicate FieldAt(s: seq<byte>, o: nat, f: EncryptedField)
  {
    BytesAt(s, o, f.iv) && BytesAt(s, o + 8 + |f.iv|, f.ciphertext)
  }

  ghost function FieldStart(o: nat, fields: seq<EncryptedField>, i: nat): nat
    requires i <= |fields|
  {
    if i == 0 then o else FieldStart(o, fields, i - 1) + 16 + |fields[i - 1].iv| + |fields[i - 1].ciphertext|
  }

  ghost predicate FieldsAt(s: seq<byte>, o: nat, fields: seq<EncryptedField>)
  {
    NumberAt(s, o, |fields|) && forall i: nat :: i < |fields| ==> FieldAt(s, FieldStart(o + 8, fields, i), fields[i])
  }

  ghost function FieldsEnd(o: nat, fields: seq<EncryptedField>): nat
  {
    FieldStart(o + 8, fields, |fields|)
  }

  // ----- metadata and buckets -----

  ghost function LeavesStart(m: Metadata): nat
  {
    FieldsEnd(16 + |m.valids|, m.addrs)
  }

  ghost function PtrsStart(m: Metadata): nat
  {
    FieldsEnd(LeavesStart(m), m.leaves)
  }

  ghost function MetadataEnd(m: Metadata): nat
  {
    FieldsEnd(PtrsStart(m), m.ptrs)
  }

  /** Count, flags, addresses, leaves, pointers. */
  ghost predicate MetadataAt(s: seq<byte>, m: Metadata)
  {
    && NumberAt(s, 0, m.count) && FlagsAt(s, 8, m.valids)
    && FieldsAt(s, 16 + |m.valids|, m.addrs) && FieldsAt(s, LeavesStart(m), m.leaves)
    && FieldsAt(s, PtrsStart(m), m.ptrs)
  }

  /** Metadata, then the data. */
  ghost predicate BucketAt(s: seq<byte>, e: EncryptedRingBucket)
  {
    && MetadataAt(s, MetadataOf(e)) && FieldsAt(s, MetadataEnd(MetadataOf(e)), e.data)
    && |s| == FieldsEnd(MetadataEnd(MetadataOf(e)), e.data)
  }
}
