/** Ring ORAM: fresh buckets, and buckets as the server stores them. */
module RingBuckets {
  import opened Bytes
  import opened CtrCipher
  import opened LittleEndian
  import opened Permutations
  import opened Results
  import opened RingState

  // ----- fresh buckets -----

  function Resize(data: seq<byte>, size: nat): (r: seq<byte>)
    ensures |r| == size
    ensures |data| == size ==> r == data
  {
    if |data| >= size then data[..size] else data + Zeros(size - |data|)
  }

  function Normalize(b: RingBlock, blockSize: nat): RingBlock
  {
    b.(data := Resize(b.data, blockSize))
  }

  /** A bucket just filled: entry i holds blocks[i], the other entries and slots are padding, and no
      slot has been read. */
  ghost predicate FreshWith(cfg: Config, b: Bucket, blocks: seq<RingBlock>)
  {
    && Shaped(cfg, b) && |blocks| <= cfg.z
    && b.count == 0 && (forall slot :: 0 <= slot < cfg.Slots() ==> b.valids[slot])
    && (forall i, j :: 0 <= i < j < cfg.z ==> b.ptrs[i] != b.ptrs[j])
    && (forall i :: 0 <= i < |blocks| ==>
          b.addrs[i] == blocks[i].addr && b.leaves[i] == blocks[i].leaf && b.data[b.ptrs[i]] == blocks[i])
    && (forall i :: |blocks| <= i < cfg.z ==> b.addrs[i] == DUMMY && b.leaves[i] == 0)
    && (forall slot :: 0 <= slot < cfg.Slots() && Unused(b.ptrs, |blocks|, slot) ==> b.data[slot] == DummyBlock(cfg.blockSize))
  }

  ghost predicate Unused(ptrs: seq<nat>, k: nat, slot: nat)
    requires k <= |ptrs|
  {
    forall i :: 0 <= i < k ==> ptrs[i] != slot
  }

  /** Blocks that may be put into a bucket. */
  predicate Storable(cfg: Config, blocks: seq<RingBlock>)
  {
    forall i :: 0 <= i < |blocks| ==>
      blocks[i].addr < DUMMY && blocks[i].leaf < UINT64_LIMIT && |blocks[i].data| == cfg.blockSize
  }

  lemma {:induction false} NoneFalse(s: seq<bool>)
    requires forall i :: 0 <= i < |s| ==> s[i]
    ensures CountFalse(s) == 0
  {
    if s != [] { NoneFalse(s[..|s| - 1]); }
  }

  lemma {:induction false} FreshLive(cfg: Config, b: Bucket, blocks: seq<RingBlock>, k: nat)
    requires Shaped(cfg, b) && k <= cfg.z && |blocks| <= cfg.z
    requires forall i :: 0 <= i < |blocks| ==> Live(cfg, b, i) && b.data[b.ptrs[i]] == blocks[i]
    requires forall i :: |blocks| <= i < cfg.z ==> !Live(cfg, b, i)
    ensures LiveBlocks(cfg, b, k) == if k <= |blocks| then blocks[..k] else blocks
  {
    if k > 0 {
      FreshLive(cfg, b, blocks, k - 1);
      assert LiveBlocks(cfg, b, k)
          == LiveBlocks(cfg, b, k - 1) + if Live(cfg, b, k - 1) then [b.data[b.ptrs[k - 1]]] else [];
      hide LiveBlocks;
      if k <= |blocks| {
        assert Live(cfg, b, k - 1);
        assert blocks[..k] == blocks[..k - 1] + [blocks[k - 1]];
      } else {
        assert !Live(cfg, b, k - 1);
      }
    }
  }

  lemma {:induction false} FreshOk(cfg: Config, b: Bucket, blocks: seq<RingBlock>)
    requires FreshWith(cfg, b, blocks) && Storable(cfg, blocks)
    ensures BucketOk(cfg, b)
    ensures LiveBlocks(cfg, b, cfg.z) == blocks
  {
    hide LiveBlocks;
    NoneFalse(b.valids);
    assert LiveBlocks(cfg, b, cfg.z) == blocks by {
      FreshLive(cfg, b, blocks, cfg.z);
      assert blocks[..|blocks|] == blocks;
    }
    forall slot: nat | slot < cfg.Slots()
      ensures !Unused(b.ptrs, |blocks|, slot) ==> !Padding(cfg, b, slot) && |b.data[slot].data| == cfg.blockSize
    {
      if !Unused(b.ptrs, |blocks|, slot) {
        var i :| 0 <= i < |blocks| && b.ptrs[i] == slot;
        assert b.addrs[i] != DUMMY;
      }
    }
  }

  /** Filling one more entry of a fresh bucket. */
  lemma {:induction false} FreshStep(cfg: Config, b: Bucket, blocks: seq<RingBlock>, block: RingBlock)
    requires FreshWith(cfg, b, blocks) && |blocks| < cfg.z
    ensures var i := |blocks|;
            FreshWith(cfg, b.(addrs := b.addrs[i := block.addr], leaves := b.leaves[i := block.leaf],
                              data := b.data[b.ptrs[i] := block]), blocks + [block])
  {
    var i := |blocks|;
    var b' := b.(addrs := b.addrs[i := block.addr], leaves := b.leaves[i := block.leaf], data := b.data[b.ptrs[i] := block]);
    forall slot: nat | slot < cfg.Slots() && Unused(b.ptrs, i + 1, slot)
      ensures b'.data[slot] == DummyBlock(cfg.blockSize)
    {
      assert Unused(b.ptrs, i, slot);
      assert b.ptrs[i] != slot;
    }
  }

  lemma {:induction false} FreshShape(cfg: Config, b: Bucket, blocks: seq<RingBlock>)
    requires FreshWith(cfg, b, blocks)
    ensures Shaped(cfg, b) && |blocks| <= cfg.z
  {
  }

  function NormalizeAll(blocks: seq<RingBlock>, blockSize: nat): (r: seq<RingBlock>)
    ensures |r| == |blocks|
    ensures forall i :: 0 <= i < |blocks| ==> r[i] == Normalize(blocks[i], blockSize)
  {
    seq(|blocks|, i requires 0 <= i < |blocks| => Normalize(blocks[i], blockSize))
  }

  lemma {:induction false} EmptyFresh(cfg: Config, b: Bucket, permutation: seq<nat>)
    requires |permutation| == cfg.Slots() && IsPermutation(permutation)
    requires b == Bucket(0, seq(cfg.Slots(), _ => true), seq(cfg.z, _ => DUMMY), seq(cfg.z, _ => 0), permutation[..cfg.z],
                         seq(cfg.Slots(), _ => DummyBlock(cfg.blockSize)))
    ensures FreshWith(cfg, b, [])
  {
  }

  class RingBucket {
    const cfg: Config
    var count: nat
    var valids: seq<bool>
    var addrs: seq<nat>
    var leaves: seq<nat>
    var ptrs: seq<nat>
    var data: seq<RingBlock>

    function Value(): Bucket
      reads this
    {
      Bucket(count, valids, addrs, leaves, ptrs, data)
    }

    constructor (cfg: Config)
      ensures this.cfg == cfg && FreshWith(cfg, Value(), [])
    {
      this.cfg := cfg;
      count := 0;
      valids := seq(cfg.Slots(), _ => true);
      addrs := seq(cfg.z, _ => DUMMY);
      leaves := seq(cfg.z, _ => 0);
      ptrs := Iota(cfg.z);
      data := seq(cfg.Slots(), _ => DummyBlock(cfg.blockSize));
    }

    /** Refills the bucket in a fresh random order. */
    method ResetWithBlocks(blocks: seq<RingBlock>) returns (r: Result<()>)
      requires Shaped(cfg, Value())
      modifies this
      ensures r.Success? <==> |blocks| <= cfg.z && forall i :: 0 <= i < |blocks| ==> blocks[i].addr != DUMMY
      ensures r.Success? ==> FreshWith(cfg, Value(), NormalizeAll(blocks, cfg.blockSize))
      ensures r.Failure? ==> r.error == InvalidArgument && unchanged(this)
    {
      hide FreshWith, Normalize;
      if |blocks| > cfg.z { return Failure(InvalidArgument); }
      for i := 0 to |blocks|
        invariant forall j :: 0 <= j < i ==> blocks[j].addr != DUMMY
        invariant unchanged(this)
      {
        if blocks[i].addr == DUMMY { return Failure(InvalidArgument); }
      }
      count := 0;
      valids := seq(cfg.Slots(), _ => true);
      addrs := seq(cfg.z, _ => DUMMY);
      leaves := seq(cfg.z, _ => 0);
      data := seq(cfg.Slots(), _ => DummyBlock(cfg.blockSize));
      var permutation := MakePermutation(cfg.Slots());
      ptrs := permutation[..cfg.z];
      EmptyFresh(cfg, Value(), permutation);
      PlaceBlocks(blocks);
      return Success(());
    }

    method PlaceBlocks(blocks: seq<RingBlock>)
      requires FreshWith(cfg, Value(), []) && |blocks| <= cfg.z
      modifies this
      ensures FreshWith(cfg, Value(), NormalizeAll(blocks, cfg.blockSize))
    {
      FreshShape(cfg, Value(), []);
      hide FreshWith, Normalize;
      for i := 0 to |blocks|
        invariant FreshWith(cfg, Value(), NormalizeAll(blocks[..i], cfg.blockSize))
        invariant Shaped(cfg, Value())
      {
        var block := Normalize(blocks[i], cfg.blockSize);
        FreshStep(cfg, Value(), NormalizeAll(blocks[..i], cfg.blockSize), block);
        assert NormalizeAll(blocks[..i + 1], cfg.blockSize) == NormalizeAll(blocks[..i], cfg.blockSize) + [block];
        var offset := ptrs[i];
        addrs := addrs[i := block.addr];
        leaves := leaves[i := block.leaf];
        data := data[offset := block];
      }
      assert blocks[..|blocks|] == blocks;
    }
  }

  // ----- encrypted buckets -----

  datatype EncryptedField = EncryptedField(iv: seq<byte>, ciphertext: seq<byte>)

  datatype EncryptedRingBucket = EncryptedRingBucket(count: nat, valids: seq<bool>, addrs: seq<EncryptedField>,
                                                     leaves: seq<EncryptedField>, ptrs: seq<EncryptedField>,
                                                     data: seq<EncryptedField>)

  predicate FieldsOfSize(fields: seq<EncryptedField>, size: nat)
  {
    forall i :: 0 <= i < |fields| ==> |fields[i].iv| == IV_SIZE && |fields[i].ciphertext| == size
  }

  /** The number of fields the server checks. */
  predicate EncryptedShape(cfg: Config, e: EncryptedRingBucket)
  {
    && |e.valids| == |e.data| == cfg.Slots()
    && |e.addrs| == |e.leaves| == |e.ptrs| == cfg.z
  }

  predicate EncryptedOk(cfg: Config, e: EncryptedRingBucket)
  {
    && EncryptedShape(cfg, e)
    && FieldsOfSize(e.addrs, 8) && FieldsOfSize(e.leaves, 8) && FieldsOfSize(e.ptrs, 8)
    && FieldsOfSize(e.data, cfg.blockSize)
  }

  function Open(c: Cipher, f: EncryptedField): seq<byte>
  {
    Crypt(c, f.ciphertext, f.iv)
  }

  function OpenNumbers(c: Cipher, fields: seq<EncryptedField>): (v: seq<nat>)
    ensures |v| == |fields|
  {
    seq(|fields|, i requires 0 <= i < |fields| => Decode(Open(c, fields[i])))
  }

  /** Payloads before they are labelled. */
  function OpenData(c: Cipher, fields: seq<EncryptedField>): (d: seq<RingBlock>)
    ensures |d| == |fields|
  {
    seq(|fields|, i requires 0 <= i < |fields| => RingBlock(DUMMY, 0, Open(c, fields[i])))
  }

  /** Labels the slots of the first k entries with their address and leaf. */
  function Labelled(data: seq<RingBlock>, addrs: seq<nat>, leaves: seq<nat>, ptrs: seq<nat>, k: nat): (d: seq<RingBlock>)
    requires k <= |addrs| == |leaves| == |ptrs|
    ensures |d| == |data|
  {
    if k == 0 then data else
      var d := Labelled(data, addrs, leaves, ptrs, k - 1);
      if addrs[k - 1] == DUMMY || ptrs[k - 1] >= |data| then d
      else d[ptrs[k - 1] := d[ptrs[k - 1]].(addr := addrs[k - 1], leaf := leaves[k - 1])]
  }

  function Decrypted(cfg: Config, c: Cipher, e: EncryptedRingBucket): Bucket
    requires EncryptedShape(cfg, e)
  {
    var addrs, leaves, ptrs := OpenNumbers(c, e.addrs), OpenNumbers(c, e.leaves), OpenNumbers(c, e.ptrs);
    Bucket(e.count, e.valids, addrs, leaves, ptrs, Labelled(OpenData(c, e.data), addrs, leaves, ptrs, cfg.z))
  }

  lemma {:induction false} LabelledSlot(cfg: Config, b: Bucket, data: seq<RingBlock>, k: nat, slot: nat)
    requires BucketOk(cfg, b) && k <= cfg.z && |data| == cfg.Slots() && slot < cfg.Slots()
    requires data[slot] == RingBlock(DUMMY, 0, b.data[slot].data)
    ensures Labelled(data, b.addrs, b.leaves, b.ptrs, k)[slot]
         == if exists i :: 0 <= i < k && b.ptrs[i] == slot && b.addrs[i] != DUMMY then b.data[slot] else data[slot]
  {
    if k > 0 {
      LabelledSlot(cfg, b, data, k - 1, slot);
      if b.ptrs[k - 1] == slot {
        assert forall i :: 0 <= i < k - 1 ==> b.ptrs[i] != slot;
      }
    }
  }

  /** Field by field, e holds the encryption of b. */
  ghost predicate Encrypts(cfg: Config, c: Cipher, e: EncryptedRingBucket, b: Bucket)
  {
    && EncryptedOk(cfg, e) && e.count == b.count && e.valids == b.valids
    && OpenNumbers(c, e.addrs) == b.addrs && OpenNumbers(c, e.leaves) == b.leaves && OpenNumbers(c, e.ptrs) == b.ptrs
    && |b.data| == |e.data| && (forall i :: 0 <= i < |e.data| ==> Open(c, e.data[i]) == b.data[i].data)
  }

  /** Decrypting an encrypted bucket gives the bucket back, labels included. */
  lemma {:induction false} DecryptsBack(cfg: Config, c: Cipher, e: EncryptedRingBucket, b: Bucket)
    requires BucketOk(cfg, b) && Encrypts(cfg, c, e, b)
    ensures Decrypted(cfg, c, e) == b
  {
    var data := OpenData(c, e.data);
    forall slot: nat | slot < cfg.Slots()
      ensures Labelled(data, b.addrs, b.leaves, b.ptrs, cfg.z)[slot] == b.data[slot]
    {
      LabelledSlot(cfg, b, data, cfg.z, slot);
      if forall i :: 0 <= i < cfg.z && b.ptrs[i] == slot ==> b.addrs[i] == DUMMY {
        assert Padding(cfg, b, slot);
      }
    }
  }

  lemma {:induction false} LabelledData(data: seq<RingBlock>, addrs: seq<nat>, leaves: seq<nat>, ptrs: seq<nat>,
                                        k: nat, slot: nat)
    requires k <= |addrs| == |leaves| == |ptrs| && slot < |data|
    ensures Labelled(data, addrs, leaves, ptrs, k)[slot].data == data[slot].data
  {
    if k > 0 { LabelledData(data, addrs, leaves, ptrs, k - 1, slot); }
  }

  /** The payload of a slot is what its field decrypts to. */
  lemma {:induction false} SlotPayload(cfg: Config, c: Cipher, e: EncryptedRingBucket, slot: nat)
    requires EncryptedShape(cfg, e) && slot < cfg.Slots()
    ensures Decrypted(cfg, c, e).data[slot].data == Open(c, e.data[slot])
  {
    LabelledData(OpenData(c, e.data), OpenNumbers(c, e.addrs), OpenNumbers(c, e.leaves), OpenNumbers(c, e.ptrs), cfg.z, slot);
  }

  method EncryptBytes(c: Cipher, plaintext: seq<byte>) returns (f: EncryptedField)
    ensures |f.iv| == IV_SIZE && |f.ciphertext| == |plaintext| && Open(c, f) == plaintext
    ensures Masked(c, f.ciphertext, f.iv, plaintext)
  {
    var iv := GenerateIV();
    f := EncryptedField(iv, Crypt(c, plaintext, iv));
    CryptInverts(c, plaintext, iv);
    CryptMasks(c, plaintext, iv);
  }

  /** The field holds the eight bytes of a number, each masked under the field's own vector. */
  ghost predicate HidesNumber(c: Cipher, f: EncryptedField, v: nat)
  {
    && |f.iv| == IV_SIZE && |f.ciphertext| == 8
    && forall k :: 0 <= k < 8 ==> f.ciphertext[k] == XorByte(v / Pow256(k) % 256, c.pad(f.iv, k))
  }

  ghost predicate HidesNumbers(c: Cipher, fields: seq<EncryptedField>, values: seq<nat>)
  {
    |fields| == |values| && forall i :: 0 <= i < |values| ==> HidesNumber(c, fields[i], values[i])
  }

  /** The fields hold the blocks' data, each byte masked under the field's own vector. */
  ghost predicate HidesData(c: Cipher, fields: seq<EncryptedField>, data: seq<RingBlock>, blockSize: nat)
  {
    && |fields| == |data|
    && forall i :: 0 <= i < |data| ==> Masked(c, fields[i].ciphertext, fields[i].iv, Resize(data[i].data, blockSize))
  }

  method EncryptNumbers(c: Cipher, values: seq<nat>) returns (fields: seq<EncryptedField>)
    requires forall i :: 0 <= i < |values| ==> values[i] < UINT64_LIMIT
    ensures FieldsOfSize(fields, 8) && OpenNumbers(c, fields) == values && HidesNumbers(c, fields, values)
  {
    hide Open, HidesNumber;
    fields := [];
    for i := 0 to |values|
      invariant |fields| == i && FieldsOfSize(fields, 8)
      invariant forall j :: 0 <= j < i ==> Decode(Open(c, fields[j])) == values[j] && HidesNumber(c, fields[j], values[j])
    {
      var f := EncryptNumber(c, values[i]);
      fields := fields + [f];
    }
  }

  method EncryptNumber(c: Cipher, v: nat) returns (f: EncryptedField)
    requires v < UINT64_LIMIT
    ensures |f.iv| == IV_SIZE && |f.ciphertext| == 8 && Decode(Open(c, f)) == v && HidesNumber(c, f, v)
  {
    hide Open, Encode, Decode, Pow256, XorByte;
    f := EncryptBytes(c, Encode(v, 8));
    Uint64RoundTrip(v);
    EncodeIsNumber(v);
  }

  method EncryptData(c: Cipher, data: seq<RingBlock>, blockSize: nat) returns (fields: seq<EncryptedField>)
    ensures |fields| == |data| && FieldsOfSize(fields, blockSize)
    ensures forall i :: 0 <= i < |data| ==> Open(c, fields[i]) == Resize(data[i].data, blockSize)
    ensures HidesData(c, fields, data, blockSize)
  {
    hide Open, Masked;
    fields := [];
    for i := 0 to |data|
      invariant |fields| == i && FieldsOfSize(fields, blockSize)
      invariant forall j :: 0 <= j < i ==>
                  && Open(c, fields[j]) == Resize(data[j].data, blockSize)
                  && Masked(c, fields[j].ciphertext, fields[j].iv, Resize(data[j].data, blockSize))
    {
      var f := EncryptBytes(c, Resize(data[i].data, blockSize));
      fields := fields + [f];
    }
  }

  /** Every address, leaf, pointer and block is masked byte by byte under its own vector; decryption gives the
      bucket back. */
  method EncryptBucket(cfg: Config, c: Cipher, b: Bucket) returns (e: EncryptedRingBucket)
    requires cfg.Valid() && BucketOk(cfg, b)
    ensures EncryptedOk(cfg, e) && Decrypted(cfg, c, e) == b
    ensures HidesNumbers(c, e.addrs, b.addrs) && HidesNumbers(c, e.leaves, b.leaves) && HidesNumbers(c, e.ptrs, b.ptrs)
    ensures forall i :: 0 <= i < |b.data| ==> Masked(c, e.data[i].ciphertext, e.data[i].iv, b.data[i].data)
  {
    hide Open, Labelled, OpenNumbers, HidesNumbers, Masked;
    var addrs := EncryptNumbers(c, b.addrs);
    var leaves := EncryptNumbers(c, b.leaves);
    var ptrs := EncryptNumbers(c, b.ptrs);
    var data := EncryptData(c, b.data, cfg.blockSize);
    e := EncryptedRingBucket(b.count, b.valids, addrs, leaves, ptrs, data);
    SameLength(c, e);
    DecryptsBack(cfg, c, e, b);
  }

  lemma {:induction false} SameLength(c: Cipher, e: EncryptedRingBucket)
    ensures |OpenNumbers(c, e.addrs)| == |e.addrs|
    ensures |OpenNumbers(c, e.leaves)| == |e.leaves|
    ensures |OpenNumbers(c, e.ptrs)| == |e.ptrs|
  {
  }
}
