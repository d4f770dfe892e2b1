/** Deserialize: the L2 decoder and the entry point for blobs of every tier. */
module ShardReader {
  import opened Bytes
  import opened Records
  import opened RecordDecoder
  import opened WireFormat
  import opened Images
  import opened BlockDevice
  import opened Erasure
  import opened Geometry
  import opened Shards
  import opened ShardedFormat
  import opened Codec
  import opened Deserializer

  /** Sorts the strides of a section into shard slots and counts the slots left empty. */
  method ParseShardSection(sect: seq<byte>, total: nat, size: nat) returns (slots: seq<ShardSlot>, missing: nat)
    ensures slots == ParseSection(sect, total, size) && missing == Missing(slots)
  {
    hide Place, Missing, StrideOk;
    var stride := SHARD_HEADER_SIZE + size;
    ghost var ts := StridesOf(sect, size);
    slots := seq(total, _ => None);
    var off := 0;
    var i := 0;
    DivBound(|sect|, stride);
    while i < |sect| / stride
      invariant 0 <= i <= |ts| == |sect| / stride && off == i * stride
      invariant slots == PlaceAll(ts[..i], total)
    {
      StrideSlice(sect, size, i);
      slots := Place(slots, sect[off..off + stride]);
      assert ts[..i + 1][..i] == ts[..i];
      off := off + stride;
      i := i + 1;
    }
    assert ts[..i] == ts;
    missing := CountMissing(slots);
  }

  lemma StrideSlice(sect: seq<byte>, size: nat, i: nat)
    requires i < |StridesOf(sect, size)|
    ensures var stride := SHARD_HEADER_SIZE + size;
            |StridesOf(sect, size)| == |sect| / stride &&
            i * stride + stride == (i + 1) * stride <= |sect| &&
            StridesOf(sect, size)[i] == sect[i * stride..i * stride + stride]
  {
    var stride := SHARD_HEADER_SIZE + size;
    DivBound(|sect|, stride);
    MulLess(i + 1, |sect| / stride, stride);
    assert (i + 1) * stride == i * stride + stride;
  }

  method CountMissing(slots: seq<ShardSlot>) returns (missing: nat)
    ensures missing == Missing(slots)
  {
    missing := 0;
    for i := 0 to |slots|
      invariant missing == Missing(slots[..i])
    {
      assert slots[..i + 1][..i] == slots[..i];
      if slots[i].None? {
        missing := missing + 1;
      }
    }
    assert slots[..|slots|] == slots;
  }

  /** Copies a payload span out of the intact data shards; false if some covering shard is lost. */
  method ReadShardSpan(slots: seq<ShardSlot>, n: nat, size: nat, dst: array<byte>, off: nat) returns (ok: bool)
    requires size > 0 && n <= |slots| && SlotsEqual(slots, size)
    modifies dst
    ensures ok == SpanIntact(slots, n, size, off, dst.Length)
    ensures ok ==> dst[..] == Span(slots, n, size, off, dst.Length)
  {
    var done := 0;
    while done < dst.Length
      invariant 0 <= done <= dst.Length && SpanIntact(slots, n, size, off, done)
      invariant dst[..done] == Span(slots, n, size, off, done)
    {
      var si, r := (off + done) / size, (off + done) % size;
      if si >= n || slots[si].None? {
        assert !Covered(slots, n, size, off + done);
        return false;
      }
      var c := Min(size - r, dst.Length - done);
      var part := slots[si].value[r..r + c];
      SpanGrows(slots, n, size, off, done, si, r, c);
      ghost var was := dst[..];
      CopyInto(dst, done, part);
      assert dst[..done + c] == was[..done] + part;
      done := done + c;
    }
    assert dst[..done] == dst[..];
    return true;
  }

  lemma SameShard(size: nat, off: nat, d: nat)
    requires size > 0 && off % size + d < size
    ensures (off + d) / size == off / size && (off + d) % size == off % size + d
  {
    assert off == off / size * size + off % size;
    DivModUnique(off + d, size, off / size, off % size + d);
  }

  lemma ByteInShard(slots: seq<ShardSlot>, n: nat, size: nat, at: nat, j: nat)
    requires size > 0 && n <= |slots| && SlotsEqual(slots, size)
    requires Covered(slots, n, size, at) && at <= j && at % size + (j - at) < size
    ensures Covered(slots, n, size, j)
    ensures ByteAt(slots, n, size, j) == slots[at / size].value[at % size + (j - at)]
  {
    SameShard(size, at, j - at);
  }

  /** The rest of a shard extends an intact span. */
  lemma SpanGrows(slots: seq<ShardSlot>, n: nat, size: nat, off: nat, done: nat, si: nat, r: nat, c: nat)
    requires size > 0 && n <= |slots| && SlotsEqual(slots, size) && SpanIntact(slots, n, size, off, done)
    requires si == (off + done) / size && r == (off + done) % size && r + c <= size
    requires si < n && slots[si].Some? && |slots[si].value| == size
    ensures SpanIntact(slots, n, size, off, done + c)
    ensures Span(slots, n, size, off, done + c) == Span(slots, n, size, off, done) + slots[si].value[r..r + c]
  {
    assert Covered(slots, n, size, off + done);
    hide ByteAt, Covered, SlotsEqual;
    forall j | off <= j < off + done + c ensures Covered(slots, n, size, j) {
      if j >= off + done {
        ByteInShard(slots, n, size, off + done, j);
      }
    }
    SpanBytes(slots, n, size, off, done, si, r, c);
  }

  lemma SpanBytes(slots: seq<ShardSlot>, n: nat, size: nat, off: nat, done: nat, si: nat, r: nat, c: nat)
    requires size > 0 && n <= |slots| && SlotsEqual(slots, size)
    requires SpanIntact(slots, n, size, off, done) && SpanIntact(slots, n, size, off, done + c)
    requires si == (off + done) / size && r == (off + done) % size && r + c <= size
    requires si < n && slots[si].Some? && |slots[si].value| == size
    ensures Span(slots, n, size, off, done + c) == Span(slots, n, size, off, done) + slots[si].value[r..r + c]
  {
    assert Covered(slots, n, size, off + done);
    hide ByteAt, Covered, SlotsEqual, SpanIntact;
    var part := slots[si].value[r..r + c];
    var a, b := Span(slots, n, size, off, done + c), Span(slots, n, size, off, done) + part;
    forall i | 0 <= i < done + c ensures a[i] == b[i] {
      if i >= done {
        ByteInShard(slots, n, size, off + done, off + i);
        assert part[i - done] == slots[si].value[r + (i - done)];
      }
    }
  }

  // ----- salvage

  /** Reads one record through the shards that are left. */
  method ReadSalvageSlot(slots: seq<ShardSlot>, n: nat, size: nat, off: nat) returns (s: Slot)
    requires size > 0 && n <= |slots| && SlotsEqual(slots, size)
    ensures s == SalvageSlot(slots, n, size, off)
  {
    hide SpanIntact, Span, Parse, ReadIndex, SlotsEqual;
    var rec := new byte[L1_RECORD_SIZE];
    var whole := ReadShardSpan(slots, n, size, rec, off);
    if whole {
      return Parse(rec[..], true);
    }
    var idxBuf := new byte[8];
    var readable := ReadShardSpan(slots, n, size, idxBuf, off);
    if readable {
      return Cut(ReadIndex(idxBuf[..]));
    }
    return Gone;
  }

  /** Applies whatever records survive when the code cannot repair the shards. */
  method RsSalvage(slots: seq<ShardSlot>, n: nat, size: nat, payloadLen: nat, base: array<byte>)
    returns (dev: Device, err: Option<Error>)
    requires size > 0 && n <= |slots| && SlotsEqual(slots, size)
    requires Aligned(base.Length) && base.Length < TWO_TO_THE_63
    ensures fresh(dev) && dev.Valid() && dev.base == base && fresh(dev.Buffers())
    ensures Accept(dev.Contents(), err) == Conclude(SalvageSlots(slots, n, size, payloadLen), dev.Blocks())
  {
    hide SalvageSlot, SlotsEqual, Applied, SkippedIn, CutsIn, AnyFlags, Flags, Settlement, Conclude, Device.Valid;
    dev := new Device(base);
    ghost var all, blocks := SalvageSlots(slots, n, size, payloadLen), dev.Blocks();
    var named: seq<int>, skipped: seq<SkippedRec>, unattributed := [], [], false;
    NoSlots(dev, all);
    TailNotes(Gone, blocks);
    assert all[..0] == [];
    var count := WholeRecords(true, payloadLen);
    for i := 0 to count
      invariant dev.Valid() && fresh(dev.Buffers()) && dev.Contents() == Applied(all[..i], blocks)
      invariant skipped == SkippedIn(all[..i]) && named == CutsIn(all[..i], blocks)
      invariant unattributed == AnyFlags(all[..i], blocks)
    {
      var s := ReadSalvageSlot(slots, n, size, Offset(true, i));
      assert s == all[i];
      SlotSnoc(all, i, blocks);
      skipped, named, unattributed := Account(dev, s, skipped, named, unattributed);
    }
    assert all[..count] == all;
    Settled(all, blocks);
    err := Settle(dev, named, skipped, unattributed);
  }

  /** What one salvaged record adds to the overlay and the accounts. */
  method Account(dev: Device, s: Slot, skipped: seq<SkippedRec>, named: seq<int>, unattributed: bool)
    returns (skipped': seq<SkippedRec>, named': seq<int>, unattributed': bool)
    requires dev.Valid() && (s.Whole? ==> |s.data| == BLOCK_SIZE)
    modifies dev`dirty
    ensures dev.Valid() && fresh(dev.Buffers() - old(dev.Buffers()))
    ensures dev.Contents() ==
              if Usable(s, dev.Blocks()) then old(dev.Contents())[s.idx := s.data] else old(dev.Contents())
    ensures skipped' == skipped + if s.Whole? && !s.ok then [SkippedRec(s.idx, s.data)] else []
    ensures named' == named + if s.Cut? && InRange(s.idx, dev.Blocks()) then [s.idx] else []
    ensures unattributed' == (unattributed || Flags(s, dev.Blocks()))
  {
    hide Device.Valid;
    skipped', named', unattributed' := skipped, named, unattributed;
    match s
    case Whole(idx, data, ok) =>
      if !ok {
        skipped' := skipped + [SkippedRec(idx, data)];
      } else if 0 <= idx < dev.Blocks() {
        dev.Store(idx, data);
      } else {
        unattributed' := true;
      }
    case Cut(idx) =>
      if 0 <= idx < dev.Blocks() {
        named' := named + [idx];
      } else {
        unattributed' := true;
      }
    case Gone =>
      unattributed' := true;
  }

  // ----- deserializing

  /** Decodes an L2 body: repair the shards if enough are left, else salvage record by record. */
  method DeserializeRS(code: ErasureCode, body: seq<byte>, count: nat, base: array<byte>)
    returns (dev: Device?, err: Option<Error>)
    requires WellShaped(code) && Aligned(base.Length) && base.Length < TWO_TO_THE_63
    ensures Returned(dev, err, DecodeRs(code, body, count, base.Length / BLOCK_SIZE), base)
    ensures dev != null ==> fresh(dev) && fresh(dev.Buffers())
  {
    hide ParseMeta, Admissible, ParseSection, DecodeRecords, SalvageSlots, Conclude, SlotsEqual, Device.Valid,
      Device.Contents,
      Missing, Flatten;
    var parsed := ParseMeta(body, count);
    if parsed.None? {
      return null, Some(Corrupt);
    }
    var g := parsed.value;
    AdmissibleShape(g, count, |body|);
    if g.payloadLen == 0 {
      dev, err := ApplyRecords([], true, count, base);
      return;
    }
    var slots, missing := ParseShardSection(body[META_SIZE..], g.n + g.k, g.size);
    SectionEqual(body[META_SIZE..], g.n + g.k, g.size);
    if missing <= g.k {
      if !code.init(g.n, g.k) {
        return null, Some(Corrupt);
      }
      var data := code.reconstruct(slots, g.n);
      if data.Some? {
        FlattenLength(data.value, g.size);
        var payload := Flatten(data.value);
        dev, err := ApplyRecords(payload[..g.payloadLen], true, count, base);
        return;
      }
    }
    dev, err := RsSalvage(slots, g.n, g.size, g.payloadLen, base);
  }

  /**
   * Rebuilds a device from a base and any bytes whatsoever. The device returned, if any, is valid: its
   * blocks own disjoint windows of new buffers, apart from the base.
   */
  method Deserialize(code: ErasureCode, blob: seq<byte>, base: array<byte>) returns (dev: Device?, err: Option<Error>)
    requires WellShaped(code) && base.Length < TWO_TO_THE_63
    ensures Returned(dev, err, Decode(code, blob, base.Length), base)
    ensures dev != null ==> fresh(dev) && fresh(dev.Buffers())
  {
    hide DecodeHeaderless, DecodeRecords, DecodeRs, HeaderVerifies, BlockCount, Device.Valid, Device.Contents;
    if !Aligned(base.Length) || |blob| < HEADER_SIZE || !Recognized(blob) {
      return null, Some(Corrupt);
    }
    var body := blob[HEADER_SIZE..];
    if !HeaderVerifies(blob) {
      if blob[5] == TIER_L1 || blob[5] > TIER_L2 {
        dev, err := DeserializeHeaderless(body, base);
        return;
      }
      return null, Some(Corrupt);
    }
    if blob[5] == TIER_L0 || blob[5] == TIER_L1 {
      dev, err := ApplyRecords(body, blob[5] == TIER_L1, BlockCount(blob), base);
    } else if blob[5] == TIER_L2 {
      dev, err := DeserializeRS(code, body, BlockCount(blob), base);
    } else {
      dev, err := null, Some(UnsupportedTier);
    }
  }
}
