/** SerializeRS: L1 records written straight into the shard slots of the blob. */
module ShardWriter {
  import opened Bytes
  import opened Crc32
  import opened Records
  import opened RecordDecoder
  import opened WireFormat
  import opened Images
  import opened BlockDevice
  import opened Erasure
  import opened Geometry
  import opened Shards
  import opened ShardedFormat
  import opened Serializer

  // ----- shard slots in the blob

  const SECTION_START := 38  // outer header (18) | rsMeta (20)

  /** Where the data of shard `i` starts. */
  function SlotStart(size: nat, i: nat): nat {
    SECTION_START + i * (SHARD_HEADER_SIZE + size) + SHARD_HEADER_SIZE
  }

  /** The blob has room for `count` shards. */
  predicate Room(len: nat, size: nat, count: nat) {
    SECTION_START + count * (SHARD_HEADER_SIZE + size) <= len
  }

  lemma SlotOrder(size: nat, i: nat, j: nat)
    ensures i < j ==> SlotStart(size, i) + size + SHARD_HEADER_SIZE <= SlotStart(size, j)
  {
    MulMonotone(i + 1, j, SHARD_HEADER_SIZE + size);
    assert (i + 1) * (SHARD_HEADER_SIZE + size) == i * (SHARD_HEADER_SIZE + size) + SHARD_HEADER_SIZE + size;
  }

  lemma SlotRoom(len: nat, size: nat, count: nat, i: nat)
    requires Room(len, size, count) && i < count
    ensures SlotStart(size, i) + size <= len
  {
    SlotOrder(size, i, count);
  }

  function SlotData(b: seq<byte>, size: nat, i: nat): (s: Shard)
    requires SlotStart(size, i) + size <= |b|
    ensures |s| == size
  {
    b[SlotStart(size, i)..SlotStart(size, i) + size]
  }

  /** The first `count` shards as they stand in the blob. */
  function ShardData(b: seq<byte>, size: nat, count: nat): (s: seq<Shard>)
    requires Room(|b|, size, count)
    ensures |s| == count && Equal(s, size)
  {
    seq(count, i requires 0 <= i < count => SlotRoom(|b|, size, count, i); SlotData(b, size, i))
  }

  /** The first `count` shards as one stretch of bytes. */
  function View(b: seq<byte>, size: nat, count: nat): (v: seq<byte>)
    requires Room(|b|, size, count)
    ensures |v| == count * size
  {
    FlattenLength(ShardData(b, size, count), size);
    Flatten(ShardData(b, size, count))
  }

  lemma SlotIs(b: seq<byte>, size: nat, count: nat, i: nat)
    requires Room(|b|, size, count) && i < count
    ensures SlotStart(size, i) + size <= |b| && ShardData(b, size, count)[i] == SlotData(b, size, i)
  {
    SlotRoom(|b|, size, count, i);
  }

  lemma SlotAfterWrite(b: seq<byte>, size: nat, q: nat, r: nat, s: seq<byte>, i: nat)
    requires SlotStart(size, q) + size <= |b| && SlotStart(size, i) + size <= |b| && r + |s| <= size
    ensures var c := Splice(b, SlotStart(size, q) + r, s);
            SlotData(c, size, i) == if i == q then Splice(SlotData(b, size, q), r, s) else SlotData(b, size, i)
  {
    hide SlotStart, Splice;
    SlotOrder(size, i, q);
    SlotOrder(size, q, i);
    if i == q {
      SpliceWindow(b, SlotStart(size, q), size, r, s);
    } else {
      SpliceOutside(b, SlotStart(size, q) + r, s, SlotStart(size, i), size);
    }
  }

  lemma WriteInSlot(b: seq<byte>, size: nat, count: nat, q: nat, r: nat, s: seq<byte>)
    requires Room(|b|, size, count) && q < count && r + |s| <= size
    ensures SlotStart(size, q) + size <= |b|
    ensures ShardData(Splice(b, SlotStart(size, q) + r, s), size, count)
         == ShardData(b, size, count)[q := Splice(SlotData(b, size, q), r, s)]
  {
    hide SlotData, ShardData, SlotStart, Splice, Room;
    SlotRoom(|b|, size, count, q);
    var c := Splice(b, SlotStart(size, q) + r, s);
    var before, after := ShardData(b, size, count), ShardData(c, size, count);
    forall i | 0 <= i < count ensures after[i] == before[q := Splice(SlotData(b, size, q), r, s)][i] {
      SlotIs(b, size, count, i);
      SlotIs(c, size, count, i);
      SlotAfterWrite(b, size, q, r, s, i);
    }
  }

  lemma HeadUntouched(b: seq<byte>, lo: nat, s: seq<byte>)
    requires SECTION_START <= lo && lo + |s| <= |b|
    ensures Splice(b, lo, s)[..SECTION_START] == b[..SECTION_START]
  {
  }

  lemma FlattenSnoc(xs: seq<seq<byte>>, x: seq<byte>)
    ensures Flatten(xs + [x]) == Flatten(xs) + x
  {
    assert (xs + [x])[..|xs|] == xs;
  }

  lemma {:induction false} FlattenUpdate(xs: seq<seq<byte>>, size: nat, q: nat, r: nat, s: seq<byte>)
    requires Equal(xs, size) && q < |xs| && r + |s| <= size
    ensures q * size + r + |s| <= |Flatten(xs)|
    ensures Flatten(xs[q := Splice(xs[q], r, s)]) == Splice(Flatten(xs), q * size + r, s)
  {
    hide Splice, Flatten;
    var init, last := xs[..|xs| - 1], xs[|xs| - 1];
    FlattenLength(init, size);
    assert xs == init + [last];
    FlattenSnoc(init, last);
    if q < |init| {
      FlattenUpdate(init, size, q, r, s);
      var t := init[q := Splice(init[q], r, s)];
      assert xs[q := Splice(xs[q], r, s)] == t + [last];
      FlattenSnoc(t, last);
      SpliceFront(Flatten(init), last, q * size + r, s);
    } else {
      var t := Splice(last, r, s);
      assert xs[q := t] == init + [t];
      FlattenSnoc(init, t);
      SpliceBack(Flatten(init), last, r, s);
    }
  }

  lemma SpliceFront(a: seq<byte>, b: seq<byte>, lo: nat, s: seq<byte>)
    requires lo + |s| <= |a|
    ensures Splice(a + b, lo, s) == Splice(a, lo, s) + b
  {
  }

  lemma SpliceBack(a: seq<byte>, b: seq<byte>, lo: nat, s: seq<byte>)
    requires lo + |s| <= |b|
    ensures Splice(a + b, |a| + lo, s) == a + Splice(b, lo, s)
  {
  }

  /** One copy into a shard is a splice of the view. */
  lemma WriteInView(b: seq<byte>, size: nat, count: nat, off: nat, q: nat, r: nat, s: seq<byte>)
    requires Room(|b|, size, count) && size > 0 && off < count * size
    requires q == off / size && r == off % size && r + |s| <= size
    ensures q < count && SlotStart(size, q) + size <= |b| && off + |s| <= count * size
    ensures var c := Splice(b, SlotStart(size, q) + r, s);
            View(c, size, count) == Splice(View(b, size, count), off, s) &&
            c[..SECTION_START] == b[..SECTION_START]
  {
    hide View, SlotStart, Splice, Room;
    Locate(off, count, size);
    RowEnd(q, count, size);
    CopyInView(b, size, count, off, q, r, s);
  }

  lemma CopyInView(b: seq<byte>, size: nat, count: nat, off: nat, q: nat, r: nat, s: seq<byte>)
    requires Room(|b|, size, count) && q < count && r + |s| <= size
    requires off == q * size + r && off + |s| <= count * size
    ensures SlotStart(size, q) + size <= |b|
    ensures var c := Splice(b, SlotStart(size, q) + r, s);
            View(c, size, count) == Splice(View(b, size, count), off, s) &&
            c[..SECTION_START] == b[..SECTION_START]
  {
    hide ShardData, SlotData, SlotStart, Splice, Room, Flatten;
    WriteInSlot(b, size, count, q, r, s);
    SlotPastHead(size, q);
    HeadUntouched(b, SlotStart(size, q) + r, s);
    FlattenUpdate(ShardData(b, size, count), size, q, r, s);
    SlotIs(b, size, count, q);
  }

  lemma RowEnd(q: nat, count: nat, size: nat)
    requires q < count
    ensures q * size + size <= count * size
  {
    MulMonotone(q + 1, count, size);
  }

  lemma SlotPastHead(size: nat, i: nat)
    ensures SlotStart(size, i) >= SECTION_START
  {
  }

  // ----- writing across shard boundaries

  /** Copies as much of `src` as fits before the next shard boundary. */
  method WriteSpan(b: array<byte>, size: nat, count: nat, off: nat, src: seq<byte>) returns (n: nat)
    requires size > 0 && Room(b.Length, size, count) && off + |src| <= count * size && src != []
    modifies b
    ensures 0 < n <= |src|
    ensures View(b[..], size, count) == Splice(old(View(b[..], size, count)), off, src[..n])
    ensures b[..][..SECTION_START] == old(b[..][..SECTION_START])
  {
    hide View, SlotStart, Splice, Room;
    RoomHead(b.Length, size, count);
    var q, r := off / size, off % size;
    n := Min(size - r, |src|);
    WriteInView(b[..], size, count, off, q, r, src[..n]);
    CopyInto(b, SlotStart(size, q) + r, src[..n]);
  }

  /** Copies `src` into the data shards at payload offset `off`, splitting at shard boundaries. */
  method WriteShardSpans(b: array<byte>, size: nat, count: nat, off: nat, src: seq<byte>) returns (end: nat)
    requires size > 0 && Room(b.Length, size, count) && off + |src| <= count * size
    modifies b
    ensures end == off + |src|
    ensures View(b[..], size, count) == Splice(old(View(b[..], size, count)), off, src)
    ensures b[..SECTION_START] == old(b[..SECTION_START])
  {
    hide View, Splice, Room;
    RoomHead(b.Length, size, count);
    ghost var was, head := View(b[..], size, count), b[..][..SECTION_START];
    var done := 0;
    SpliceNothing(was, off, src[..0]);
    while done < |src|
      invariant 0 <= done <= |src| && b[..][..SECTION_START] == head
      invariant View(b[..], size, count) == Splice(was, off, src[..done])
    {
      var n := WriteSpan(b, size, count, off + done, src[done..]);
      SpliceTwice(was, off, src[..done], src[done..][..n]);
      assert src[..done] + src[done..][..n] == src[..done + n];
      done := done + n;
    }
    end := off + done;
    assert src[..done] == src;
    assert b[..SECTION_START] == b[..][..SECTION_START];
  }

  lemma RoomHead(len: nat, size: nat, count: nat)
    requires Room(len, size, count)
    ensures SECTION_START <= len
  {
  }

  /** Writes one L1 record; the CRC is carried from the index to the block, never over the shards. */
  method WriteRecordSharded(dev: Device, b: array<byte>, size: nat, count: nat, off: nat, idx: int) returns (end: nat)
    requires dev.Valid() && b !in dev.Buffers() && idx in dev.dirty
    requires size > 0 && Room(b.Length, size, count) && off + L1_RECORD_SIZE <= count * size
    modifies b
    ensures end == off + L1_RECORD_SIZE
    ensures View(b[..], size, count)
         == Splice(old(View(b[..], size, count)), off, Encode(idx, dev.Contents()[idx], true))
    ensures b[..SECTION_START] == old(b[..SECTION_START])
  {
    hide View, Splice, Device.Valid, LE, Checksum, Update;
    ghost var was := View(b[..], size, count);
    var hdr := LE(dev.DirtyIndex(idx), 8);
    var block := dev.Dirty(idx);
    var crc := Update(Checksum(hdr), block);
    Incremental(hdr, block);
    var tail := LE(Unsigned(crc), 4);
    end := WriteShardSpans(b, size, count, off, hdr);
    end := WriteShardSpans(b, size, count, end, block);
    SpliceTwice(was, off, hdr, block);
    end := WriteShardSpans(b, size, count, end, tail);
    SpliceTwice(was, off, hdr + block, tail);
  }

  /** Serializes `idxs` as L1 records into the data shards from payload offset `off` on. */
  method WriteRecordRangeSharded(dev: Device, b: array<byte>, size: nat, count: nat, off: nat, idxs: seq<int>)
    requires dev.Valid() && b !in dev.Buffers() && Holds(dev.Contents(), idxs)
    requires size > 0 && Room(b.Length, size, count) && off + Offset(true, |idxs|) <= count * size
    modifies b
    ensures View(b[..], size, count)
         == Splice(old(View(b[..], size, count)), off, Flat(dev.Contents(), idxs, true))
    ensures b[..SECTION_START] == old(b[..SECTION_START])
  {
    hide View, Splice, Flat, Device.Valid, Device.Contents, Encode;
    ghost var was, m, head := View(b[..], size, count), dev.Contents(), b[..SECTION_START];
    var end := off;
    SpliceNothing(was, off, Flat(m, idxs[..0], true));
    for i := 0 to |idxs|
      invariant end == off + Offset(true, i) && dev.Contents() == m && b[..SECTION_START] == head
      invariant View(b[..], size, count) == Splice(was, off, Flat(m, idxs[..i], true))
    {
      end := WriteRecordSharded(dev, b, size, count, end, idxs[i]);
      FlatSnoc(m, idxs, true, i);
      SpliceTwice(was, off, Flat(m, idxs[..i], true), Encode(idxs[i], m[idxs[i]], true));
    }
    assert idxs[..|idxs|] == idxs;
  }

  /** The fan-out into the shards, worker after worker. */
  method WriteRecordsSharded(dev: Device, b: array<byte>, size: nat, count: nat, idxs: seq<int>, procs: nat)
    requires dev.Valid() && b !in dev.Buffers() && Holds(dev.Contents(), idxs)
    requires size > 0 && Room(b.Length, size, count) && Offset(true, |idxs|) <= count * size
    modifies b
    ensures View(b[..], size, count) == Splice(old(View(b[..], size, count)), 0, Flat(dev.Contents(), idxs, true))
    ensures b[..SECTION_START] == old(b[..SECTION_START])
  {
    hide View, Splice, Device.Valid, Device.Contents, Flat, ChunkSize;
    var workers := Workers(procs, |idxs|);
    if workers <= 1 {
      WriteRecordRangeSharded(dev, b, size, count, 0, idxs);
      return;
    }
    ghost var was, m, head := View(b[..], size, count), dev.Contents(), b[..SECTION_START];
    var chunk := ChunkSize(|idxs|, workers);
    var lo := 0;
    SpliceNothing(was, 0, Flat(m, idxs[..0], true));
    while lo < |idxs|
      invariant 0 <= lo <= |idxs| && dev.Contents() == m && b[..SECTION_START] == head
      invariant View(b[..], size, count) == Splice(was, 0, Flat(m, idxs[..lo], true))
    {
      var hi := Min(lo + chunk, |idxs|);
      WriteRecordRangeSharded(dev, b, size, count, Offset(true, lo), idxs[lo..hi]);
      FlatConcat(m, idxs[..lo], idxs[lo..hi], true);
      assert idxs[..lo] + idxs[lo..hi] == idxs[..hi];
      SpliceTwice(was, 0, Flat(m, idxs[..lo], true), Flat(m, idxs[lo..hi], true));
      lo := hi;
    }
    assert idxs[..lo] == idxs;
  }

  // ----- parity and shard headers

  lemma ShardDataPrefix(b: seq<byte>, size: nat, count: nat, n: nat)
    requires Room(|b|, size, count) && n <= count
    ensures Room(|b|, size, n) && ShardData(b, size, n) == ShardData(b, size, count)[..n]
  {
    MulLess(n, count, SHARD_HEADER_SIZE + size);
  }

  lemma WholeShard(b: seq<byte>, size: nat, count: nat, i: nat, s: Shard)
    requires Room(|b|, size, count) && i < count && |s| == size
    ensures SlotStart(size, i) + size <= |b|
    ensures var c := Splice(b, SlotStart(size, i), s);
            ShardData(c, size, count) == ShardData(b, size, count)[i := s] &&
            c[..SECTION_START] == b[..SECTION_START]
  {
    hide ShardData, SlotData, SlotStart;
    WriteInSlot(b, size, count, i, 0, s);
    SlotPastHead(size, i);
    HeadUntouched(b, SlotStart(size, i), s);
    assert Splice(SlotData(b, size, i), 0, s) == s;
  }

  /** Puts the parity shards into the slots after the data shards. */
  method WriteParity(b: array<byte>, size: nat, n: nat, parity: seq<Shard>)
    requires Room(b.Length, size, n + |parity|) && Equal(parity, size)
    modifies b
    ensures ShardData(b[..], size, n + |parity|) == old(ShardData(b[..], size, n + |parity|)[..n]) + parity
    ensures b[..SECTION_START] == old(b[..SECTION_START])
  {
    hide ShardData, SlotStart, Splice, Room;
    var total := n + |parity|;
    RoomHead(b.Length, size, total);
    ghost var data, head := ShardData(b[..], size, total)[..n], b[..SECTION_START];
    for i := 0 to |parity|
      invariant ShardData(b[..], size, total)[..n + i] == data + parity[..i] && b[..SECTION_START] == head
    {
      WholeShard(b[..], size, total, n + i, parity[i]);
      ghost var d := ShardData(b[..], size, total);
      CopyInto(b, SlotStart(size, n + i), parity[i]);
      assert d[n + i := parity[i]][..n + i + 1] == d[..n + i] + [parity[i]];
      assert parity[..i + 1] == parity[..i] + [parity[i]];
      assert b[..SECTION_START] == b[..][..SECTION_START];
    }
    assert ShardData(b[..], size, total) == ShardData(b[..], size, total)[..total];
    assert parity[..|parity|] == parity;
  }

  /** The stride of shard `i` as it stands in the blob. */
  function StrideAt(b: seq<byte>, size: nat, i: nat): seq<byte>
    requires SlotStart(size, i) + size <= |b|
  {
    b[SlotStart(size, i) - SHARD_HEADER_SIZE..SlotStart(size, i) + size]
  }

  lemma HeaderWritten(b: seq<byte>, size: nat, i: nat, hdr: seq<byte>)
    requires SlotStart(size, i) + size <= |b| && |hdr| == SHARD_HEADER_SIZE
    ensures SlotStart(size, i) >= SHARD_HEADER_SIZE
    ensures var c := Splice(b, SlotStart(size, i) - SHARD_HEADER_SIZE, hdr);
            StrideAt(c, size, i) == hdr + SlotData(b, size, i) &&
            c[..SECTION_START] == b[..SECTION_START]
  {
    hide SlotStart;
    SlotPastHeader(size, i);
    HeadUntouched(b, SlotStart(size, i) - SHARD_HEADER_SIZE, hdr);
  }

  lemma HeaderKeepsSlot(b: seq<byte>, size: nat, i: nat, hdr: seq<byte>, j: nat)
    requires SlotStart(size, i) + size <= |b| && SlotStart(size, j) + size <= |b| && |hdr| == SHARD_HEADER_SIZE
    ensures SlotStart(size, i) >= SHARD_HEADER_SIZE
    ensures var c := Splice(b, SlotStart(size, i) - SHARD_HEADER_SIZE, hdr);
            SlotData(c, size, j) == SlotData(b, size, j) &&
            (j < i ==> StrideAt(c, size, j) == StrideAt(b, size, j))
  {
    hide SlotStart, Splice;
    SlotPastHeader(size, i);
    SlotPastHeader(size, j);
    SlotOrder(size, i, j);
    SlotOrder(size, j, i);
    var lo := SlotStart(size, i) - SHARD_HEADER_SIZE;
    SpliceOutside(b, lo, hdr, SlotStart(size, j), size);
    if j < i {
      SpliceOutside(b, lo, hdr, SlotStart(size, j) - SHARD_HEADER_SIZE, SHARD_HEADER_SIZE + size);
    }
  }

  lemma SlotPastHeader(size: nat, i: nat)
    ensures SlotStart(size, i) >= SECTION_START + SHARD_HEADER_SIZE
  {
  }

  ghost predicate StridesDone(b: seq<byte>, size: nat, shards: seq<Shard>, i: nat)
    requires Room(|b|, size, |shards|) && i <= |shards| && Equal(shards, size)
  {
    ShardData(b, size, |shards|) == shards &&
    forall j :: 0 <= j < i ==> SlotStart(size, j) + size <= |b| && StrideAt(b, size, j) == Stride(j, shards[j])
  }

  lemma HeaderStep(b: seq<byte>, size: nat, shards: seq<Shard>, i: nat)
    requires Room(|b|, size, |shards|) && i < |shards| && Equal(shards, size) && StridesDone(b, size, shards, i)
    ensures SlotStart(size, i) + size <= |b| && SlotData(b, size, i) == shards[i]
    ensures SlotStart(size, i) >= SHARD_HEADER_SIZE && |b| >= SECTION_START
    ensures var c := Splice(b, SlotStart(size, i) - SHARD_HEADER_SIZE, StrideHeader(i, shards[i]));
            c[..SECTION_START] == b[..SECTION_START] && StridesDone(c, size, shards, i + 1)
  {
    hide SlotStart, SlotData, StrideAt, Splice, StrideHeader;
    RoomHead(|b|, size, |shards|);
    SlotPastHeader(size, i);
    SlotIs(b, size, |shards|, i);
    var hdr := StrideHeader(i, shards[i]);
    HeaderWritten(b, size, i, hdr);
    var c := Splice(b, SlotStart(size, i) - SHARD_HEADER_SIZE, hdr);
    forall j | 0 <= j < |shards|
      ensures ShardData(c, size, |shards|)[j] == shards[j]
      ensures SlotStart(size, j) + size <= |b| && (j < i ==> StrideAt(c, size, j) == StrideAt(b, size, j))
    {
      SlotIs(b, size, |shards|, j);
      SlotIs(c, size, |shards|, j);
      HeaderKeepsSlot(b, size, i, hdr, j);
    }
    assert ShardData(c, size, |shards|) == shards;
  }

  /** Writes index and CRC in front of every shard. */
  method WriteShardHeaders(b: array<byte>, size: nat, ghost shards: seq<Shard>, total: nat)
    requires Room(b.Length, size, total) && total == |shards| && Equal(shards, size) &&
             ShardData(b[..], size, total) == shards
    modifies b
    ensures StridesDone(b[..], size, shards, total)
    ensures b[..SECTION_START] == old(b[..SECTION_START])
  {
    hide ShardData, SlotStart, Splice, Room, LE, Sum;
    RoomHead(b.Length, size, total);
    ghost var head := b[..SECTION_START];
    for i := 0 to total
      invariant StridesDone(b[..], size, shards, i) && b[..SECTION_START] == head
    {
      HeaderStep(b[..], size, shards, i);
      SlotPastHeader(size, i);
      var shard := b[SlotStart(size, i)..SlotStart(size, i) + size];
      assert shard == SlotData(b[..], size, i);
      CopyInto(b, SlotStart(size, i) - SHARD_HEADER_SIZE, StrideHeader(i, shard));
      assert b[..SECTION_START] == b[..][..SECTION_START];
    }
  }

  lemma PieceIsStride(b: seq<byte>, size: nat, count: nat, i: nat)
    requires |b| == SECTION_START + count * (SHARD_HEADER_SIZE + size) && i < count
    ensures SlotStart(size, i) + size <= |b| && (i + 1) * (SHARD_HEADER_SIZE + size) <= |b[SECTION_START..]|
    ensures Piece(b[SECTION_START..], SHARD_HEADER_SIZE + size, i) == StrideAt(b, size, i)
  {
    var stride := SHARD_HEADER_SIZE + size;
    MulLess(i + 1, count, stride);
    assert (i + 1) * stride == i * stride + stride;
    SliceShift(b, SECTION_START, i * stride, stride);
  }

  lemma SliceShift(b: seq<byte>, start: nat, lo: nat, n: nat)
    requires start + lo + n <= |b|
    ensures b[start..][lo..lo + n] == b[start + lo..start + lo + n]
  {
  }

  lemma SectionDone(b: seq<byte>, size: nat, shards: seq<Shard>)
    requires Equal(shards, size) && |b| == SECTION_START + |shards| * (SHARD_HEADER_SIZE + size)
    requires StridesDone(b, size, shards, |shards|)
    ensures b[SECTION_START..] == Flatten(Strides(shards))
  {
    hide Stride, ShardData, StrideAt, SlotStart, Piece, Flatten;
    var stride := SHARD_HEADER_SIZE + size;
    var sect := b[SECTION_START..];
    forall i | 0 <= i < |shards| ensures Pieces(sect, stride, |shards|)[i] == Strides(shards)[i] {
      PieceIsStride(b, size, |shards|, i);
    }
    assert Pieces(sect, stride, |shards|) == Strides(shards);
    PiecesFlatten(sect, stride, |shards|);
    assert sect[..|shards| * stride] == sect;
  }

  // ----- the whole blob

  /** Fills in the shape, then the CRC over it. */
  method WriteMeta(b: array<byte>, g: Shape)
    requires b.Length >= SECTION_START
    modifies b
    ensures b[..HEADER_SIZE] == old(b[..HEADER_SIZE]) && b[SECTION_START..] == old(b[SECTION_START..])
    ensures b[HEADER_SIZE..SECTION_START] == Meta(g)
  {
    hide Sum, LE, Splice, MetaFields;
    ghost var was := b[..];
    var fields := MetaFields(g);
    CopyInto(b, HEADER_SIZE, fields);
    SpliceInside(was, HEADER_SIZE, fields);
    assert b[HEADER_SIZE..HEADER_SIZE + 16] == b[..][HEADER_SIZE..HEADER_SIZE + 16];
    var crc := LE(Sum(b[HEADER_SIZE..HEADER_SIZE + 16]), 4);
    CopyInto(b, HEADER_SIZE + 16, crc);
    SpliceTwice(was, HEADER_SIZE, fields, crc);
    MetaPlaced(was, fields + crc);
    assert b[..HEADER_SIZE] == b[..][..HEADER_SIZE];
    assert b[SECTION_START..] == b[..][SECTION_START..];
    assert b[HEADER_SIZE..SECTION_START] == b[..][HEADER_SIZE..SECTION_START];
  }

  lemma MetaPlaced(was: seq<byte>, meta: seq<byte>)
    requires |was| >= SECTION_START && |meta| == META_SIZE
    ensures var c := Splice(was, HEADER_SIZE, meta);
            c[..HEADER_SIZE] == was[..HEADER_SIZE] && c[SECTION_START..] == was[SECTION_START..] &&
            c[HEADER_SIZE..SECTION_START] == meta
  {
  }

  lemma {:induction false} FlattenZeros(xs: seq<seq<byte>>, size: nat)
    requires forall i :: 0 <= i < |xs| ==> xs[i] == Zeros(size)
    ensures Flatten(xs) == Zeros(|xs| * size)
  {
    if xs != [] {
      FlattenZeros(xs[..|xs| - 1], size);
      assert (|xs| - 1) * size + size == |xs| * size;
    }
  }

  lemma ZeroView(b: seq<byte>, size: nat, count: nat)
    requires Room(|b|, size, count)
    requires forall j :: SECTION_START <= j < |b| ==> b[j] == 0
    ensures View(b, size, count) == Zeros(count * size)
  {
    hide SlotStart;
    forall i | 0 <= i < count ensures ShardData(b, size, count)[i] == Zeros(size) {
      SlotIs(b, size, count, i);
      SlotPastHeader(size, i);
    }
    FlattenZeros(ShardData(b, size, count), size);
  }

  /** Data slots whose view is the padded payload are the data shards. */
  lemma DataSlots(b: seq<byte>, payload: seq<byte>, n: nat, size: nat)
    requires Room(|b|, size, n) && |payload| <= n * size
    requires View(b, size, n) == Splice(Zeros(n * size), 0, payload)
    ensures ShardData(b, size, n) == DataShards(payload, n, size)
  {
    hide ShardData;
    assert Splice(Zeros(n * size), 0, payload) == Padded(payload, n, size);
    FlattenPieces(ShardData(b, size, n), size, []);
    assert View(b, size, n) + [] == View(b, size, n);
  }

  /** Writes all data shards from the overlay, then the parity computed from them. */
  method WriteShards(code: ErasureCode, dev: Device, b: array<byte>, g: Shape, idxs: seq<int>, procs: nat)
    requires WellShaped(code) && dev.Valid() && b !in dev.Buffers() && Holds(dev.Contents(), idxs)
    requires g.size > 0 && g.n > 0 && Offset(true, |idxs|) == g.payloadLen <= g.n * g.size
    requires Room(b.Length, g.size, g.n + g.k)
    requires forall j :: SECTION_START <= j < b.Length ==> b[j] == 0
    modifies b
    ensures ShardData(b[..], g.size, g.n + g.k) == ShardsOf(code, Flat(dev.Contents(), idxs, true), g)
    ensures b[..SECTION_START] == old(b[..SECTION_START])
  {
    hide Flat, View, Room, Splice, DataShards, ShardData, Device.Valid;
    ghost var payload := Flat(dev.Contents(), idxs, true);
    RoomShrinks(b.Length, g.size, g.n, g.n + g.k);
    ZeroView(b[..], g.size, g.n);
    WriteRecordsSharded(dev, b, g.size, g.n, idxs, procs);
    DataSlots(b[..], payload, g.n, g.size);
    var data := ReadShards(b, g.size, g.n);
    assert Equal(data, g.size);
    var parity := code.encode(data, g.k);
    ShardDataPrefix(b[..], g.size, g.n + g.k, g.n);
    WriteParity(b, g.size, g.n, parity);
  }

  lemma RoomShrinks(len: nat, size: nat, n: nat, count: nat)
    requires Room(len, size, count) && n <= count
    ensures Room(len, size, n)
  {
    MulLess(n, count, SHARD_HEADER_SIZE + size);
  }

  /** The data shards, as the encoder is handed them. */
  method ReadShards(b: array<byte>, size: nat, n: nat) returns (data: seq<Shard>)
    requires Room(b.Length, size, n)
    ensures data == ShardData(b[..], size, n)
  {
    hide Room, SlotStart;
    data := [];
    for i := 0 to n
      invariant |data| == i && forall j :: 0 <= j < i ==> data[j] == ShardData(b[..], size, n)[j]
    {
      SlotIs(b[..], size, n, i);
      var shard := b[SlotStart(size, i)..SlotStart(size, i) + size];
      assert shard == SlotData(b[..], size, i);
      data := data + [shard];
    }
    assert data == ShardData(b[..], size, n);
  }

  /**
   * Encodes the overlay at L2 with the given geometry; non-positive counts select the defaults. The blob is
   * the one specified byte for byte, and the error cases are the same.
   */
  method SerializeRS(code: ErasureCode, dev: Device, n: int, k: int, procs: nat)
    returns (blob: array?<byte>, err: Option<Error>)
    requires WellShaped(code) && dev.Valid()
    ensures Holds(dev.Contents(), SortedKeys(dev.Contents())) && |SortedKeys(dev.Contents())| == |dev.Contents()|
    ensures blob != null ==> fresh(blob)
    ensures match SerializeRs(code, dev.Contents(), n, k)
            case Refused(e) => blob == null && err == Some(e)
            case Blob(bytes) => blob != null && blob[..] == bytes && err == None
  {
    hide Flat, ShapeFor, ShardsOf, Strides, Flatten, Header, Meta, Encodable, Device.Contents, Holds, SortedKeys,
      WellShaped, SerializeRs;
    ghost var m := dev.Contents();
    BlocksBounded(dev);
    SortedKeysHold(m, dev.Blocks());
    var idxs := dev.SortedIndices();
    var g := ShapeFor(|idxs|, n, k);
    SerializedIs(code, m, n, k);
    if !Encodable(g.n, g.k, g.payloadLen) || (g.size > 0 && !code.init(g.n, g.k)) {
      return null, Some(UnsupportedTier);
    }
    var b := WriteBlob(code, dev, g, idxs, procs);
    return b, None;
  }

  lemma SerializedIs(code: ErasureCode, m: Overlay, n: int, k: int)
    requires WellShaped(code) && Holds(m, SortedKeys(m)) && |SortedKeys(m)| == |m|
    ensures var g := ShapeFor(|SortedKeys(m)|, n, k);
            g.n > 0 && Offset(true, |SortedKeys(m)|) == g.payloadLen <= g.n * g.size &&
            SerializeRs(code, m, n, k) ==
              if !Encodable(g.n, g.k, g.payloadLen) || (g.size > 0 && !code.init(g.n, g.k)) then
                Refused(UnsupportedTier)
              else Blob(Header(TIER_L2, |SortedKeys(m)|) +
                (Meta(g) + Flatten(Strides(ShardsOf(code, Flat(m, SortedKeys(m), true), g)))))
  {
    hide Flat, ShapeFor, ShardsOf, Strides, Flatten, Header, Meta, Encodable, Holds, WellShaped;
    ShapeFits(|m|, n, k);
  }

  /** A blob with header and meta filled in and room for the shards, all zero. */
  method NewBlob(g: Shape, count: nat) returns (b: array<byte>)
    ensures fresh(b) && b.Length == SECTION_START + (g.n + g.k) * (SHARD_HEADER_SIZE + g.size)
    ensures b[..SECTION_START] == Header(TIER_L2, count) + Meta(g)
    ensures forall j :: SECTION_START <= j < b.Length ==> b[j] == 0
  {
    hide Header, Meta;
    b := new byte[SECTION_START + (g.n + g.k) * (SHARD_HEADER_SIZE + g.size)](_ => 0);
    WriteHeader(b, TIER_L2, count);
    assert forall j :: SECTION_START <= j < b.Length ==> b[j] == b[HEADER_SIZE..][j - HEADER_SIZE] == 0;
    WriteMeta(b, g);
    assert forall j :: SECTION_START <= j < b.Length ==> b[j] == b[SECTION_START..][j - SECTION_START];
    assert b[..SECTION_START] == b[..HEADER_SIZE] + b[HEADER_SIZE..SECTION_START];
  }

  method WriteBlob(code: ErasureCode, dev: Device, g: Shape, idxs: seq<int>, procs: nat) returns (b: array<byte>)
    requires WellShaped(code) && dev.Valid() && Holds(dev.Contents(), idxs)
    requires g.n > 0 && Offset(true, |idxs|) == g.payloadLen <= g.n * g.size
    ensures fresh(b)
    ensures b[..] == Header(TIER_L2, |idxs|) +
              (Meta(g) + Flatten(Strides(ShardsOf(code, Flat(dev.Contents(), idxs, true), g))))
  {
    hide Flat, ShardsOf, ShardData, Strides, Flatten, Header, Meta, Device.Valid, Device.Contents, StridesDone, Holds,
      WellShaped, Equal;
    ghost var payload := Flat(dev.Contents(), idxs, true);
    b := NewBlob(g, |idxs|);
    ghost var shards := ShardsOf(code, payload, g);
    if g.size == 0 {
      EmptyShards(code, b[..], g, payload);
    } else {
      WriteShards(code, dev, b, g, idxs, procs);
    }
    WriteShardHeaders(b, g.size, shards, g.n + g.k);
    SectionDone(b[..], g.size, shards);
    assert b[..] == b[..SECTION_START] + b[..][SECTION_START..];
  }

  /** Shards of no bytes need no writing. */
  lemma EmptyShards(code: ErasureCode, b: seq<byte>, g: Shape, payload: seq<byte>)
    requires WellShaped(code) && g.n > 0 && g.size == 0 && |payload| == g.payloadLen <= g.n * g.size
    requires Room(|b|, 0, g.n + g.k)
    ensures ShardData(b, 0, g.n + g.k) == ShardsOf(code, payload, g)
  {
  }
}
