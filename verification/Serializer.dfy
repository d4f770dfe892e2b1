/** Writing L0/L1 records in place, sequentially or chunk by chunk. */
module Serializer {
  import opened Bytes
  import opened Crc32
  import opened Records
  import opened WireFormat
  import opened Images
  import opened BlockDevice

  const SERIAL_MIN_PER_WORKER := 128

  /** Writes one record at `off`; its CRC is computed from the bytes just written. */
  method WriteRecord(dev: Device, dst: array<byte>, off: nat, idx: int, crc: bool)
    requires dev.Valid() && dst !in dev.Buffers() && idx in dev.dirty && off + RecordSize(crc) <= dst.Length
    modifies dst
    ensures dst[..] == Splice(old(dst[..]), off, Encode(idx, dev.Contents()[idx], crc))
  {
    hide Sum, Splice, LE, Device.Valid;
    ghost var was := dst[..];
    var data := dev.Dirty(idx);
    CopyInto(dst, off, LE(idx, 8));
    CopyInto(dst, off + 8, data);
    SpliceTwice(was, off, LE(idx, 8), data);
    if crc {
      SpliceInside(was, off, LE(idx, 8) + data);
      var written := dst[off..off + L0_RECORD_SIZE];
      assert written == dst[..][off..off + L0_RECORD_SIZE];
      CopyInto(dst, off + L0_RECORD_SIZE, LE(Sum(written), 4));
      SpliceTwice(was, off, LE(idx, 8) + data, LE(Sum(written), 4));
    }
  }

  /** Writes the records of `idxs` at `start`, one after the other. */
  method WriteRecordRange(dev: Device, dst: array<byte>, start: nat, idxs: seq<int>, crc: bool)
    requires dev.Valid() && dst !in dev.Buffers() && Holds(dev.Contents(), idxs)
    requires start + Offset(crc, |idxs|) <= dst.Length
    modifies dst
    ensures dst[..] == Splice(old(dst[..]), start, Flat(dev.Contents(), idxs, crc))
  {
    hide Encode, Splice, Flat, Device.Valid, Device.Contents;
    ghost var was, m := dst[..], dev.Contents();
    var off := start;
    SpliceNothing(was, start, Flat(m, idxs[..0], crc));
    for i := 0 to |idxs|
      invariant off == start + Offset(crc, i) && dev.Contents() == m
      invariant dst[..] == Splice(was, start, Flat(m, idxs[..i], crc))
    {
      WriteRecord(dev, dst, off, idxs[i], crc);
      FlatSnoc(m, idxs, crc, i);
      SpliceTwice(was, start, Flat(m, idxs[..i], crc), Encode(idxs[i], m[idxs[i]], crc));
      off := off + RecordSize(crc);
    }
    assert idxs[..|idxs|] == idxs;
  }

  /** How many workers share the list, given the processors at hand. */
  function Workers(procs: nat, len: nat): nat {
    Min(procs, len / SERIAL_MIN_PER_WORKER)
  }

  function ChunkSize(len: nat, workers: nat): (c: nat)
    requires workers > 1 && len >= workers
    ensures c > 0
  {
    (len + workers - 1) / workers
  }

  /**
   * The fan-out, worker after worker; the chunks cover the list, so the bytes are those of a single pass.
   * That every interleaving of the workers ends in the same bytes is shown in module Schedule.
   */
  method WriteRecords(dev: Device, dst: array<byte>, start: nat, idxs: seq<int>, crc: bool, procs: nat)
    requires dev.Valid() && dst !in dev.Buffers() && Holds(dev.Contents(), idxs)
    requires start + Offset(crc, |idxs|) <= dst.Length
    modifies dst
    ensures dst[..] == Splice(old(dst[..]), start, Flat(dev.Contents(), idxs, crc))
  {
    hide Splice, Flat, Device.Valid, Device.Contents, ChunkSize;
    var workers := Workers(procs, |idxs|);
    if workers <= 1 {
      WriteRecordRange(dev, dst, start, idxs, crc);
      return;
    }
    ghost var was, m := dst[..], dev.Contents();
    var chunk := ChunkSize(|idxs|, workers);
    var lo := 0;
    SpliceNothing(was, start, Flat(m, idxs[..0], crc));
    while lo < |idxs|
      invariant 0 <= lo <= |idxs| && dev.Contents() == m
      invariant dst[..] == Splice(was, start, Flat(m, idxs[..lo], crc))
    {
      var hi := Min(lo + chunk, |idxs|);
      WriteRecordRange(dev, dst, start + Offset(crc, lo), idxs[lo..hi], crc);
      FlatConcat(m, idxs[..lo], idxs[lo..hi], crc);
      assert idxs[..lo] + idxs[lo..hi] == idxs[..hi];
      SpliceTwice(was, start, Flat(m, idxs[..lo], crc), Flat(m, idxs[lo..hi], crc));
      lo := hi;
    }
    assert idxs[..lo] == idxs;
  }

  /** A whole L0/L1 blob: header, then the records in ascending order of index. */
  method SerializeRecords(dev: Device, tier: byte, procs: nat) returns (blob: array<byte>)
    requires dev.Valid() && (tier == TIER_L0 || tier == TIER_L1)
    ensures fresh(blob)
    ensures Holds(dev.Contents(), SortedKeys(dev.Contents()))
    ensures blob[..] == Header(tier, |dev.dirty|) + Flat(dev.Contents(), SortedKeys(dev.Contents()), tier == TIER_L1)
  {
    hide Flat, Header, HeaderFields, Device.Valid, Device.Contents, Splice, Sum, Holds, SortedKeys, Offset;
    var crc := tier == TIER_L1;
    ghost var m := dev.Contents();
    BlocksBounded(dev);
    SortedKeysHold(m, dev.Blocks());
    var idxs := dev.SortedIndices();
    blob := new byte[HEADER_SIZE + Offset(crc, |idxs|)];
    WriteHeader(blob, tier, |idxs|);
    ghost var was := blob[..];
    WriteRecords(dev, blob, HEADER_SIZE, idxs, crc, procs);
    SpliceTail(was, HEADER_SIZE, Flat(m, idxs, crc));
  }

  lemma BlocksBounded(dev: Device)
    requires dev.Valid()
    ensures dev.Blocks() <= MAX_BLOCKS && |dev.Contents()| == |dev.dirty|
  {
    assert |dev.Contents().Keys| == |dev.dirty.Keys|;
  }

  lemma SpliceTail(s: seq<byte>, lo: nat, t: seq<byte>)
    requires lo + |t| == |s|
    ensures Splice(s, lo, t) == s[..lo] + t
  {
  }

  lemma SpliceHead(s: seq<byte>, t: seq<byte>, u: seq<byte>)
    requires |t| + |u| <= |s|
    ensures Splice(Splice(s, 0, t), |t|, u)[..|t| + |u|] == t + u
  {
  }

  /** Fills in magic, version, tier and count, then the CRC over them. */
  method WriteHeader(blob: array<byte>, tier: byte, count: nat)
    requires blob.Length >= HEADER_SIZE
    modifies blob
    ensures blob[..HEADER_SIZE] == Header(tier, count) && blob[HEADER_SIZE..] == old(blob[HEADER_SIZE..])
  {
    hide Sum, LE, Splice, HeaderFields;
    ghost var was := blob[..];
    var fields := HeaderFields(tier, count);
    CopyInto(blob, 0, fields);
    assert blob[..14] == blob[..][0..0 + 14] == fields by { SpliceInside(was, 0, fields); }
    CopyInto(blob, 14, LE(Sum(blob[..14]), 4));
    SpliceHead(was, fields, LE(Sum(fields), 4));
    SpliceTwice(was, 0, fields, LE(Sum(fields), 4));
    SpliceOutside(was, 0, fields + LE(Sum(fields), 4), HEADER_SIZE, |was| - HEADER_SIZE);
    assert blob[..HEADER_SIZE] == blob[..][..HEADER_SIZE];
    assert blob[HEADER_SIZE..] == blob[..][HEADER_SIZE..];
    assert was[HEADER_SIZE..] == was[HEADER_SIZE..HEADER_SIZE + (|was| - HEADER_SIZE)];
  }
}
