/** The documented wire format, byte position by byte position, as the encoders write it. */
module Layout {
  import opened Bytes
  import opened Crc32
  import opened Records
  import opened WireFormat
  import opened Erasure
  import opened Geometry
  import opened Shards
  import opened ShardedFormat
  import opened Codec

  /** The four bytes from `at` on are the checksum of the bytes from `lo` to `hi`. */
  predicate ChecksumAt(blob: seq<byte>, at: nat, lo: nat, hi: nat) {
    lo <= hi <= |blob| && at + 4 <= |blob| && blob[at..at + 4] == LE(Sum(blob[lo..hi]), 4)
  }

  /** header: magic "BDEV" (4) | version (1) | tier (1) | blockCount (8) | headerCRC32 (4) */
  predicate HeaderAt(blob: seq<byte>, tier: byte, count: nat) {
    |blob| >= 18 && blob[..4] == [0x42, 0x44, 0x45, 0x56] && blob[4] == 1 && blob[5] == tier &&
    blob[6..14] == LE(count, 8) && ChecksumAt(blob, 14, 0, 14)
  }

  /** record: index (8) | data (4096), and at L1 crc32(index|data) (4) */
  predicate RecordAtOffset(blob: seq<byte>, at: nat, idx: nat, data: seq<byte>, crc: bool) {
    at + 4104 <= |blob| && blob[at..at + 8] == LE(idx, 8) && blob[at + 8..at + 4104] == data &&
    (crc ==> ChecksumAt(blob, at + 4104, at, at + 4104))
  }

  lemma HeaderLaidOut(tier: byte, count: nat, body: seq<byte>)
    ensures HeaderAt(Header(tier, count) + body, tier, count)
  {
    hide Sum, LE;
    var f, blob := HeaderFields(tier, count), Header(tier, count) + body;
    assert blob[0..14] == f;
    assert blob[..4] == f[..4] == MAGIC;
    assert blob[6..14] == f[6..14];
    assert blob[4] == f[4] && blob[5] == f[5];
    assert blob[14..14 + 4] == LE(Sum(f), 4);
  }

  /** An L0/L1 blob is the header and the records, in ascending order of index, and nothing else. */
  lemma RecordBlobLaidOut(code: ErasureCode, m: Overlay, tier: byte, blocks: nat)
    requires WellShaped(code) && Fits(m, blocks) && blocks <= MAX_BLOCKS && (tier == 0 || tier == 1)
    ensures Holds(m, SortedKeys(m)) && |SortedKeys(m)| == |m|
    ensures var e, size := Serialize(code, m, tier), if tier == 1 then 4108 else 4104;
            e.Blob? && |e.bytes| == 18 + |m| * size && HeaderAt(e.bytes, tier, |m|) &&
            forall i :: 0 <= i < |m| ==>
              RecordAtOffset(e.bytes, 18 + i * size, SortedKeys(m)[i], m[SortedKeys(m)[i]], tier == 1)
  {
    hide WellShaped, Header, Flat, HeaderAt, RecordAtOffset, Fits, SerializeRs, Holds;
    SortedKeysHold(m, blocks);
    var crc := tier == 1;
    HeaderLaidOut(tier, |m|, Flat(m, SortedKeys(m), crc));
    RecordsLaidOut(Header(tier, |m|), m, SortedKeys(m), crc);
  }

  lemma RecordsLaidOut(head: seq<byte>, m: Overlay, idxs: seq<int>, crc: bool)
    requires Holds(m, idxs)
    ensures var size := if crc then 4108 else 4104;
            forall i :: 0 <= i < |idxs| ==>
              RecordAtOffset(head + Flat(m, idxs, crc), |head| + i * size, idxs[i], m[idxs[i]], crc)
  {
    hide Flat, RecordAtOffset;
    forall i | 0 <= i < |idxs|
      ensures RecordAtOffset(head + Flat(m, idxs, crc), |head| + Offset(crc, i), idxs[i], m[idxs[i]], crc)
    {
      RecordLaidOut(head, m, idxs, crc, i);
    }
  }

  lemma RecordLaidOut(head: seq<byte>, m: Overlay, idxs: seq<int>, crc: bool, i: nat)
    requires Holds(m, idxs) && i < |idxs|
    ensures RecordAtOffset(head + Flat(m, idxs, crc), |head| + Offset(crc, i), idxs[i], m[idxs[i]], crc)
  {
    hide Flat, Encode, RecordAtOffset;
    var f, at, e := Flat(m, idxs, crc), Offset(crc, i), Encode(idxs[i], m[idxs[i]], crc);
    FlatAt(m, idxs, crc, i);
    Shifted(head, f, at, e);
    RecordIs(head + f, |head| + at, idxs[i], m[idxs[i]], crc);
  }

  lemma RecordIs(blob: seq<byte>, at: nat, idx: nat, data: seq<byte>, crc: bool)
    requires |data| == BLOCK_SIZE && at + RecordSize(crc) <= |blob|
    requires blob[at..at + RecordSize(crc)] == Encode(idx, data, crc)
    ensures RecordAtOffset(blob, at, idx, data, crc)
  {
    hide Sum, LE;
    var e := Encode(idx, data, crc);
    Within(blob, at, e, 0, 8);
    Within(blob, at, e, 8, 4104);
    assert e[0..8] == LE(idx, 8) && e[8..4104] == data;
    if crc {
      Within(blob, at, e, 0, 4104);
      Within(blob, at, e, 4104, 4108);
      assert e[0..4104] == LE(idx, 8) + data && e[4104..4108] == LE(Sum(e[0..4104]), 4);
    }
  }

  lemma Shifted(a: seq<byte>, b: seq<byte>, at: nat, e: seq<byte>)
    requires at + |e| <= |b| && b[at..at + |e|] == e
    ensures (a + b)[|a| + at..|a| + at + |e|] == e
  {
  }

  lemma Within(s: seq<byte>, at: nat, e: seq<byte>, lo: nat, hi: nat)
    requires at + |e| <= |s| && s[at..at + |e|] == e && lo <= hi <= |e|
    ensures s[at + lo..at + hi] == e[lo..hi]
  {
    forall j | 0 <= j < hi - lo ensures s[at + lo..at + hi][j] == e[lo..hi][j] {
      assert e[lo + j] == s[at + (lo + j)];
    }
  }

  /** rsMeta: N (2) | K (2) | shardSize (4) | payloadLen (8) | crc32 (4), behind the header */
  predicate MetaAt(blob: seq<byte>, n: nat, k: nat, size: nat, payloadLen: nat) {
    |blob| >= 38 && blob[18..20] == LE(n, 2) && blob[20..22] == LE(k, 2) && blob[22..26] == LE(size, 4) &&
    blob[26..34] == LE(payloadLen, 8) && ChecksumAt(blob, 34, 18, 34)
  }

  /** shard: shardIndex (2) | crc32(shard data) (4) | shardSize bytes */
  predicate ShardAt(blob: seq<byte>, at: nat, i: nat, shard: Shard) {
    at + 6 + |shard| <= |blob| && blob[at..at + 2] == LE(i, 2) && blob[at + 6..at + 6 + |shard|] == shard &&
    ChecksumAt(blob, at + 2, at + 6, at + 6 + |shard|)
  }

  lemma MetaLaidOut(head: seq<byte>, g: Shape, sect: seq<byte>)
    requires |head| == 18
    ensures MetaAt(head + (Meta(g) + sect), g.n, g.k, g.size, g.payloadLen)
  {
    hide Sum, LE;
    var f, blob := MetaFields(g), head + (Meta(g) + sect);
    assert blob[18..34] == f;
    assert f[0..2] == LE(g.n, 2) && f[2..4] == LE(g.k, 2) && f[4..8] == LE(g.size, 4);
    assert f[8..16] == LE(g.payloadLen, 8);
    Within(blob, 18, f, 0, 2);
    Within(blob, 18, f, 2, 4);
    Within(blob, 18, f, 4, 8);
    Within(blob, 18, f, 8, 16);
    assert blob[34..34 + 4] == LE(Sum(f), 4);
  }

  lemma ShardLaidOut(head: seq<byte>, shards: seq<Shard>, size: nat, i: nat, at: nat)
    requires Equal(shards, size) && i < |shards| && at == |head| + i * (6 + size)
    ensures ShardAt(head + Flatten(Strides(shards)), at, i, shards[i])
  {
    hide Sum, LE, Flatten;
    var ts, stride := Strides(shards), 6 + size;
    StridesEqual(shards, size);
    FlattenPiece(ts, stride, [], i);
    var f, t := Flatten(ts), ts[i];
    assert f + [] == f;
    PieceAt(f, stride, i, at - |head|, t);
    Shifted(head, f, at - |head|, t);
    var blob := head + f;
    Within(blob, at, t, 0, 2);
    Within(blob, at, t, 2, 6);
    Within(blob, at, t, 6, 6 + size);
    assert t[0..2] == LE(i, 2) && t[2..6] == LE(Sum(shards[i]), 4) && t[6..6 + size] == shards[i];
  }

  lemma PieceAt(s: seq<byte>, size: nat, i: nat, at: int, p: seq<byte>)
    requires (i + 1) * size <= |s| && Piece(s, size, i) == p && at == i * size
    ensures 0 <= at && at + |p| <= |s| && s[at..at + |p|] == p
  {
    assert (i + 1) * size == i * size + size;
  }

  /**
   * An L2 blob is the header, the rsMeta and n + k shards, and nothing else; PayloadLaidOut says what the data shards
   * hold.
   */
  lemma RsBlobLaidOut(code: ErasureCode, m: Overlay, n: int, k: int, blocks: nat)
    requires WellShaped(code) && Fits(m, blocks) && blocks <= MAX_BLOCKS
    ensures Holds(m, SortedKeys(m)) && |SortedKeys(m)| == |m|
    ensures var e, g := SerializeRs(code, m, n, k), ShapeFor(|m|, n, k);
            g.n > 0 && g.payloadLen == 4108 * |m| <= g.n * g.size &&
            var shards := ShardsOf(code, PayloadOf(m), g);
            e.Blob? ==>
              |e.bytes| == 38 + (g.n + g.k) * (6 + g.size) && HeaderAt(e.bytes, 2, |m|) &&
              MetaAt(e.bytes, g.n, g.k, g.size, 4108 * |m|) &&
              forall i, at :: 0 <= i < g.n + g.k && at == 38 + i * (6 + g.size) ==> ShardAt(e.bytes, at, i, shards[i])
  {
    hide WellShaped, Header, Flatten, Strides, ShardsOf, PayloadOf, Meta, HeaderAt, MetaAt, ShardAt, Fits, Holds,
      ShapeFor, Encodable;
    SortedKeysHold(m, blocks);
    ShapeFits(|m|, n, k);
    var e, g := SerializeRs(code, m, n, k), ShapeFor(|m|, n, k);
    var shards := ShardsOf(code, PayloadOf(m), g);
    var head, meta, sect := Header(TIER_L2, |m|), Meta(g), Flatten(Strides(shards));
    if e.Blob? {
      HeaderLaidOut(2, |m|, meta + sect);
      MetaLaidOut(head, g, sect);
      StridesLength(shards, g.size);
      assert head + (meta + sect) == (head + meta) + sect;
      forall i, at | 0 <= i < g.n + g.k && at == 38 + i * (6 + g.size) ensures ShardAt(e.bytes, at, i, shards[i]) {
        NotNegative(i, 6 + g.size);
        ShardLaidOut(head + meta, shards, g.size, i, at);
      }
    }
  }

  lemma NotNegative(a: nat, b: nat)
    ensures a * b >= 0
  {
  }

  /** Where the payload lies among the data shards, and where the padding. */
  lemma PayloadLaidOut(code: ErasureCode, payload: seq<byte>, g: Shape, p: nat)
    requires WellShaped(code) && g.n > 0 && g.size > 0 && |payload| == g.payloadLen <= g.n * g.size && p < g.n * g.size
    ensures p / g.size < g.n
    ensures ShardsOf(code, payload, g)[p / g.size][p % g.size] == if p < |payload| then payload[p] else 0
  {
    hide DataShards;
    var data := DataShards(payload, g.n, g.size);
    Locate(p, g.n, g.size);
    if p < |payload| {
      DataShardByte(payload, g.n, g.size, p);
    } else {
      PaddingByte(payload, g.n, g.size, p);
    }
    assert ShardsOf(code, payload, g) == data + code.encode(data, g.k) by {
      assert Equal(data, g.size);
    }
  }

  lemma PaddingByte(payload: seq<byte>, n: nat, size: nat, p: nat)
    requires size > 0 && |payload| <= p < n * size
    ensures p / size < n && DataShards(payload, n, size)[p / size][p % size] == 0
  {
    Locate(p, n, size);
    var i, s := p / size, Padded(payload, n, size);
    MulLess(i + 1, n, size);
    PieceByte(s, size, i, p % size);
  }

  // ----- a blob written out

  lemma HeaderEntries()
    ensures Table(0xBD) == 0xB5D0_CF31 && Table(0x8A) == 0x0D6D_6A3E && Table(0x4B) == 0xE10E_9818
    ensures Table(0x0B) == 0x97D2_D988 && Table(0xC9) == 0xE2B8_7A14 && Table(0xCE) == 0x7CDC_EFB7
    ensures Table(0xFE) == 0x5A05_DF1B && Table(0xDB) == 0x1101_0B5C
  {
    Unroll(0xBD);
    Unroll(0x8A);
    Unroll(0x4B);
    Unroll(0x0B);
    Unroll(0xC9);
    Unroll(0xCE);
    Unroll(0xFE);
    Unroll(0xDB);
    hide Table, Rounds;
  }

  lemma MoreEntries()
    ensures Table(0x43) == 0xEFD5_102A && Table(0xBE) == 0x2CD9_9E8B && Table(0x5A) == 0x8BBE_B8EA
    ensures Table(0x14) == 0x1ADA_D47D && Table(0xF3) == 0x24B4_A3A6
  {
    Unroll(0x43);
    Unroll(0xBE);
    Unroll(0x5A);
    Unroll(0x14);
    Unroll(0xF3);
    hide Table, Rounds;
  }

  lemma HeaderBits()
    ensures Bits(0x42) == 0x42 && Bits(0x44) == 0x44 && Bits(0x45) == 0x45 && Bits(0x56) == 0x56
    ensures Bits(1) == 1 && Bits(0) == 0
  {
    BitsOf(0x42, 0x42);
    BitsOf(0x44, 0x44);
    BitsOf(0x45, 0x45);
    BitsOf(0x56, 0x56);
    BitsOf(1, 1);
    BitsOf(0, 0);
  }

  lemma BitsOf(b: byte, x: bv8)
    requires b as int == x as int
    ensures Bits(b) == x
  {
    hide Bits;
    BitsAreValue(b);
  }

  /** One more byte read into the register. */
  lemma OneMore(p: seq<byte>, b: byte, s: bv32, x: bv8, e: bv32, n: bv32)
    requires Register(p) == s && Bits(b) == x && Table((s ^ x as bv32) & 0xFF) == e && n == e ^ (s >> 8)
    ensures Register(p + [b]) == n
  {
    hide Table, Bits;
    assert (p + [b])[..|p|] == p;
  }

  /** The fields of the header of an empty L0 blob. */
  const EMPTY_FIELDS: seq<byte> := [0x42, 0x44, 0x45, 0x56, 0x01, 0x00, 0x00, 0x00, 0x00, 0x00, 0x00, 0x00, 0x00, 0x00]

  lemma FirstSix()
    ensures Register(EMPTY_FIELDS[..6]) == 0x7C3E_C0FE
  {
    hide Table, Rounds, Register, Bits;
    HeaderEntries();
    HeaderBits();
    Started();
    var p: seq<byte> := [];
    OneMore(p, 0x42, 0xFFFF_FFFF, 0x42, 0xB5D0_CF31, 0xB52F_30CE);
    p := p + [0x42];
    OneMore(p, 0x44, 0xB52F_30CE, 0x44, 0x0D6D_6A3E, 0x0DD8_450E);
    p := p + [0x44];
    OneMore(p, 0x45, 0x0DD8_450E, 0x45, 0xE10E_9818, 0xE103_405D);
    p := p + [0x45];
    OneMore(p, 0x56, 0xE103_405D, 0x56, 0x97D2_D988, 0x9733_DAC8);
    p := p + [0x56];
    OneMore(p, 0x01, 0x9733_DAC8, 0x01, 0xE2B8_7A14, 0xE22F_49CE);
    p := p + [0x01];
    OneMore(p, 0x00, 0xE22F_49CE, 0x00, 0x7CDC_EFB7, 0x7C3E_C0FE);
    p := p + [0x00];
    assert p == EMPTY_FIELDS[..6];
  }

  lemma Started()
    ensures Register([]) == 0xFFFF_FFFF
  {
  }

  lemma AllFourteen()
    ensures Register(EMPTY_FIELDS) == 0x24AE_F2E0
  {
    hide Table, Rounds, Register, Bits;
    HeaderEntries();
    MoreEntries();
    HeaderBits();
    FirstSix();
    var p := EMPTY_FIELDS[..6];
    OneMore(p, 0x00, 0x7C3E_C0FE, 0x00, 0x5A05_DF1B, 0x5A79_E1DB);
    p := p + [0x00];
    OneMore(p, 0x00, 0x5A79_E1DB, 0x00, 0x1101_0B5C, 0x115B_72BD);
    p := p + [0x00];
    OneMore(p, 0x00, 0x115B_72BD, 0x00, 0xB5D0_CF31, 0xB5C1_9443);
    p := p + [0x00];
    OneMore(p, 0x00, 0xB5C1_9443, 0x00, 0xEFD5_102A, 0xEF60_D1BE);
    p := p + [0x00];
    OneMore(p, 0x00, 0xEF60_D1BE, 0x00, 0x2CD9_9E8B, 0x2C36_FE5A);
    p := p + [0x00];
    OneMore(p, 0x00, 0x2C36_FE5A, 0x00, 0x8BBE_B8EA, 0x8B92_8E14);
    p := p + [0x00];
    OneMore(p, 0x00, 0x8B92_8E14, 0x00, 0x1ADA_D47D, 0x1A51_46F3);
    p := p + [0x00];
    OneMore(p, 0x00, 0x1A51_46F3, 0x00, 0x24B4_A3A6, 0x24AE_F2E0);
    p := p + [0x00];
    assert p == EMPTY_FIELDS;
  }

  lemma HeaderChecksum()
    ensures LE(Sum(EMPTY_FIELDS), 4) == [0x1F, 0x0D, 0x51, 0xDB]
  {
    hide Register, Rounds, Table, Bits, LE, Fold;
    AllFourteen();
    ChecksumIs(EMPTY_FIELDS);
    BitsOf(0x1F, 0x1F);
    BitsOf(0x0D, 0x0D);
    BitsOf(0x51, 0x51);
    BitsOf(0xDB, 0xDB);
    WordBytes(0xDB51_0D1F, [0x1F, 0x0D, 0x51, 0xDB]);
    LEOfFromLE(Octets(0xDB51_0D1F));
  }

  lemma ChecksumIs(p: seq<byte>)
    ensures Checksum(p) == Register(p) ^ ONES
  {
    hide Fold;
    assert Invert(0) == ONES;
  }

  lemma WordBytes(c: bv32, s: seq<byte>)
    requires |s| == 4 && Bits(s[0]) == (c & 0xFF) as bv8 && Bits(s[1]) == ((c >> 8) & 0xFF) as bv8
    requires Bits(s[2]) == ((c >> 16) & 0xFF) as bv8 && Bits(s[3]) == ((c >> 24) & 0xFF) as bv8
    ensures Octets(c) == s
  {
    hide Bits, Value;
    forall i | 0 <= i < 4 ensures Octets(c)[i] == s[i] {
      ValueOfBits(s[i]);
    }
  }

  /** The blob of an empty overlay at L0, written out; its last four bytes are the CRC-32 of the others. */
  lemma EmptyBlob(code: ErasureCode)
    requires WellShaped(code)
    ensures Holds(map[], SortedKeys(map[])) && |SortedKeys(map[])| == 0
    ensures Serialize(code, map[], 0) == Blob(
              [0x42, 0x44, 0x45, 0x56, 0x01, 0x00, 0x00, 0x00, 0x00, 0x00, 0x00, 0x00, 0x00, 0x00,
               0x1F, 0x0D, 0x51, 0xDB])
  {
    hide WellShaped, Sum, LE;
    SortedKeysHold(map[], 0);
    HeaderChecksum();
    ZeroField();
    assert HeaderFields(0, 0) == EMPTY_FIELDS;
  }

  lemma ZeroField()
    ensures LE(0, 8) == [0, 0, 0, 0, 0, 0, 0, 0]
  {
    forall i | 0 <= i < 8 ensures LE(0, 8)[i] == 0 {
      ZeroDigit(i);
    }
  }
}
