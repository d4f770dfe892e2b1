/** Shard geometry: which data/parity splits the encoder offers and the decoder admits. */
module Geometry {
  import opened Bytes
  import opened Crc32
  import opened Records
  import opened RecordDecoder

  const META_SIZE := 20
  const SHARD_HEADER_SIZE := 6
  const DEFAULT_DATA := 10
  const DEFAULT_PARITY := 2
  const MAX_TOTAL_SHARDS := 64
  const MIN_SHARD_PAYLOAD := 128
  const MAX_DECODE_ALLOC := 0x2_0000_0000

  /** n data shards and k parity shards of `size` bytes for a payload of `payloadLen` bytes. */
  datatype Shape = Shape(n: nat, k: nat, size: nat, payloadLen: nat)

  function Max(a: int, b: int): int {
    if a >= b then a else b
  }

  /** The payload justifies the shard counts (the sum wraps around as a uint64). */
  predicate ValidGeometry(n: int, k: int, payloadLen: nat) {
    n <= Max(1, (payloadLen + MIN_SHARD_PAYLOAD - 1) % TWO_TO_THE_64 / MIN_SHARD_PAYLOAD) &&
    k <= Max(DEFAULT_PARITY, n)
  }

  function DefaultShards(payloadLen: nat): (int, int) {
    var data := Max(1, payloadLen / 4096);
    (if data > DEFAULT_DATA then DEFAULT_DATA else data, DEFAULT_PARITY)
  }

  /** Non-positive counts select the defaults. */
  function Resolve(n: int, k: int, payloadLen: nat): (r: (int, int))
    ensures r.0 > 0 && r.1 > 0
  {
    var d := DefaultShards(payloadLen);
    (if n <= 0 then d.0 else n, if k <= 0 then d.1 else k)
  }

  predicate Encodable(n: int, k: int, payloadLen: nat) {
    n + k <= MAX_TOTAL_SHARDS && ValidGeometry(n, k, payloadLen)
  }

  function ShardSize(payloadLen: nat, n: nat): nat
    requires n > 0
  {
    if payloadLen > 0 then (payloadLen + n - 1) / n else 0
  }

  function MetaFields(g: Shape): (f: seq<byte>)
    ensures |f| == 16
  {
    LE(g.n, 2) + LE(g.k, 2) + LE(g.size, 4) + LE(g.payloadLen, 8)
  }

  function Meta(g: Shape): (f: seq<byte>)
    ensures |f| == META_SIZE
  {
    MetaFields(g) + LE(Sum(MetaFields(g)), 4)
  }

  function ReadMeta(body: seq<byte>): Shape
    requires |body| >= META_SIZE
  {
    Shape(FromLE(body[0..2]), FromLE(body[2..4]), FromLE(body[4..8]), FromLE(body[8..16]))
  }

  predicate MetaVerifies(body: seq<byte>)
    requires |body| >= META_SIZE
  {
    Sum(body[..16]) == FromLE(body[16..20])
  }

  /** The bytes at hand are at least a quarter of the shard section announced (in uint64 arithmetic). */
  predicate Slack(g: Shape, bodyLen: nat) {
    (g.n + g.k) * (SHARD_HEADER_SIZE + g.size) <= 4 * bodyLen % TWO_TO_THE_64
  }

  /** The decoder's checks of a geometry against the block count and the bytes at hand. */
  predicate Admissible(g: Shape, count: nat, bodyLen: nat) {
    g.n >= 1 && g.n + g.k <= MAX_TOTAL_SHARDS &&
    ValidGeometry(g.n, g.k, g.payloadLen) &&
    g.payloadLen % L1_RECORD_SIZE == 0 && g.payloadLen / L1_RECORD_SIZE == count &&
    (g.n + g.k) * g.size <= MAX_DECODE_ALLOC && g.payloadLen <= g.n * g.size &&
    (g.payloadLen > 0 ==>
      g.size != 0 &&
      g.size == (g.payloadLen + g.n - 1) / g.n &&
      Slack(g, bodyLen))
  }

  function ParseMeta(body: seq<byte>, count: nat): (g: Option<Shape>)
    ensures g.Some? ==> |body| >= META_SIZE && Admissible(g.value, count, |body|)
  {
    if |body| < META_SIZE || !MetaVerifies(body) then None
    else
      var g := ReadMeta(body);
      if Admissible(g, count, |body|) then Some(g) else None
  }

  // ----- arithmetic

  lemma CeilBounds(p: nat, n: nat)
    requires n > 0 && p > 0
    ensures var s := (p + n - 1) / n; s > 0 && p <= n * s < p + n
  {
    var s := (p + n - 1) / n;
    assert p + n - 1 == n * s + (p + n - 1) % n;
    if s == 0 {
      assert false;
    }
  }

  lemma MulLess(a: nat, b: nat, c: nat)
    requires a <= b
    ensures a * c <= b * c
  {
  }

  // ----- properties

  /** The default is one data shard a block up to ten, and two parity shards. */
  lemma DefaultShape(count: nat)
    ensures Resolve(0, 0, Offset(true, count)) == (if count <= 1 then 1 else if count < 10 then count else 10, 2)
  {
  }

  /** A positive request is granted as it is; anything else selects the default. */
  lemma RequestsKept(n: int, k: int, payloadLen: nat)
    ensures var r, d := Resolve(n, k, payloadLen), Resolve(0, 0, payloadLen);
            r.0 == (if n > 0 then n else d.0) && r.1 == (if k > 0 then k else d.1)
  {
  }

  /** The geometries the encoder accepts, by the number of dirty blocks. */
  lemma EncodableShapes(count: nat, n: nat, k: nat)
    requires n > 0 && k > 0 && count <= MAX_BLOCKS
    ensures Encodable(n, k, Offset(true, count)) <==>
            n + k <= 64 && (k <= 2 || k <= n) && n <= if count == 0 then 1 else if count == 1 then 33 else 63
  {
  }

  /** At least a quarter of the announced section is there, rsMeta included. */
  predicate QuarterThere(g: Shape, bodyLen: nat) {
    (g.n + g.k) * (6 + g.size) <= 4 * bodyLen
  }

  lemma QuarterNeeded(g: Shape, bodyLen: nat)
    requires bodyLen < 0x4000_0000_0000_0000
    ensures Slack(g, bodyLen) <==> QuarterThere(g, bodyLen)
  {
  }

  lemma CeilIff(p: nat, n: nat, s: nat)
    requires n > 0 && p > 0
    ensures (p + n - 1) / n <= s <==> p <= n * s
  {
    CeilBounds(p, n);
    var c := (p + n - 1) / n;
    MulMonotone(c, s, n);
    MulMonotone(s + 1, c, n);
    assert (s + 1) * n == n * s + n;
  }

  lemma ProductIff(a: nat, b: nat, limit: nat)
    requires a > 0
    ensures a * b <= limit <==> b <= limit / a
  {
    assert limit == limit / a * a + limit % a;
    MulMonotone(b, limit / a, a);
    MulMonotone(limit / a + 1, b, a);
    assert (limit / a + 1) * a == limit / a * a + a;
  }

  /** The default geometry is never refused, whatever the number of dirty blocks. */
  lemma DefaultsEncodable(count: nat)
    requires count <= MAX_BLOCKS
    ensures var plen := Offset(true, count);
            var (n, k) := Resolve(0, 0, plen);
            Encodable(n, k, plen)
  {
  }

  /** Padding never fills a shard: each data shard of an admitted geometry holds payload bytes. */
  lemma PaddingIsSmall(g: Shape, count: nat, bodyLen: nat)
    requires Admissible(g, count, bodyLen) && g.payloadLen > 0
    ensures g.payloadLen <= g.n * g.size < g.payloadLen + g.n
    ensures g.n < g.size
    ensures (g.n - 1) * g.size < g.payloadLen
  {
    hide Slack, ValidGeometry;
    assert g.payloadLen >= L1_RECORD_SIZE;
    SmallPadding(g.payloadLen, g.n, g.size);
  }

  lemma SmallPadding(p: nat, n: nat, s: nat)
    requires p >= L1_RECORD_SIZE && 0 < n <= MAX_TOTAL_SHARDS && s == (p + n - 1) / n
    ensures p <= n * s < p + n && n < s && (n - 1) * s < p
  {
    CeilBounds(p, n);
    Thick(p, n, s);
    assert (n - 1) * s == n * s - s;
  }

  lemma Thick(p: nat, n: nat, s: nat)
    requires p >= L1_RECORD_SIZE && n <= MAX_TOTAL_SHARDS && p <= n * s
    ensures s > MAX_TOTAL_SHARDS
  {
    MulLess(n, MAX_TOTAL_SHARDS, s);
  }

  lemma MetaReads(g: Shape, rest: seq<byte>)
    requires g.n < 0x1_0000 && g.k < 0x1_0000 && g.payloadLen < TWO_TO_THE_64
    ensures MetaVerifies(Meta(g) + rest)
    ensures ReadMeta(Meta(g) + rest) == Shape(g.n, g.k, g.size % TWO_TO_THE_32, g.payloadLen)
  {
    hide Sum, LE;
    var f := MetaFields(g);
    var body := Meta(g) + rest;
    assert f == body[..16];
    assert f[0..2] == LE(g.n, 2) && f[2..4] == LE(g.k, 2) && f[4..8] == LE(g.size, 4);
    assert f[8..16] == LE(g.payloadLen, 8);
    assert body[0..2] == f[0..2] && body[2..4] == f[2..4] && body[4..8] == f[4..8] && body[8..16] == f[8..16];
    assert body[16..20] == LE(Sum(f), 4);
    FromLE2(g.n);
    FromLE2(g.k);
    FromLE4(g.size);
    FromLE8(g.payloadLen);
    FromLE4(Sum(f));
  }

  /** A section that verifies is the one written for the geometry read from it. */
  lemma MetaIsCanonical(body: seq<byte>)
    requires |body| >= META_SIZE && MetaVerifies(body)
    ensures body[..META_SIZE] == Meta(ReadMeta(body))
  {
    hide LE, FromLE, Sum;
    LEOfFromLE(body[0..2]);
    LEOfFromLE(body[2..4]);
    LEOfFromLE(body[4..8]);
    LEOfFromLE(body[8..16]);
    LEOfFromLE(body[16..20]);
    assert body[..16] == body[0..2] + body[2..4] + body[4..8] + body[8..16];
    assert body[..META_SIZE] == body[..16] + body[16..20];
  }

  lemma ReadMetaBounds(body: seq<byte>)
    requires |body| >= META_SIZE
    ensures var g := ReadMeta(body);
            g.n < 0x1_0000 && g.k < 0x1_0000 && g.size < TWO_TO_THE_32 && g.payloadLen < TWO_TO_THE_64
  {
    hide FromLE;
    FromLEBound(body[0..2]);
    FromLEBound(body[2..4]);
    FromLEBound(body[4..8]);
    FromLEBound(body[8..16]);
    Pow256Values();
  }

  /** Parsing inverts writing: it yields a geometry exactly on the section written for it, if it is admissible. */
  lemma ParseMetaIff(body: seq<byte>, count: nat, g: Shape)
    ensures ParseMeta(body, count) == Some(g) <==>
            |body| >= META_SIZE && body[..META_SIZE] == Meta(g) &&
            g.n < 0x1_0000 && g.k < 0x1_0000 && g.size < TWO_TO_THE_32 && g.payloadLen < TWO_TO_THE_64 &&
            Admissible(g, count, |body|)
  {
    hide Meta, ReadMeta, MetaVerifies, Admissible;
    if |body| >= META_SIZE {
      ReadMetaBounds(body);
      if MetaVerifies(body) {
        MetaIsCanonical(body);
      }
      if body[..META_SIZE] == Meta(g) && g.n < 0x1_0000 && g.k < 0x1_0000 && g.size < TWO_TO_THE_32 &&
        g.payloadLen < TWO_TO_THE_64
      {
        MetaReads(g, body[META_SIZE..]);
        assert body == Meta(g) + body[META_SIZE..];
      }
    }
  }

  /** The widest geometries: the encoder goes up to 63 data shards, the decoder up to 64 without parity. */
  lemma WidestShapes(bodyLen: nat)
    ensures Encodable(63, 1, Offset(true, 2)) && !Encodable(64, 1, Offset(true, 2))
    ensures 2160 <= bodyLen < TWO_TO_THE_63 / 2 ==> Admissible(Shape(64, 0, 129, Offset(true, 2)), 2, bodyLen)
  {
  }

  /** The decoder's allocation bounds, which the encoder does not check. */
  predicate Decodable(g: Shape) {
    g.size < TWO_TO_THE_32 && (g.n + g.k) * g.size <= MAX_DECODE_ALLOC
  }

  /** The decoder's checks of the shape as the encoder computed it. */
  lemma OwnShapeAdmissible(n: nat, k: nat, count: nat, bodyLen: nat)
    requires n > 0 && k > 0 && count <= MAX_BLOCKS && Encodable(n, k, Offset(true, count))
    ensures var g := Shape(n, k, ShardSize(Offset(true, count), n), Offset(true, count));
            Admissible(g, count, bodyLen) <==> (n + k) * g.size <= MAX_DECODE_ALLOC && (count == 0 || Slack(g, bodyLen))
  {
    hide Slack, ValidGeometry;
    if count > 0 {
      CeilBounds(Offset(true, count), n);
    }
  }

  /** A shard size that does not fit its field reads back too small. */
  lemma WrappedSizeRefused(n: nat, k: nat, count: nat, bodyLen: nat)
    requires n > 0 && ShardSize(Offset(true, count), n) >= TWO_TO_THE_32
    ensures var size := ShardSize(Offset(true, count), n);
            !Admissible(Shape(n, k, size % TWO_TO_THE_32, Offset(true, count)), count, bodyLen)
  {
    hide Slack, ValidGeometry;
  }

  /**
   * What the encoder writes for a geometry it accepts is admitted by the decoder, unchanged, exactly when
   * the decoder's allocation bounds hold and at least a quarter of the shard section is there.
   */
  lemma EncoderDecoderAgree(n: nat, k: nat, count: nat, rest: seq<byte>)
    requires n > 0 && k > 0 && count <= MAX_BLOCKS
    requires Encodable(n, k, Offset(true, count))
    ensures var g := Shape(n, k, ShardSize(Offset(true, count), n), Offset(true, count));
            ParseMeta(Meta(g) + rest, count) ==
              if Decodable(g) && (count == 0 || Slack(g, META_SIZE + |rest|)) then Some(g) else None
  {
    hide Meta, MetaVerifies, ReadMeta, Slack, Admissible, ValidGeometry, ShardSize;
    var plen := Offset(true, count);
    var g := Shape(n, k, ShardSize(plen, n), plen);
    MetaReads(g, rest);
    OwnShapeAdmissible(n, k, count, META_SIZE + |rest|);
    if g.size >= TWO_TO_THE_32 {
      WrappedSizeRefused(n, k, count, META_SIZE + |rest|);
    }
  }

  /** The encoder's promise that its blobs are always accepted fails for two million dirty blocks. */
  lemma LargeDeltaRefused(rest: seq<byte>)
    requires var g := Shape(10, 2, 821_600_000, 8_216_000_000);
             |rest| == (g.n + g.k) * (SHARD_HEADER_SIZE + g.size)
    ensures var count := 2_000_000;
            var g := Shape(10, 2, 821_600_000, 8_216_000_000);
            Resolve(0, 0, Offset(true, count)) == (g.n, g.k) && Encodable(g.n, g.k, Offset(true, count)) &&
            ShardSize(Offset(true, count), g.n) == g.size &&
            ParseMeta(Meta(g) + rest, count) == None
  {
    hide ParseMeta, Meta;
    EncoderDecoderAgree(10, 2, 2_000_000, rest);
  }

  /** n + k <= 4n: any n intact strides satisfy the decoder's four-fold slack. */
  lemma SlackSuffices(n: nat, k: nat, payloadLen: nat, size: nat, strides: nat, bodyLen: nat)
    requires n > 0 && Encodable(n, k, payloadLen) && n <= strides
    requires strides * (SHARD_HEADER_SIZE + size) <= bodyLen && 4 * bodyLen < TWO_TO_THE_64
    ensures Slack(Shape(n, k, size, payloadLen), bodyLen)
  {
    var s := SHARD_HEADER_SIZE + size;
    MulLess(n + k, 4 * n, s);
    MulLess(n, strides, s);
    assert 4 * n * s == 4 * (n * s);
  }
}
