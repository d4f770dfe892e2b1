/** Shards: splitting a payload, the shard section, and reading payload spans across shards. */
module Shards {
  import opened Bytes
  import opened Crc32
  import opened RecordDecoder
  import opened Erasure
  import opened Geometry

  // ----- concatenation of equal-sized pieces

  function Flatten(xs: seq<seq<byte>>): seq<byte> {
    if xs == [] then [] else Flatten(xs[..|xs| - 1]) + xs[|xs| - 1]
  }

  lemma {:induction false} FlattenLength(xs: seq<seq<byte>>, size: nat)
    requires Equal(xs, size)
    ensures |Flatten(xs)| == |xs| * size
  {
    if xs != [] {
      FlattenLength(xs[..|xs| - 1], size);
      assert (|xs| - 1) * size + size == |xs| * size;
    }
  }

  /** Piece `i` of a sequence cut into pieces of `size` bytes. */
  function Piece(s: seq<byte>, size: nat, i: nat): (p: seq<byte>)
    requires (i + 1) * size <= |s|
    ensures |p| == size
  {
    assert (i + 1) * size == i * size + size;
    s[i * size..(i + 1) * size]
  }

  lemma {:induction false} FlattenPiece(xs: seq<seq<byte>>, size: nat, rest: seq<byte>, i: nat)
    requires Equal(xs, size) && i < |xs|
    ensures (i + 1) * size <= |Flatten(xs) + rest|
    ensures Piece(Flatten(xs) + rest, size, i) == xs[i]
  {
    FlattenLength(xs, size);
    MulLess(i + 1, |xs|, size);
    var init, last := xs[..|xs| - 1], xs[|xs| - 1];
    FlattenLength(init, size);
    assert Flatten(xs) + rest == Flatten(init) + (last + rest);
    if i < |init| {
      FlattenPiece(init, size, last + rest, i);
    } else {
      assert (i + 1) * size == i * size + size;
    }
  }

  /** The first `count` pieces. */
  function Pieces(s: seq<byte>, size: nat, count: nat): (ps: seq<seq<byte>>)
    requires count * size <= |s|
    ensures |ps| == count && Equal(ps, size)
  {
    seq(count, i requires 0 <= i < count => MulLess(i + 1, count, size); Piece(s, size, i))
  }

  lemma FlattenPieces(xs: seq<seq<byte>>, size: nat, rest: seq<byte>)
    requires Equal(xs, size)
    ensures |xs| * size <= |Flatten(xs) + rest|
    ensures Pieces(Flatten(xs) + rest, size, |xs|) == xs
  {
    FlattenLength(xs, size);
    forall i | 0 <= i < |xs| ensures Pieces(Flatten(xs) + rest, size, |xs|)[i] == xs[i] {
      FlattenPiece(xs, size, rest, i);
    }
  }

  lemma {:induction false} PiecesFlatten(s: seq<byte>, size: nat, count: nat)
    requires count * size <= |s|
    ensures Flatten(Pieces(s, size, count)) == s[..count * size]
  {
    var ps := Pieces(s, size, count);
    if count > 0 {
      MulLess(count - 1, count, size);
      assert count * size == (count - 1) * size + size;
      PiecesFlatten(s, size, count - 1);
      assert ps[..count - 1] == Pieces(s, size, count - 1);
      assert s[..count * size] == s[..(count - 1) * size] + Piece(s, size, count - 1);
    }
  }

  // ----- data shards

  /** The payload filled up with zeros to n whole shards. */
  function Padded(payload: seq<byte>, n: nat, size: nat): (p: seq<byte>)
    requires |payload| <= n * size
    ensures |p| == n * size
  {
    payload + Zeros(n * size - |payload|)
  }

  function DataShards(payload: seq<byte>, n: nat, size: nat): (d: seq<Shard>)
    requires |payload| <= n * size
    ensures |d| == n && Equal(d, size)
  {
    Pieces(Padded(payload, n, size), size, n)
  }

  lemma FlattenDataShards(payload: seq<byte>, n: nat, size: nat)
    requires |payload| <= n * size
    ensures Flatten(DataShards(payload, n, size)) == Padded(payload, n, size)
  {
    var p := Padded(payload, n, size);
    PiecesFlatten(p, size, n);
    assert p[..n * size] == p;
  }

  // ----- spans

  lemma DivBound(len: nat, size: nat)
    requires size > 0
    ensures len / size * size <= len < len / size * size + size
  {
  }

  lemma Locate(off: nat, n: nat, size: nat)
    requires size > 0 && off < n * size
    ensures off / size < n && off == off / size * size + off % size
  {
    DivBound(off, size);
    MulMonotone(n, off / size, size);
  }

  /** The first n slots cover payload offset `off` with an intact shard. */
  predicate Covered(slots: seq<ShardSlot>, n: nat, size: nat, off: nat)
    requires size > 0 && n <= |slots|
  {
    off / size < n && slots[off / size].Some?
  }

  predicate SpanIntact(slots: seq<ShardSlot>, n: nat, size: nat, off: nat, len: nat)
    requires size > 0 && n <= |slots|
  {
    forall j :: off <= j < off + len ==> Covered(slots, n, size, j)
  }

  function ByteAt(slots: seq<ShardSlot>, n: nat, size: nat, off: nat): byte
    requires size > 0 && n <= |slots| && SlotsEqual(slots, size)
    requires Covered(slots, n, size, off)
  {
    slots[off / size].value[off % size]
  }

  function Span(slots: seq<ShardSlot>, n: nat, size: nat, off: nat, len: nat): (s: seq<byte>)
    requires size > 0 && n <= |slots| && SlotsEqual(slots, size)
    requires SpanIntact(slots, n, size, off, len)
    ensures |s| == len
  {
    seq(len, i requires 0 <= i < len => ByteAt(slots, n, size, off + i))
  }

  lemma DataShardByte(payload: seq<byte>, n: nat, size: nat, off: nat)
    requires size > 0 && |payload| <= n * size && off < |payload|
    ensures off / size < n
    ensures DataShards(payload, n, size)[off / size][off % size] == payload[off]
  {
    Locate(off, n, size);
    var i := off / size;
    var p := Padded(payload, n, size);
    MulLess(i + 1, n, size);
    assert Piece(p, size, i)[off % size] == p[i * size + off % size];
  }

  lemma ByteIsPayload(slots: seq<ShardSlot>, parity: seq<Shard>, payload: seq<byte>, n: nat, size: nat, off: nat)
    requires size > 0 && |payload| <= n * size && off < |payload|
    requires Erases(slots, DataShards(payload, n, size) + parity) && SlotsEqual(slots, size)
    requires Covered(slots, n, size, off)
    ensures ByteAt(slots, n, size, off) == payload[off]
  {
    hide DataShards;
    DataShardByte(payload, n, size, off);
    assert (DataShards(payload, n, size) + parity)[off / size] == DataShards(payload, n, size)[off / size];
  }

  /** A span read through intact shards is the slice of the payload they were cut from. */
  lemma SpanIsPayload(
    slots: seq<ShardSlot>, parity: seq<Shard>, payload: seq<byte>, n: nat, size: nat, off: nat, len: nat)
    requires size > 0 && |payload| <= n * size && off + len <= |payload| && n <= |slots|
    requires Erases(slots, DataShards(payload, n, size) + parity) && SlotsEqual(slots, size)
    requires SpanIntact(slots, n, size, off, len)
    ensures Span(slots, n, size, off, len) == payload[off..off + len]
  {
    hide DataShards, ByteAt, Covered, Erases, SlotsEqual;
    forall i | 0 <= i < len ensures Span(slots, n, size, off, len)[i] == payload[off + i] {
      assert Covered(slots, n, size, off + i);
      ByteIsPayload(slots, parity, payload, n, size, off + i);
    }
  }

  // ----- the shard section

  function StrideHeader(i: nat, shard: Shard): (h: seq<byte>)
    ensures |h| == SHARD_HEADER_SIZE
  {
    LE(i, 2) + LE(Sum(shard), 4)
  }

  function Stride(i: nat, shard: Shard): (t: seq<byte>)
    ensures |t| == SHARD_HEADER_SIZE + |shard|
  {
    StrideHeader(i, shard) + shard
  }

  function Strides(shards: seq<Shard>): (ts: seq<seq<byte>>)
    ensures |ts| == |shards|
  {
    seq(|shards|, i requires 0 <= i < |shards| => Stride(i, shards[i]))
  }

  lemma StridesLength(shards: seq<Shard>, size: nat)
    requires Equal(shards, size)
    ensures |Flatten(Strides(shards))| == |shards| * (SHARD_HEADER_SIZE + size)
  {
    hide Stride, Flatten;
    FlattenLength(Strides(shards), SHARD_HEADER_SIZE + size);
  }

  function StrideIndex(t: seq<byte>): nat
    requires |t| >= SHARD_HEADER_SIZE
  {
    FromLE(t[0..2])
  }

  /** The stride names one of `total` slots and its shard verifies. */
  predicate StrideOk(t: seq<byte>, total: nat)
    requires |t| >= SHARD_HEADER_SIZE
  {
    StrideIndex(t) < total && Sum(t[SHARD_HEADER_SIZE..]) == FromLE(t[2..6])
  }

  /** The first acceptable stride for a slot fills it. */
  function Place(slots: seq<ShardSlot>, t: seq<byte>): (r: seq<ShardSlot>)
    requires |t| >= SHARD_HEADER_SIZE
    ensures |r| == |slots|
  {
    if !StrideOk(t, |slots|) || slots[StrideIndex(t)].Some? then slots
    else slots[StrideIndex(t) := Some(t[SHARD_HEADER_SIZE..])]
  }

  predicate AtLeast(ts: seq<seq<byte>>, size: nat) {
    forall i :: 0 <= i < |ts| ==> |ts[i]| >= size
  }

  function PlaceAll(ts: seq<seq<byte>>, total: nat): (r: seq<ShardSlot>)
    requires AtLeast(ts, SHARD_HEADER_SIZE)
    ensures |r| == total
  {
    if ts == [] then seq(total, _ => None)
    else Place(PlaceAll(ts[..|ts| - 1], total), ts[|ts| - 1])
  }

  /** How many whole pieces there are. */
  function WholePieces(len: nat, size: nat): (c: nat)
    requires size > 0
    ensures c * size <= len < c * size + size
  {
    DivBound(len, size);
    len / size
  }

  /** The whole strides of a shard section. */
  function StridesOf(sect: seq<byte>, size: nat): (ts: seq<seq<byte>>)
    ensures Equal(ts, SHARD_HEADER_SIZE + size)
  {
    hide Pieces, Equal, WholePieces;
    Pieces(sect, SHARD_HEADER_SIZE + size, WholePieces(|sect|, SHARD_HEADER_SIZE + size))
  }

  function ParseSection(sect: seq<byte>, total: nat, size: nat): (r: seq<ShardSlot>)
    ensures |r| == total
  {
    PlaceAll(StridesOf(sect, size), total)
  }

  lemma {:induction false} PlacedEqual(ts: seq<seq<byte>>, total: nat, size: nat)
    requires Equal(ts, SHARD_HEADER_SIZE + size)
    ensures SlotsEqual(PlaceAll(ts, total), size)
  {
    if ts != [] {
      hide Place, SlotsEqual;
      PlacedEqual(ts[..|ts| - 1], total, size);
      PlaceEqual(PlaceAll(ts[..|ts| - 1], total), ts[|ts| - 1], size);
    }
  }

  lemma PlaceEqual(slots: seq<ShardSlot>, t: seq<byte>, size: nat)
    requires SlotsEqual(slots, size) && |t| == SHARD_HEADER_SIZE + size
    ensures SlotsEqual(Place(slots, t), size)
  {
    hide StrideOk, StrideIndex;
  }

  lemma SectionEqual(sect: seq<byte>, total: nat, size: nat)
    ensures SlotsEqual(ParseSection(sect, total, size), size)
  {
    hide StridesOf;
    PlacedEqual(StridesOf(sect, size), total, size);
  }

  /** A section made of whole strides and a shorter rest is read stride by stride. */
  lemma SectionOfStrides(ts: seq<seq<byte>>, rest: seq<byte>, total: nat, size: nat)
    requires Equal(ts, SHARD_HEADER_SIZE + size) && |rest| < SHARD_HEADER_SIZE + size
    ensures ParseSection(Flatten(ts) + rest, total, size) == PlaceAll(ts, total)
  {
    var stride := SHARD_HEADER_SIZE + size;
    FlattenLength(ts, stride);
    DivModUnique(|Flatten(ts) + rest|, stride, |ts|, |rest|);
    FlattenPieces(ts, stride, rest);
  }

  // ----- damage

  lemma StrideAccepted(i: nat, shard: Shard, total: nat)
    requires i < total <= MAX_TOTAL_SHARDS
    ensures StrideOk(Stride(i, shard), total) && StrideIndex(Stride(i, shard)) == i
    ensures Stride(i, shard)[SHARD_HEADER_SIZE..] == shard
  {
    hide Sum, LE;
    var t := Stride(i, shard);
    assert t[0..2] == LE(i, 2) && t[2..6] == LE(Sum(shard), 4) && t[6..] == shard;
    FromLE2(i);
    FromLE4(Sum(shard));
  }

  /** The stride of shard `i` but for its CRC field, or but for four consecutive bytes of its data. */
  ghost predicate Spotted(t: seq<byte>, i: nat, shard: Shard) {
    exists at :: (at == 2 || at >= SHARD_HEADER_SIZE) && Burst(Stride(i, shard), t, at)
  }

  /** The data of a stride followed by the CRC that precedes it. */
  function Turned(t: seq<byte>): (r: seq<byte>)
    requires |t| >= SHARD_HEADER_SIZE
    ensures |r| == |t| - 2
  {
    t[SHARD_HEADER_SIZE..] + t[2..6]
  }

  lemma TurnedChecks(t: seq<byte>, total: nat)
    requires |t| >= SHARD_HEADER_SIZE
    ensures StrideOk(t, total) <==> StrideIndex(t) < total && Checks(Turned(t))
  {
    hide Sum, FromLE;
    var r := Turned(t);
    assert r[..|r| - 4] == t[SHARD_HEADER_SIZE..] && r[|r| - 4..] == t[2..6];
  }

  lemma TurnedBurst(s: seq<byte>, t: seq<byte>, at: nat)
    requires Burst(s, t, at) && |s| >= SHARD_HEADER_SIZE && (at == 2 || at >= SHARD_HEADER_SIZE)
    ensures Burst(Turned(s), Turned(t), if at == 2 then |s| - SHARD_HEADER_SIZE else at - SHARD_HEADER_SIZE)
    ensures Turned(s) == Turned(t) ==> s == t
  {
    var r, q := Turned(s), Turned(t);
    if r == q {
      assert s[SHARD_HEADER_SIZE..] == r[..|r| - 4] && t[SHARD_HEADER_SIZE..] == q[..|q| - 4];
      assert s[2..6] == r[|r| - 4..] && t[2..6] == q[|q| - 4..];
      assert s == s[..2] + s[2..6] + s[SHARD_HEADER_SIZE..];
      assert t == t[..2] + t[2..6] + t[SHARD_HEADER_SIZE..];
      assert s[..2] == t[..2];
    }
  }

  /** Such a stride is refused unless it is unchanged. */
  lemma SpottedRefused(t: seq<byte>, i: nat, shard: Shard, total: nat)
    requires i < total <= MAX_TOTAL_SHARDS && Spotted(t, i, shard) && t != Stride(i, shard)
    ensures |t| == SHARD_HEADER_SIZE + |shard| && !StrideOk(t, total)
  {
    hide StrideOk, Checks, Stride, Turned, Burst, StrideIndex;
    var s := Stride(i, shard);
    var at: nat :| (at == 2 || at >= SHARD_HEADER_SIZE) && Burst(s, t, at);
    BurstLength(s, t, at);
    StrideAccepted(i, shard, total);
    TurnedChecks(s, total);
    TurnedChecks(t, total);
    TurnedBurst(s, t, at);
    BurstDetected(Turned(s), Turned(t), if at == 2 then |s| - SHARD_HEADER_SIZE else at - SHARD_HEADER_SIZE);
  }

  lemma BurstLength(s: seq<byte>, t: seq<byte>, at: nat)
    requires Burst(s, t, at)
    ensures |s| == |t|
  {
  }

  /** The stride is shard `i` as written. */
  predicate IsOriginal(t: seq<byte>, shards: seq<Shard>, i: nat)
    requires i < |shards|
  {
    t == Stride(i, shards[i])
  }

  /** Every stride is one that was written or is refused; they may come in any order and number. */
  ghost predicate Damaged(ts: seq<seq<byte>>, shards: seq<Shard>, size: nat) {
    Equal(ts, SHARD_HEADER_SIZE + size) &&
    forall j :: 0 <= j < |ts| ==>
      (exists i :: 0 <= i < |shards| && IsOriginal(ts[j], shards, i)) || !StrideOk(ts[j], |shards|)
  }

  /** Shard `i` has an intact stride among `ts`. */
  predicate Kept(ts: seq<seq<byte>>, shards: seq<Shard>, i: nat)
    requires i < |shards|
  {
    exists j :: 0 <= j < |ts| && IsOriginal(ts[j], shards, i)
  }

  /** The slots in which exactly the kept shards are present. */
  ghost function Survivors(ts: seq<seq<byte>>, shards: seq<Shard>): seq<ShardSlot> {
    seq(|shards|, i requires 0 <= i < |shards| => if Kept(ts, shards, i) then Some(shards[i]) else None)
  }

  /** Exactly the shards with an intact stride are recovered from a damaged section. */
  lemma {:induction false} DamagedSection(ts: seq<seq<byte>>, shards: seq<Shard>, size: nat)
    requires Damaged(ts, shards, size) && |shards| <= MAX_TOTAL_SHARDS
    ensures PlaceAll(ts, |shards|) == Survivors(ts, shards)
  {
    hide Stride, StrideOk, StrideIndex;
    if ts != [] {
      var init, t := ts[..|ts| - 1], ts[|ts| - 1];
      DamagedSection(init, shards, size);
      forall i | 0 <= i < |shards|
        ensures Kept(ts, shards, i) <==> Kept(init, shards, i) || IsOriginal(t, shards, i)
      {
        KeptSnoc(init, t, shards, i);
        assert ts == init + [t];
      }
      forall i | 0 <= i < |shards| && IsOriginal(t, shards, i)
        ensures StrideOk(t, |shards|) && StrideIndex(t) == i && t[SHARD_HEADER_SIZE..] == shards[i]
      {
        StrideAccepted(i, shards[i], |shards|);
      }
    }
  }

  lemma KeptSnoc(init: seq<seq<byte>>, t: seq<byte>, shards: seq<Shard>, i: nat)
    requires i < |shards|
    ensures Kept(init + [t], shards, i) <==> Kept(init, shards, i) || IsOriginal(t, shards, i)
  {
    var ts := init + [t];
    if IsOriginal(t, shards, i) {
      assert IsOriginal(ts[|init|], shards, i);
    }
    if Kept(init, shards, i) {
      var j :| 0 <= j < |init| && IsOriginal(init[j], shards, i);
      assert IsOriginal(ts[j], shards, i);
    }
  }

  lemma AllKept(shards: seq<Shard>, size: nat)
    requires Equal(shards, size)
    ensures Damaged(Strides(shards), shards, size)
    ensures forall i :: 0 <= i < |shards| ==> Kept(Strides(shards), shards, i)
  {
    var ts := Strides(shards);
    hide Stride;
    forall i | 0 <= i < |shards| ensures IsOriginal(ts[i], shards, i) && Kept(ts, shards, i) {
      assert ts[i] == Stride(i, shards[i]);
    }
  }

  // ----- a stride whose index field was rewritten

  /** A stride reads back whatever index it carries, and is refused only where that names no slot. */
  lemma StrideReads(j: nat, shard: Shard, total: nat)
    requires j < 0x1_0000
    ensures StrideIndex(Stride(j, shard)) == j && (StrideOk(Stride(j, shard), total) <==> j < total)
    ensures Stride(j, shard)[SHARD_HEADER_SIZE..] == shard
  {
    hide Sum, LE;
    var t := Stride(j, shard);
    assert t[0..2] == LE(j, 2) && t[2..6] == LE(Sum(shard), 4) && t[6..] == shard;
    FromLE2(j);
    FromLE4(Sum(shard));
  }

  /** The section as written, but for the index of stride `i`, which now reads `j`. */
  function Reindexed(shards: seq<Shard>, i: nat, j: nat): (ts: seq<seq<byte>>)
    requires i < |shards|
    ensures |ts| == |shards| && AtLeast(ts, SHARD_HEADER_SIZE)
  {
    hide Stride;
    Strides(shards)[i := Stride(j, shards[i])]
  }

  /** The slots once the first `c` strides are placed: slot `j` goes to whichever of the strides i and j comes first. */
  function ReindexedSlots(shards: seq<Shard>, i: nat, j: nat, c: nat): (slots: seq<ShardSlot>)
    requires i < |shards|
    ensures |slots| == |shards|
  {
    seq(|shards|, x requires 0 <= x < |shards| =>
      if x == j && i < j then (if i < c then Some(shards[i]) else None)
      else if x < c && x != i then Some(shards[x])
      else None)
  }

  lemma {:induction false} ReindexedPlaced(shards: seq<Shard>, i: nat, j: nat, c: nat)
    requires i < |shards| && j < 0x1_0000 && i != j && c <= |shards| <= MAX_TOTAL_SHARDS
    ensures PlaceAll(Reindexed(shards, i, j)[..c], |shards|) == ReindexedSlots(shards, i, j, c)
  {
    hide Reindexed, Place, ReindexedSlots;
    var ts := Reindexed(shards, i, j);
    if c > 0 {
      ReindexedPlaced(shards, i, j, c - 1);
      assert ts[..c][..c - 1] == ts[..c - 1];
      ReindexedNext(shards, i, j, c - 1);
    } else {
      assert ts[..0] == [];
      NothingPlaced(shards, i, j);
    }
  }

  lemma NothingPlaced(shards: seq<Shard>, i: nat, j: nat)
    requires i < |shards|
    ensures PlaceAll([], |shards|) == ReindexedSlots(shards, i, j, 0)
  {
  }

  lemma ReindexedNext(shards: seq<Shard>, i: nat, j: nat, c: nat)
    requires i < |shards| && j < 0x1_0000 && i != j && c < |shards| <= MAX_TOTAL_SHARDS
    ensures Place(ReindexedSlots(shards, i, j, c), Reindexed(shards, i, j)[c]) == ReindexedSlots(shards, i, j, c + 1)
  {
    hide Stride, StrideIndex, StrideOk;
    if c == i {
      StrideReads(j, shards[i], |shards|);
    } else {
      StrideReads(c, shards[c], |shards|);
    }
  }

  /**
   * The section with a rewritten index still parses to nothing but erasures exactly when the slot named is none, was
   * filled before, or is due the very same bytes: the guard that keeps the first stride of a slot.
   */
  lemma ReindexedErases(shards: seq<Shard>, i: nat, j: nat)
    requires i < |shards| && j < 0x1_0000 && i != j && |shards| <= MAX_TOTAL_SHARDS
    ensures var slots := PlaceAll(Reindexed(shards, i, j), |shards|);
            slots == ReindexedSlots(shards, i, j, |shards|) &&
            (Erases(slots, shards) <==> j >= |shards| || j < i || shards[i] == shards[j])
  {
    hide Stride, StrideOk, PlaceAll, Reindexed;
    ReindexedPlaced(shards, i, j, |shards|);
    var ts := Reindexed(shards, i, j);
    assert ts[..|shards|] == ts;
    SlotsErase(shards, i, j);
  }

  lemma SlotsErase(shards: seq<Shard>, i: nat, j: nat)
    requires i < |shards| && i != j
    ensures Erases(ReindexedSlots(shards, i, j, |shards|), shards) <==> j >= |shards| || j < i || shards[i] == shards[j]
  {
    var slots := ReindexedSlots(shards, i, j, |shards|);
    if i < j < |shards| {
      assert slots[j] == Some(shards[i]);
    }
  }

  lemma ReindexedMissing(shards: seq<Shard>, i: nat, j: nat)
    requires i < |shards| && i != j
    ensures Missing(ReindexedSlots(shards, i, j, |shards|)) <= 1
  {
    MissingOne(ReindexedSlots(shards, i, j, |shards|), i);
  }

  // ----- one changed byte in a section

  lemma PieceByte(s: seq<byte>, size: nat, i: nat, y: nat)
    requires (i + 1) * size <= |s| && y < size
    ensures i * size + y < |s| && Piece(s, size, i)[y] == s[i * size + y]
  {
  }

  /** Where a byte of a row of equal pieces lies. */
  lemma WhereInPieces(len: nat, count: nat, size: nat, off: nat)
    requires size > 0 && len == count * size && off < len
    ensures off / size < count && (off / size + 1) * size <= len
  {
    Locate(off, count, size);
    MulLess(off / size + 1, count, size);
  }

  lemma OneByteInPieces(ts: seq<seq<byte>>, sect: seq<byte>, size: nat, off: nat, q: nat)
    requires size > 0 && Equal(ts, size) && OneByte(Flatten(ts), sect, off) && q == off / size
    requires |sect| == |ts| * size && q < |ts| && (q + 1) * size <= |sect|
    ensures OneByte(ts[q], Piece(sect, size, q), off % size) && sect == Flatten(ts[q := Piece(sect, size, q)])
  {
    hide Flatten, OneByte, Piece;
    FlattenLength(ts, size);
    OneByteInPiece(ts, sect, size, off, q);
    var us := ts[q := Piece(sect, size, q)];
    forall x | 0 <= x < |us| ensures (x + 1) * size <= |sect| && Piece(sect, size, x) == us[x] {
      MulLess(x + 1, |us|, size);
      OneByteInPiece(ts, sect, size, off, x);
    }
    PiecesAre(sect, size, us);
    PiecesFlatten(sect, size, |us|);
    assert sect[..|us| * size] == sect;
  }

  lemma PiecesAre(s: seq<byte>, size: nat, ps: seq<seq<byte>>)
    requires |ps| * size <= |s|
    requires forall x :: 0 <= x < |ps| ==> (x + 1) * size <= |s| && Piece(s, size, x) == ps[x]
    ensures Pieces(s, size, |ps|) == ps
  {
  }

  lemma OneByteLength(p: seq<byte>, q: seq<byte>, at: nat)
    requires OneByte(p, q, at)
    ensures at < |p| == |q|
  {
  }

  lemma OneByteInPiece(ts: seq<seq<byte>>, sect: seq<byte>, size: nat, off: nat, x: nat)
    requires size > 0 && Equal(ts, size) && OneByte(Flatten(ts), sect, off) && x < |ts|
    requires |sect| == |Flatten(ts)| && (x + 1) * size <= |sect|
    ensures if x == off / size then OneByte(ts[x], Piece(sect, size, x), off % size) else Piece(sect, size, x) == ts[x]
  {
    hide Flatten, Piece;
    var f, p := Flatten(ts), Piece(sect, size, x);
    FlattenPiece(ts, size, [], x);
    assert f + [] == f;
    forall y | 0 <= y < size
      ensures if x == off / size && y == off % size then p[y] != ts[x][y] else p[y] == ts[x][y]
    {
      PieceByte(sect, size, x, y);
      PieceByte(f, size, x, y);
      if x * size + y == off {
        DivModUnique(off, size, x, y);
      } else {
        DivBound(off, size);
      }
    }
    ModBound(off, size);
  }

  lemma ModBound(v: nat, d: nat)
    requires d > 0
    ensures v % d < d && v == v / d * d + v % d
  {
  }

  /** A stride with one changed byte: damage its CRC is sure to detect, or another index. */
  lemma OneByteStride(t: seq<byte>, i: nat, shard: Shard, at: nat)
    requires i < 0x1_0000 && |shard| >= 4 && OneByte(Stride(i, shard), t, at)
    ensures at >= 2 ==> Spotted(t, i, shard) && t != Stride(i, shard)
    ensures at < 2 ==> |t| >= SHARD_HEADER_SIZE && StrideIndex(t) < 0x1_0000 && StrideIndex(t) != i &&
                       t == Stride(StrideIndex(t), shard)
  {
    hide FromLE, LE, Sum;
    var s := Stride(i, shard);
    if at >= 2 {
      assert Burst(s, t, if at < SHARD_HEADER_SIZE then 2 else if at + 4 <= |t| then at else |t| - 4);
    } else {
      var j := StrideIndex(t);
      FromLEBound(t[0..2]);
      Pow256Values();
      LEOfFromLE(t[0..2]);
      assert t[2..] == s[2..] == LE(Sum(shard), 4) + shard;
      assert t == t[0..2] + t[2..] == Stride(j, shard);
      assert t[at] != s[at];
    }
  }
}
