/**
 * The goroutine fan-out as a transition system. Each worker owns the records between two bounds and performs
 * one write at a time; workers may be interleaved in any way. Every complete run ends in the bytes of a
 * single sequential pass.
 */
module Schedule {
  import opened Bytes
  import opened Crc32
  import opened Records
  import opened WireFormat
  import opened Images
  import opened Erasure
  import opened Geometry
  import opened Shards
  import opened Serializer
  import opened ShardWriter

  // ----- how the list is shared out

  /** Worker w owns the positions from bounds[w] to bounds[w + 1]. */
  predicate Bounds(bounds: seq<nat>, len: nat) {
    |bounds| > 0 && bounds[0] == 0 && bounds[|bounds| - 1] == len &&
    forall i, j :: 0 <= i <= j < |bounds| ==> bounds[i] <= bounds[j]
  }

  /** The bounds the spawning loop hands out from `lo` on. */
  function ChunkBounds(lo: nat, len: nat, chunk: nat): (b: seq<nat>)
    requires lo <= len && chunk > 0
    ensures |b| > 0 && b[0] == lo && b[|b| - 1] == len
    ensures forall i, j :: 0 <= i <= j < |b| ==> b[i] <= b[j]
    decreases len - lo
  {
    if lo == len then [lo] else [lo] + ChunkBounds(Min(lo + chunk, len), len, chunk)
  }

  /** The chunks partition the list, and there are no more of them than workers. */
  lemma ChunksPartition(len: nat, workers: nat)
    requires workers > 1 && len >= workers
    ensures Bounds(ChunkBounds(0, len, ChunkSize(len, workers)), len)
    ensures |ChunkBounds(0, len, ChunkSize(len, workers))| <= workers + 1
  {
    CeilBounds(len, workers);
    ChunkCount(0, len, ChunkSize(len, workers), workers);
  }

  lemma {:induction false} ChunkCount(lo: nat, len: nat, chunk: nat, workers: nat)
    requires lo <= len && chunk > 0 && len - lo <= workers * chunk
    ensures |ChunkBounds(lo, len, chunk)| <= workers + 1
    decreases len - lo
  {
    if lo < len {
      OneLess(workers, chunk);
      ChunkCount(Min(lo + chunk, len), len, chunk, workers - 1);
    }
  }

  lemma OneLess(workers: nat, chunk: nat)
    requires workers * chunk > 0
    ensures workers > 0 && (workers - 1) * chunk == workers * chunk - chunk
  {
  }

  /** All chunks are full but the last, which takes what is left. */
  lemma {:induction false} ChunkSizes(lo: nat, len: nat, chunk: nat, w: nat)
    requires lo < len && chunk > 0 && w + 1 < |ChunkBounds(lo, len, chunk)|
    ensures var b := ChunkBounds(lo, len, chunk);
            b[w + 1] - b[w] == if w + 2 < |b| then chunk else LastChunk(len - lo, chunk)
    decreases len - lo
  {
    hide ChunkBounds, LastChunk;
    var next := Min(lo + chunk, len);
    var b, c := ChunkBounds(lo, len, chunk), ChunkBounds(next, len, chunk);
    NextChunk(lo, len, chunk);
    assert b == [lo] + c;
    LastChunkStep(len - lo, chunk);
    if next == len {
      NextChunk(len, len, chunk);
    } else {
      assert c[0] != c[|c| - 1];
      if w > 0 {
        ChunkSizes(next, len, chunk, w - 1);
      }
    }
  }

  /** What the last of the chunks of `len` records takes. */
  function LastChunk(len: nat, chunk: nat): nat
    requires len > 0 && chunk > 0
  {
    (len - 1) % chunk + 1
  }

  lemma LastChunkStep(len: nat, chunk: nat)
    requires len > 0 && chunk > 0
    ensures LastChunk(len, chunk) == if len <= chunk then len else LastChunk(len - chunk, chunk)
  {
    if len <= chunk {
      SmallMod(len - 1, chunk);
    } else {
      OneChunkLess(len - 1, chunk);
    }
  }

  lemma SmallMod(v: nat, d: nat)
    requires v < d
    ensures v % d == v
  {
  }

  lemma OneChunkLess(v: nat, d: nat)
    requires 0 < d <= v
    ensures (v - d) % d == v % d
  {
    DivModUnique(v, d, (v - d) / d + 1, (v - d) % d);
  }

  /**
   * No more workers are spawned than there are processors. Each serializes at least 128 records, as the cap on their
   * number intends, exactly when the last one does: the others always do.
   */
  lemma EnoughWork(procs: nat, len: nat)
    requires Workers(procs, len) > 1
    ensures len >= Workers(procs, len)
    ensures var chunk := ChunkSize(len, Workers(procs, len));
            var b := ChunkBounds(0, len, chunk);
            chunk >= 128 && 2 <= |b| <= procs + 1 &&
            (forall w :: 0 <= w < |b| - 2 ==> b[w + 1] - b[w] >= 128) &&
            ((forall w :: 0 <= w < |b| - 1 ==> b[w + 1] - b[w] >= 128) <==> (len - 1) % chunk >= 127)
  {
    hide ChunkBounds, ChunkSize;
    var workers := Workers(procs, len);
    AtLeastMinimum(len, workers);
    var chunk := ChunkSize(len, workers);
    var b := ChunkBounds(0, len, chunk);
    assert b[0] != b[|b| - 1];
    ChunksPartition(len, workers);
    forall w | 0 <= w < |b| - 1
      ensures b[w + 1] - b[w] == if w + 2 < |b| then chunk else (len - 1) % chunk + 1
    {
      ChunkSizes(0, len, chunk, w);
    }
    assert b[|b| - 2 + 1] - b[|b| - 2] == (len - 1) % chunk + 1;
  }

  lemma AtLeastMinimum(len: nat, workers: nat)
    requires 1 < workers <= len / 128
    ensures len >= workers && ChunkSize(len, workers) >= 128
  {
    CeilBounds(len, workers);
    if ChunkSize(len, workers) < 128 {
      MulMonotone(ChunkSize(len, workers), 127, workers);
      MulMonotone(workers, len / 128, 128);
    }
  }

  /** Three workers for 385 records: two serialize 129 each, the third 127. */
  lemma LastWorkerShort()
    ensures Workers(3, 385) == 3 && ChunkBounds(0, 385, ChunkSize(385, 3)) == [0, 129, 258, 385]
  {
    hide ChunkBounds;
    assert ChunkSize(385, 3) == 129;
    NextChunk(0, 385, 129);
    NextChunk(129, 385, 129);
    NextChunk(258, 385, 129);
    NextChunk(385, 385, 129);
  }

  lemma NextChunk(lo: nat, len: nat, chunk: nat)
    requires lo <= len && chunk > 0
    ensures ChunkBounds(lo, len, chunk)
         == [lo] + if lo == len then [] else ChunkBounds(Min(lo + chunk, len), len, chunk)
  {
  }

  // ----- writers of disjoint spans

  /** Every writer has put the right bytes from the start of its span up to its position. */
  ghost predicate Consistent(target: seq<byte>, dst: seq<byte>, bounds: seq<nat>, pos: seq<nat>) {
    Bounds(bounds, |target|) && |dst| == |target| && |pos| + 1 == |bounds| &&
    forall w :: 0 <= w < |pos| ==> Correct(target, dst, bounds[w], pos[w], bounds[w + 1])
  }

  predicate Correct(target: seq<byte>, dst: seq<byte>, lo: nat, pos: nat, hi: nat)
    requires |dst| == |target|
  {
    lo <= pos <= hi <= |target| && dst[lo..pos] == target[lo..pos]
  }

  lemma ConsistentAt(target: seq<byte>, dst: seq<byte>, bounds: seq<nat>, pos: seq<nat>, w: nat)
    requires Consistent(target, dst, bounds, pos) && w < |pos|
    ensures |bounds| == |pos| + 1 && |dst| == |target| && Correct(target, dst, bounds[w], pos[w], bounds[w + 1])
  {
  }

  lemma Within(target: seq<byte>, dst: seq<byte>, lo: nat, pos: nat, hi: nat)
    requires |dst| == |target| && Correct(target, dst, lo, pos, hi)
    ensures lo <= pos <= hi <= |target|
  {
  }

  lemma OwnWrite(target: seq<byte>, dst: seq<byte>, lo: nat, pos: nat, hi: nat, n: nat)
    requires |dst| == |target| && Correct(target, dst, lo, pos, hi) && pos + n <= hi
    ensures Correct(target, Splice(dst, pos, target[pos..pos + n]), lo, pos + n, hi)
  {
    hide Splice;
    var t := target[pos..pos + n];
    var dst' := Splice(dst, pos, t);
    SpliceOutside(dst, pos, t, lo, pos - lo);
    SpliceInside(dst, pos, t);
    SplitSlice(dst', lo, pos, pos + n);
    SplitSlice(target, lo, pos, pos + n);
  }

  lemma OtherWrite(target: seq<byte>, dst: seq<byte>, lo: nat, pos: nat, hi: nat, otherLo: nat, at: nat, n: nat)
    requires |dst| == |target| && Correct(target, dst, lo, pos, hi) && otherLo <= at && at + n <= |target|
    requires hi <= otherLo || at + n <= lo
    ensures Correct(target, Splice(dst, at, target[at..at + n]), lo, pos, hi)
  {
    hide Splice;
    SpliceOutside(dst, at, target[at..at + n], lo, pos - lo);
  }

  /** One right write by one writer inside its own span keeps everybody consistent. */
  lemma WriteConsistent(target: seq<byte>, dst: seq<byte>, bounds: seq<nat>, pos: seq<nat>, w: nat, n: nat)
    requires Consistent(target, dst, bounds, pos) && w < |pos| && pos[w] + n <= bounds[w + 1]
    ensures pos[w] + n <= |target|
    ensures Consistent(target, Splice(dst, pos[w], target[pos[w]..pos[w] + n]), bounds, pos[w := pos[w] + n])
  {
    hide Correct, Splice;
    ConsistentAt(target, dst, bounds, pos, w);
    Within(target, dst, bounds[w], pos[w], bounds[w + 1]);
    var dst' := Splice(dst, pos[w], target[pos[w]..pos[w] + n]);
    forall u | 0 <= u < |pos|
      ensures Correct(target, dst', bounds[u], pos[w := pos[w] + n][u], bounds[u + 1])
    {
      ConsistentAt(target, dst, bounds, pos, u);
      if u == w {
        OwnWrite(target, dst, bounds[w], pos[w], bounds[w + 1], n);
      } else {
        assert if u < w then bounds[u + 1] <= bounds[w] else bounds[w + 1] <= bounds[u];
        OtherWrite(target, dst, bounds[u], pos[u], bounds[u + 1], bounds[w], pos[w], n);
      }
    }
  }

  /** When every writer is done, the spans add up to the whole target. */
  lemma AllWritten(target: seq<byte>, dst: seq<byte>, bounds: seq<nat>, pos: seq<nat>)
    requires Consistent(target, dst, bounds, pos)
    requires forall w :: 0 <= w < |pos| ==> pos[w] == bounds[w + 1]
    ensures dst == target
  {
    WrittenUpTo(target, dst, bounds, pos, |pos|);
    assert dst[..|dst|] == dst && target[..|target|] == target;
  }

  lemma {:induction false} WrittenUpTo(target: seq<byte>, dst: seq<byte>, bounds: seq<nat>, pos: seq<nat>, w: nat)
    requires Consistent(target, dst, bounds, pos) && w <= |pos|
    requires forall u :: 0 <= u < |pos| ==> pos[u] == bounds[u + 1]
    ensures bounds[w] <= |target| && dst[..bounds[w]] == target[..bounds[w]]
  {
    if w > 0 {
      WrittenUpTo(target, dst, bounds, pos, w - 1);
      assert Correct(target, dst, bounds[w - 1], pos[w - 1], bounds[w]);
      assert dst[..bounds[w]] == dst[..bounds[w - 1]] + dst[bounds[w - 1]..bounds[w]];
      assert target[..bounds[w]] == target[..bounds[w - 1]] + target[bounds[w - 1]..bounds[w]];
    }
  }

  // ----- writeRecords: index, data, then a CRC read back from the destination

  datatype Phase = AtIndex | AtData | AtCrc

  /** The next write of a worker. */
  datatype Cursor = Cursor(rec: nat, phase: Phase)

  datatype FlatState = FlatState(dst: seq<byte>, cursors: seq<Cursor>)

  function Position(crc: bool, c: Cursor): nat {
    Offset(crc, c.rec) + match c.phase case AtIndex => 0 case AtData => 8 case AtCrc => L0_RECORD_SIZE
  }

  function Positions(crc: bool, cursors: seq<Cursor>): seq<nat> {
    seq(|cursors|, w requires 0 <= w < |cursors| => Position(crc, cursors[w]))
  }

  function ByteBounds(crc: bool, bounds: seq<nat>): seq<nat> {
    seq(|bounds|, w requires 0 <= w < |bounds| => Offset(crc, bounds[w]))
  }

  function Advance(crc: bool, c: Cursor): Cursor {
    match c.phase
    case AtIndex => Cursor(c.rec, AtData)
    case AtData => if crc then Cursor(c.rec, AtCrc) else Cursor(c.rec + 1, AtIndex)
    case AtCrc => Cursor(c.rec + 1, AtIndex)
  }

  /** What the worker writes next; the CRC is taken of the bytes found in the destination. */
  function NextWrite(m: Overlay, idxs: seq<int>, crc: bool, dst: seq<byte>, c: Cursor): (s: seq<byte>)
    requires Holds(m, idxs) && c.rec < |idxs| && |dst| == Offset(crc, |idxs|)
    ensures |s| == match c.phase case AtIndex => 8 case AtData => BLOCK_SIZE case AtCrc => 4
  {
    hide LE, Sum;
    match c.phase
    case AtIndex => LE(idxs[c.rec], 8)
    case AtData => m[idxs[c.rec]]
    case AtCrc => LE(Sum(dst[Offset(crc, c.rec)..Offset(crc, c.rec) + L0_RECORD_SIZE]), 4)
  }

  /** The destination after the write. */
  function Written(m: Overlay, idxs: seq<int>, crc: bool, dst: seq<byte>, c: Cursor): (r: seq<byte>)
    requires Holds(m, idxs) && c.rec < |idxs| && |dst| == Offset(crc, |idxs|) && (c.phase == AtCrc ==> crc)
    ensures |r| == |dst|
  {
    hide Holds, Splice, NextWrite;
    OffsetMonotone(crc, c.rec + 1, |idxs|);
    Splice(dst, Position(crc, c), NextWrite(m, idxs, crc, dst, c))
  }

  /** Worker w, with records left to write, performs its next write. */
  ghost predicate FlatStep(m: Overlay, idxs: seq<int>, crc: bool, bounds: seq<nat>, s: FlatState, s': FlatState, w: nat)
    requires Holds(m, idxs) && Bounds(bounds, |idxs|)
  {
    |s.dst| == Offset(crc, |idxs|) && |s.cursors| + 1 == |bounds| && w < |s.cursors| &&
    s.cursors[w].rec < bounds[w + 1] && s.cursors[w].rec < |idxs| && (s.cursors[w].phase == AtCrc ==> crc) &&
    s' == FlatState(Written(m, idxs, crc, s.dst, s.cursors[w]), s.cursors[w := Advance(crc, s.cursors[w])])
  }

  /** Some worker performs its next write. */
  ghost predicate FlatNext(m: Overlay, idxs: seq<int>, crc: bool, bounds: seq<nat>, s: FlatState, s': FlatState)
    requires Holds(m, idxs) && Bounds(bounds, |idxs|)
  {
    exists w :: FlatStep(m, idxs, crc, bounds, s, s', w)
  }

  ghost predicate FlatStart(bounds: seq<nat>, crc: bool, len: nat, s: FlatState)
    requires Bounds(bounds, len)
  {
    |s.dst| == Offset(crc, len) && |s.cursors| + 1 == |bounds| &&
    forall w :: 0 <= w < |s.cursors| ==> s.cursors[w] == Cursor(bounds[w], AtIndex)
  }

  ghost predicate FlatDone(bounds: seq<nat>, s: FlatState) {
    |s.cursors| + 1 == |bounds| && forall w :: 0 <= w < |s.cursors| ==> s.cursors[w] == Cursor(bounds[w + 1], AtIndex)
  }

  ghost predicate FlatRun(m: Overlay, idxs: seq<int>, crc: bool, bounds: seq<nat>, run: seq<FlatState>)
    requires Holds(m, idxs) && Bounds(bounds, |idxs|)
  {
    |run| > 0 && FlatStart(bounds, crc, |idxs|, run[0]) &&
    forall i :: 0 <= i < |run| - 1 ==> FlatNext(m, idxs, crc, bounds, run[i], run[i + 1])
  }

  ghost predicate FlatInvariant(m: Overlay, idxs: seq<int>, crc: bool, bounds: seq<nat>, s: FlatState)
    requires Holds(m, idxs) && Bounds(bounds, |idxs|)
  {
    |s.cursors| + 1 == |bounds| &&
    (forall w :: 0 <= w < |s.cursors| ==> bounds[w] <= s.cursors[w].rec && (s.cursors[w].phase == AtCrc ==> crc)) &&
    Consistent(Flat(m, idxs, crc), s.dst, ByteBounds(crc, bounds), Positions(crc, s.cursors))
  }

  lemma ByteBoundsOf(crc: bool, bounds: seq<nat>, len: nat)
    requires Bounds(bounds, len)
    ensures Bounds(ByteBounds(crc, bounds), Offset(crc, len))
  {
  }

  lemma FlatStarts(m: Overlay, idxs: seq<int>, crc: bool, bounds: seq<nat>, s: FlatState)
    requires Holds(m, idxs) && Bounds(bounds, |idxs|) && FlatStart(bounds, crc, |idxs|, s)
    ensures FlatInvariant(m, idxs, crc, bounds, s)
  {
    hide Flat;
    ByteBoundsOf(crc, bounds, |idxs|);
    var t, b, pos := Flat(m, idxs, crc), ByteBounds(crc, bounds), Positions(crc, s.cursors);
    forall w | 0 <= w < |pos| ensures Correct(t, s.dst, b[w], pos[w], b[w + 1]) {
      assert s.cursors[w] == Cursor(bounds[w], AtIndex);
      assert bounds[w] <= bounds[w + 1];
    }
  }

  /** The record's bytes fall into the three pieces a worker writes. */
  lemma RecordPieces(m: Overlay, idxs: seq<int>, crc: bool, i: nat)
    requires Holds(m, idxs) && i < |idxs|
    ensures Offset(crc, i + 1) <= Offset(crc, |idxs|)
    ensures var t, off := Flat(m, idxs, crc), Offset(crc, i);
            t[off..off + 8] == LE(idxs[i], 8) && t[off + 8..off + L0_RECORD_SIZE] == m[idxs[i]] &&
            (crc ==> t[off + L0_RECORD_SIZE..off + L1_RECORD_SIZE] == LE(Sum(t[off..off + L0_RECORD_SIZE]), 4))
  {
    hide Flat, Sum, LE;
    var t, off := Flat(m, idxs, crc), Offset(crc, i);
    FlatAt(m, idxs, crc, i);
    var e := Encode(idxs[i], m[idxs[i]], crc);
    SliceOfSlice(t, off, Offset(crc, i + 1), 8);
    SliceOfSlice(t, off, Offset(crc, i + 1), L0_RECORD_SIZE);
    assert e[..8] == LE(idxs[i], 8) && e[..L0_RECORD_SIZE] == LE(idxs[i], 8) + m[idxs[i]];
    assert t[off + 8..off + L0_RECORD_SIZE] == t[off..off + L0_RECORD_SIZE][8..];
    if crc {
      assert e[L0_RECORD_SIZE..] == LE(Sum(LE(idxs[i], 8) + m[idxs[i]]), 4);
      assert t[off + L0_RECORD_SIZE..off + L1_RECORD_SIZE] == t[off..Offset(crc, i + 1)][L0_RECORD_SIZE..];
    }
  }

  /** A worker's next write is the target's next piece, even though its CRC is read back. */
  lemma NextWriteRight(m: Overlay, idxs: seq<int>, crc: bool, dst: seq<byte>, c: Cursor, lo: nat)
    requires Holds(m, idxs) && c.rec < |idxs| && lo <= c.rec && (c.phase == AtCrc ==> crc)
    requires |dst| == Offset(crc, |idxs|) && Position(crc, c) <= |dst|
    requires dst[Offset(crc, lo)..Position(crc, c)] == Flat(m, idxs, crc)[Offset(crc, lo)..Position(crc, c)]
    ensures Position(crc, c) < Position(crc, Advance(crc, c)) <= Offset(crc, c.rec + 1) <= |dst|
    ensures NextWrite(m, idxs, crc, dst, c) == Flat(m, idxs, crc)[Position(crc, c)..Position(crc, Advance(crc, c))]
  {
    hide Flat, Sum, LE;
    RecordPieces(m, idxs, crc, c.rec);
    if c.phase == AtCrc {
      var t, off := Flat(m, idxs, crc), Offset(crc, c.rec);
      var a, b := dst[Offset(crc, lo)..Position(crc, c)], t[Offset(crc, lo)..Position(crc, c)];
      assert a[off - Offset(crc, lo)..] == dst[off..off + L0_RECORD_SIZE];
      assert b[off - Offset(crc, lo)..] == t[off..off + L0_RECORD_SIZE];
    }
  }

  lemma OffsetMonotone(crc: bool, i: nat, j: nat)
    requires i <= j
    ensures Offset(crc, i) <= Offset(crc, j)
  {
  }

  lemma PositionsUpdate(crc: bool, cursors: seq<Cursor>, w: nat, c: Cursor)
    requires w < |cursors|
    ensures Positions(crc, cursors[w := c]) == Positions(crc, cursors)[w := Position(crc, c)]
  {
    hide Position;
  }

  lemma FlatKeeps(m: Overlay, idxs: seq<int>, crc: bool, bounds: seq<nat>, s: FlatState, s': FlatState, w: nat)
    requires Holds(m, idxs) && Bounds(bounds, |idxs|)
    requires FlatInvariant(m, idxs, crc, bounds, s) && FlatStep(m, idxs, crc, bounds, s, s', w)
    ensures FlatInvariant(m, idxs, crc, bounds, s')
  {
    hide Flat, NextWrite, Position, Offset, Consistent, Splice, Holds;
    var t, b, pos := Flat(m, idxs, crc), ByteBounds(crc, bounds), Positions(crc, s.cursors);
    var c := s.cursors[w];
    ConsistentAt(t, s.dst, b, pos, w);
    NextWriteRight(m, idxs, crc, s.dst, c, bounds[w]);
    OffsetMonotone(crc, c.rec + 1, bounds[w + 1]);
    WriteConsistent(t, s.dst, b, pos, w, Position(crc, Advance(crc, c)) - pos[w]);
    PositionsUpdate(crc, s.cursors, w, Advance(crc, c));
  }

  lemma {:induction false} FlatRunKeeps(
    m: Overlay, idxs: seq<int>, crc: bool, bounds: seq<nat>, run: seq<FlatState>, i: nat)
    requires Holds(m, idxs) && Bounds(bounds, |idxs|) && FlatRun(m, idxs, crc, bounds, run) && i < |run|
    ensures FlatInvariant(m, idxs, crc, bounds, run[i])
  {
    hide FlatInvariant, FlatStep, FlatStart;
    if i == 0 {
      FlatStarts(m, idxs, crc, bounds, run[0]);
    } else {
      FlatRunKeeps(m, idxs, crc, bounds, run, i - 1);
      assert FlatNext(m, idxs, crc, bounds, run[i - 1], run[i - 1 + 1]);
      var w: nat :| FlatStep(m, idxs, crc, bounds, run[i - 1], run[i], w);
      FlatKeeps(m, idxs, crc, bounds, run[i - 1], run[i], w);
    }
  }

  /**
   * Schedule independence of writeRecords: whatever the number of workers and however their writes are
   * interleaved, a run in which all workers finish leaves exactly the bytes of the sequential pass.
   */
  lemma AnyScheduleFlat(m: Overlay, idxs: seq<int>, crc: bool, bounds: seq<nat>, run: seq<FlatState>)
    requires Holds(m, idxs) && Bounds(bounds, |idxs|) && FlatRun(m, idxs, crc, bounds, run)
    requires FlatDone(bounds, run[|run| - 1])
    ensures run[|run| - 1].dst == Flat(m, idxs, crc)
  {
    hide Flat, FlatRun, Correct;
    RunNotEmpty(m, idxs, crc, bounds, run);
    var s := run[|run| - 1];
    FlatRunKeeps(m, idxs, crc, bounds, run, |run| - 1);
    AllWritten(Flat(m, idxs, crc), s.dst, ByteBounds(crc, bounds), Positions(crc, s.cursors));
  }

  lemma RunNotEmpty(m: Overlay, idxs: seq<int>, crc: bool, bounds: seq<nat>, run: seq<FlatState>)
    requires Holds(m, idxs) && Bounds(bounds, |idxs|) && FlatRun(m, idxs, crc, bounds, run)
    ensures |run| > 0
  {
  }

  // ----- every schedule of writeRecords completes

  /** A worker that is not done can always write. */
  lemma FlatEnabled(m: Overlay, idxs: seq<int>, crc: bool, bounds: seq<nat>, s: FlatState)
    requires Holds(m, idxs) && Bounds(bounds, |idxs|) && FlatInvariant(m, idxs, crc, bounds, s)
    ensures FlatDone(bounds, s) || exists s' :: FlatNext(m, idxs, crc, bounds, s, s')
  {
    hide Flat, NextWrite, Correct;
    if w :| 0 <= w < |s.cursors| && s.cursors[w] != Cursor(bounds[w + 1], AtIndex) {
      CursorInside(m, idxs, crc, bounds, s, w);
      var c := s.cursors[w];
      var s' := FlatState(Written(m, idxs, crc, s.dst, c), s.cursors[w := Advance(crc, c)]);
      assert FlatStep(m, idxs, crc, bounds, s, s', w);
      assert FlatNext(m, idxs, crc, bounds, s, s');
    }
  }

  lemma CursorInside(m: Overlay, idxs: seq<int>, crc: bool, bounds: seq<nat>, s: FlatState, w: nat)
    requires Holds(m, idxs) && Bounds(bounds, |idxs|) && FlatInvariant(m, idxs, crc, bounds, s) && w < |s.cursors|
    ensures s.cursors[w].rec <= bounds[w + 1] <= |idxs| && bounds[w] <= s.cursors[w].rec
    ensures s.cursors[w].rec == bounds[w + 1] ==> s.cursors[w].phase == AtIndex
    ensures s.cursors[w].rec < bounds[w + 1] ==>
              Position(crc, s.cursors[w]) + |NextWrite(m, idxs, crc, s.dst, s.cursors[w])| <= |s.dst|
  {
    hide Flat, Sum, LE;
    var t, b, pos := Flat(m, idxs, crc), ByteBounds(crc, bounds), Positions(crc, s.cursors);
    assert Correct(t, s.dst, b[w], pos[w], b[w + 1]);
    assert bounds[w + 1] <= bounds[|bounds| - 1];
    if s.cursors[w].rec < bounds[w + 1] {
      NextWriteRight(m, idxs, crc, s.dst, s.cursors[w], bounds[w]);
    }
  }

  function PhaseRank(p: Phase): nat {
    match p case AtIndex => 0 case AtData => 1 case AtCrc => 2
  }

  /** Three for each record the first `w` workers have finished, and the writes of those in progress. */
  function Work(bounds: seq<nat>, cursors: seq<Cursor>, w: nat): int
    requires w <= |cursors| < |bounds|
  {
    if w == 0 then 0
    else Work(bounds, cursors, w - 1) + 3 * (cursors[w - 1].rec - bounds[w - 1]) + PhaseRank(cursors[w - 1].phase)
  }

  lemma {:induction false} WorkGrows(crc: bool, bounds: seq<nat>, cursors: seq<Cursor>, u: nat, w: nat)
    requires w <= |cursors| < |bounds| && u < |cursors|
    ensures var after := Work(bounds, cursors[u := Advance(crc, cursors[u])], w);
            if u < w then after > Work(bounds, cursors, w) else after == Work(bounds, cursors, w)
  {
    if w > 0 {
      WorkGrows(crc, bounds, cursors, u, w - 1);
    }
  }

  lemma {:induction false} WorkBounded(m: Overlay, idxs: seq<int>, crc: bool, bounds: seq<nat>, s: FlatState, w: nat)
    requires Holds(m, idxs) && Bounds(bounds, |idxs|) && FlatInvariant(m, idxs, crc, bounds, s) && w <= |s.cursors|
    ensures 0 <= Work(bounds, s.cursors, w) <= 3 * bounds[w]
  {
    hide FlatInvariant;
    CursorCount(m, idxs, crc, bounds, s);
    if w > 0 {
      WorkBounded(m, idxs, crc, bounds, s, w - 1);
      CursorInside(m, idxs, crc, bounds, s, w - 1);
    }
  }

  lemma CursorCount(m: Overlay, idxs: seq<int>, crc: bool, bounds: seq<nat>, s: FlatState)
    requires Holds(m, idxs) && Bounds(bounds, |idxs|) && FlatInvariant(m, idxs, crc, bounds, s)
    ensures |s.cursors| + 1 == |bounds|
  {
  }

  lemma {:induction false} RunWork(m: Overlay, idxs: seq<int>, crc: bool, bounds: seq<nat>, run: seq<FlatState>, i: nat)
    requires Holds(m, idxs) && Bounds(bounds, |idxs|) && FlatRun(m, idxs, crc, bounds, run) && i < |run|
    ensures |run[i].cursors| + 1 == |bounds| && Work(bounds, run[i].cursors, |bounds| - 1) >= i
  {
    hide FlatInvariant, NextWrite, Work;
    FlatRunKeeps(m, idxs, crc, bounds, run, i);
    CursorCount(m, idxs, crc, bounds, run[i]);
    if i == 0 {
      WorkBounded(m, idxs, crc, bounds, run[0], |bounds| - 1);
    } else {
      RunWork(m, idxs, crc, bounds, run, i - 1);
      assert FlatNext(m, idxs, crc, bounds, run[i - 1], run[i - 1 + 1]);
      var w: nat :| FlatStep(m, idxs, crc, bounds, run[i - 1], run[i], w);
      WorkGrows(crc, bounds, run[i - 1].cursors, w, |bounds| - 1);
    }
  }

  /** No schedule takes more than three writes a record: with FlatEnabled, every schedule completes. */
  lemma FlatTerminates(m: Overlay, idxs: seq<int>, crc: bool, bounds: seq<nat>, run: seq<FlatState>)
    requires Holds(m, idxs) && Bounds(bounds, |idxs|) && FlatRun(m, idxs, crc, bounds, run)
    ensures |run| <= 3 * |idxs| + 1
  {
    hide FlatInvariant, FlatRun, Work;
    RunNotEmpty(m, idxs, crc, bounds, run);
    RunWork(m, idxs, crc, bounds, run, |run| - 1);
    FlatRunKeeps(m, idxs, crc, bounds, run, |run| - 1);
    WorkBounded(m, idxs, crc, bounds, run[|run| - 1], |bounds| - 1);
  }

  // ----- writeRecordsSharded: one copy at a time, split at piece and shard boundaries

  datatype ShardedState = ShardedState(shards: seq<Shard>, pos: seq<nat>)

  /** The CRC of a record, computed from its two pieces. */
  function Tail(hdr: seq<byte>, data: seq<byte>): (s: seq<byte>)
    ensures |s| == 4
  {
    LE(Unsigned(Update(Checksum(hdr), data)), 4)
  }

  /** The piece of the record a worker is writing, `at` bytes into the record, and where the piece starts. */
  function CurrentPiece(m: Overlay, idx: nat, at: nat): (p: (seq<byte>, nat))
    requires idx in m && |m[idx]| == BLOCK_SIZE && at < L1_RECORD_SIZE
    ensures p.1 <= at < p.1 + |p.0| <= L1_RECORD_SIZE
  {
    hide Tail, LE;
    if at < 8 then (LE(idx, 8), 0)
    else if at < L0_RECORD_SIZE then (m[idx], 8)
    else (Tail(LE(idx, 8), m[idx]), L0_RECORD_SIZE)
  }

  /** What the next copy moves: the rest of the piece, up to the end of the shard. */
  function NextCopy(m: Overlay, idxs: seq<int>, size: nat, p: nat): (s: seq<byte>)
    requires Holds(m, idxs) && size > 0 && p < Offset(true, |idxs|)
    ensures 0 < |s| && p % size + |s| <= size && p % L1_RECORD_SIZE + |s| <= L1_RECORD_SIZE
  {
    hide Sum, Checksum, Update, LE;
    var (piece, start) := CurrentPiece(m, idxs[p / L1_RECORD_SIZE], p % L1_RECORD_SIZE);
    var done := p % L1_RECORD_SIZE - start;
    piece[done..done + Min(size - p % size, |piece| - done)]
  }

  /** The shards after a copy to payload offset `p`. */
  function CopyToShard(shards: seq<Shard>, size: nat, p: nat, copy: seq<byte>): seq<Shard>
    requires size > 0 && Equal(shards, size) && p / size < |shards| && p % size + |copy| <= size
  {
    shards[p / size := Splice(shards[p / size], p % size, copy)]
  }

  /** Worker w has bytes left to write, and the shard they go to exists. */
  predicate Ready(len: nat, size: nat, bounds: seq<nat>, s: ShardedState, w: nat)
    requires Bounds(bounds, len) && size > 0
  {
    |s.pos| + 1 == |bounds| && w < |s.pos| && s.pos[w] < Offset(true, bounds[w + 1]) && s.pos[w] < Offset(true, len) &&
    Equal(s.shards, size) && s.pos[w] / size < |s.shards|
  }

  ghost predicate ShardedStep(
    m: Overlay, idxs: seq<int>, size: nat, bounds: seq<nat>, s: ShardedState, s': ShardedState, w: nat)
    requires Holds(m, idxs) && Bounds(bounds, |idxs|) && size > 0
  {
    hide NextCopy, CopyToShard, Bounds;
    Ready(|idxs|, size, bounds, s, w) &&
    var copy := NextCopy(m, idxs, size, s.pos[w]);
    s' == ShardedState(CopyToShard(s.shards, size, s.pos[w], copy), s.pos[w := s.pos[w] + |copy|])
  }

  ghost predicate ShardedNext(
    m: Overlay, idxs: seq<int>, size: nat, bounds: seq<nat>, s: ShardedState, s': ShardedState)
    requires Holds(m, idxs) && Bounds(bounds, |idxs|) && size > 0
  {
    exists w :: ShardedStep(m, idxs, size, bounds, s, s', w)
  }

  /** Zeroed data shards with room for the payload, every worker at its first record. */
  ghost predicate ShardedStart(bounds: seq<nat>, len: nat, n: nat, size: nat, s: ShardedState)
    requires Bounds(bounds, len)
  {
    |s.shards| == n && Offset(true, len) <= n * size && (forall i :: 0 <= i < n ==> s.shards[i] == Zeros(size)) &&
    |s.pos| + 1 == |bounds| && forall w :: 0 <= w < |s.pos| ==> s.pos[w] == Offset(true, bounds[w])
  }

  ghost predicate ShardedDone(bounds: seq<nat>, s: ShardedState) {
    |s.pos| + 1 == |bounds| && forall w :: 0 <= w < |s.pos| ==> s.pos[w] == Offset(true, bounds[w + 1])
  }

  ghost predicate ShardedRun(m: Overlay, idxs: seq<int>, n: nat, size: nat, bounds: seq<nat>, run: seq<ShardedState>)
    requires Holds(m, idxs) && Bounds(bounds, |idxs|) && size > 0
  {
    |run| > 0 && ShardedStart(bounds, |idxs|, n, size, run[0]) &&
    forall i :: 0 <= i < |run| - 1 ==> ShardedNext(m, idxs, size, bounds, run[i], run[i + 1])
  }

  ghost predicate ShardedInvariant(m: Overlay, idxs: seq<int>, n: nat, size: nat, bounds: seq<nat>, s: ShardedState)
    requires Holds(m, idxs) && Bounds(bounds, |idxs|)
  {
    var plen, all := Offset(true, |idxs|), Flatten(s.shards);
    |s.shards| == n && Equal(s.shards, size) && |all| == n * size && plen <= n * size &&
    all[plen..] == Zeros(n * size - plen) &&
    Consistent(Flat(m, idxs, true), all[..plen], ByteBounds(true, bounds), s.pos)
  }

  lemma CopyIsTarget(m: Overlay, idxs: seq<int>, size: nat, p: nat)
    requires Holds(m, idxs) && size > 0 && p < Offset(true, |idxs|)
    ensures var copy := NextCopy(m, idxs, size, p);
            p + |copy| <= Offset(true, p / L1_RECORD_SIZE + 1) <= Offset(true, |idxs|) &&
            copy == Flat(m, idxs, true)[p..p + |copy|]
  {
    hide Flat, CurrentPiece;
    RecordInBounds(p, |idxs|);
    var i, at := p / L1_RECORD_SIZE, p % L1_RECORD_SIZE;
    PieceOfRecord(m, idxs, i, at);
    var (piece, start) := CurrentPiece(m, idxs[i], at);
    SliceOfSliceAt(Flat(m, idxs, true), Offset(true, i) + start, |piece|, at - start, |NextCopy(m, idxs, size, p)|);
  }

  lemma SliceOfSliceAt(s: seq<byte>, lo: nat, len: nat, at: nat, n: nat)
    requires at + n <= len && lo + len <= |s|
    ensures s[lo..lo + len][at..at + n] == s[lo + at..lo + at + n]
  {
    SliceOfSlice(s, lo, lo + len, at + n);
    assert s[lo..lo + len][at..at + n] == s[lo..lo + len][..at + n][at..];
  }

  lemma PieceOfRecord(m: Overlay, idxs: seq<int>, i: nat, at: nat)
    requires Holds(m, idxs) && i < |idxs| && at < L1_RECORD_SIZE
    ensures Offset(true, i + 1) <= Offset(true, |idxs|)
    ensures var (piece, start) := CurrentPiece(m, idxs[i], at);
            piece == Flat(m, idxs, true)[Offset(true, i) + start..Offset(true, i) + start + |piece|]
  {
    hide Flat, Update, Checksum, LE;
    var t, off := Flat(m, idxs, true), Offset(true, i);
    RecordPieces(m, idxs, true, i);
    Incremental(LE(idxs[i], 8), m[idxs[i]]);
    assert t[off..off + L0_RECORD_SIZE] == LE(idxs[i], 8) + m[idxs[i]] by {
      assert t[off..off + L0_RECORD_SIZE] == t[off..off + 8] + t[off + 8..off + L0_RECORD_SIZE];
    }
  }

  lemma ShardedKeeps(
    m: Overlay, idxs: seq<int>, n: nat, size: nat, bounds: seq<nat>, s: ShardedState, s': ShardedState, w: nat)
    requires Holds(m, idxs) && Bounds(bounds, |idxs|) && size > 0
    requires ShardedInvariant(m, idxs, n, size, bounds, s) && ShardedStep(m, idxs, size, bounds, s, s', w)
    ensures ShardedInvariant(m, idxs, n, size, bounds, s')
  {
    hide Flat, NextCopy, Flatten, Splice, Consistent, Holds;
    var t, p, plen := Flat(m, idxs, true), s.pos[w], Offset(true, |idxs|);
    var copy := NextCopy(m, idxs, size, p);
    var all := Flatten(s.shards);
    CopyIsTarget(m, idxs, size, p);
    RecordInBounds(p, bounds[w + 1]);
    SpanOf(m, idxs, n, size, bounds, s, w);
    assert p == p / size * size + p % size;
    FlattenUpdate(s.shards, size, p / size, p % size, copy);
    FlattenLength(s'.shards, size);
    WriteConsistent(t, all[..plen], ByteBounds(true, bounds), s.pos, w, |copy|);
    PrefixSplice(all, plen, p, copy);
  }

  lemma RecordInBounds(p: nat, hi: nat)
    requires p < Offset(true, hi)
    ensures Offset(true, p / L1_RECORD_SIZE + 1) <= Offset(true, hi)
  {
  }

  lemma PrefixSplice(s: seq<byte>, n: nat, lo: nat, t: seq<byte>)
    requires lo + |t| <= n <= |s|
    ensures Splice(s, lo, t)[..n] == Splice(s[..n], lo, t)
    ensures Splice(s, lo, t)[n..] == s[n..]
  {
  }

  lemma ShardedStarts(m: Overlay, idxs: seq<int>, n: nat, size: nat, bounds: seq<nat>, s: ShardedState)
    requires Holds(m, idxs) && Bounds(bounds, |idxs|) && ShardedStart(bounds, |idxs|, n, size, s)
    ensures ShardedInvariant(m, idxs, n, size, bounds, s)
  {
    hide Flat;
    FlattenZeros(s.shards, size);
    ByteBoundsOf(true, bounds, |idxs|);
    var t, b, dst := Flat(m, idxs, true), ByteBounds(true, bounds), Flatten(s.shards)[..Offset(true, |idxs|)];
    forall w | 0 <= w < |s.pos| ensures Correct(t, dst, b[w], s.pos[w], b[w + 1]) {
      assert bounds[w] <= bounds[w + 1] <= bounds[|bounds| - 1];
    }
  }

  lemma {:induction false} ShardedRunKeeps(
    m: Overlay, idxs: seq<int>, n: nat, size: nat, bounds: seq<nat>, run: seq<ShardedState>, i: nat)
    requires Holds(m, idxs) && Bounds(bounds, |idxs|) && size > 0
    requires ShardedRun(m, idxs, n, size, bounds, run) && i < |run|
    ensures ShardedInvariant(m, idxs, n, size, bounds, run[i])
  {
    hide ShardedInvariant, ShardedStep, ShardedStart;
    if i == 0 {
      ShardedStarts(m, idxs, n, size, bounds, run[0]);
    } else {
      ShardedRunKeeps(m, idxs, n, size, bounds, run, i - 1);
      assert ShardedNext(m, idxs, size, bounds, run[i - 1], run[i - 1 + 1]);
      var w: nat :| ShardedStep(m, idxs, size, bounds, run[i - 1], run[i], w);
      ShardedKeeps(m, idxs, n, size, bounds, run[i - 1], run[i], w);
    }
  }

  /**
   * Schedule independence of writeRecordsSharded: even where two workers write into the same shard, any
   * interleaving that completes leaves exactly the flat payload cut into zero-padded data shards.
   */
  lemma AnyScheduleSharded(m: Overlay, idxs: seq<int>, n: nat, size: nat, bounds: seq<nat>, run: seq<ShardedState>)
    requires Holds(m, idxs) && Bounds(bounds, |idxs|) && size > 0
    requires ShardedRun(m, idxs, n, size, bounds, run) && ShardedDone(bounds, run[|run| - 1])
    ensures Offset(true, |idxs|) <= n * size
    ensures run[|run| - 1].shards == DataShards(Flat(m, idxs, true), n, size)
  {
    hide Flat, Correct, ShardedStep, Flatten, Pieces;
    ShardedRunKeeps(m, idxs, n, size, bounds, run, |run| - 1);
    var s := run[|run| - 1];
    var t, plen, all := Flat(m, idxs, true), Offset(true, |idxs|), Flatten(s.shards);
    AllWritten(t, all[..plen], ByteBounds(true, bounds), s.pos);
    assert all == Padded(t, n, size);
    FlattenPieces(s.shards, size, []);
    assert all + [] == all;
  }

  lemma SpanOf(m: Overlay, idxs: seq<int>, n: nat, size: nat, bounds: seq<nat>, s: ShardedState, w: nat)
    requires Holds(m, idxs) && Bounds(bounds, |idxs|) && ShardedInvariant(m, idxs, n, size, bounds, s) && w < |s.pos|
    ensures Offset(true, bounds[w]) <= s.pos[w] <= Offset(true, bounds[w + 1]) <= Offset(true, |idxs|)
  {
    hide Flat, Flatten;
    assert Correct(Flat(m, idxs, true), Flatten(s.shards)[..Offset(true, |idxs|)],
        ByteBounds(true, bounds)[w], s.pos[w], ByteBounds(true, bounds)[w + 1]);
    assert bounds[w + 1] <= bounds[|bounds| - 1];
  }

  /** A worker that is not done can always copy. */
  lemma ShardedEnabled(m: Overlay, idxs: seq<int>, n: nat, size: nat, bounds: seq<nat>, s: ShardedState)
    requires Holds(m, idxs) && Bounds(bounds, |idxs|) && size > 0 && ShardedInvariant(m, idxs, n, size, bounds, s)
    ensures ShardedDone(bounds, s) || exists s' :: ShardedNext(m, idxs, size, bounds, s, s')
  {
    hide Flat, Flatten, NextCopy, Correct;
    if w :| 0 <= w < |s.pos| && s.pos[w] != Offset(true, bounds[w + 1]) {
      SpanOf(m, idxs, n, size, bounds, s, w);
      var p := s.pos[w];
      Locate(p, n, size);
      var copy := NextCopy(m, idxs, size, p);
      var s' := ShardedState(CopyToShard(s.shards, size, p, copy), s.pos[w := p + |copy|]);
      assert ShardedStep(m, idxs, size, bounds, s, s', w);
      assert ShardedNext(m, idxs, size, bounds, s, s');
    }
  }

  /** The bytes the first `w` workers have written. */
  function BytesWritten(bounds: seq<nat>, pos: seq<nat>, w: nat): int
    requires w <= |pos| < |bounds|
  {
    if w == 0 then 0 else BytesWritten(bounds, pos, w - 1) + pos[w - 1] - Offset(true, bounds[w - 1])
  }

  lemma {:induction false} BytesGrow(bounds: seq<nat>, pos: seq<nat>, u: nat, p: nat, w: nat)
    requires w <= |pos| < |bounds| && u < |pos| && p > pos[u]
    ensures var after := BytesWritten(bounds, pos[u := p], w);
            if u < w then after > BytesWritten(bounds, pos, w) else after == BytesWritten(bounds, pos, w)
  {
    if w > 0 {
      BytesGrow(bounds, pos, u, p, w - 1);
    }
  }

  lemma {:induction false} BytesBounded(
    m: Overlay, idxs: seq<int>, n: nat, size: nat, bounds: seq<nat>, s: ShardedState, w: nat)
    requires Holds(m, idxs) && Bounds(bounds, |idxs|) && ShardedInvariant(m, idxs, n, size, bounds, s)
    requires w <= |s.pos| < |bounds|
    ensures 0 <= BytesWritten(bounds, s.pos, w) <= Offset(true, bounds[w])
  {
    hide ShardedInvariant;
    if w > 0 {
      BytesBounded(m, idxs, n, size, bounds, s, w - 1);
      SpanOf(m, idxs, n, size, bounds, s, w - 1);
    }
  }

  lemma PosCount(m: Overlay, idxs: seq<int>, n: nat, size: nat, bounds: seq<nat>, s: ShardedState)
    requires Holds(m, idxs) && Bounds(bounds, |idxs|) && ShardedInvariant(m, idxs, n, size, bounds, s)
    ensures |s.pos| + 1 == |bounds|
  {
  }

  lemma StepBytes(m: Overlay, idxs: seq<int>, size: nat, bounds: seq<nat>, s: ShardedState, s': ShardedState)
    requires Holds(m, idxs) && Bounds(bounds, |idxs|) && size > 0 && ShardedNext(m, idxs, size, bounds, s, s')
    ensures |s.pos| == |s'.pos| == |bounds| - 1
    ensures BytesWritten(bounds, s'.pos, |bounds| - 1) > BytesWritten(bounds, s.pos, |bounds| - 1)
  {
    hide NextCopy, BytesWritten;
    var w: nat :| ShardedStep(m, idxs, size, bounds, s, s', w);
    BytesGrow(bounds, s.pos, w, s'.pos[w], |bounds| - 1);
  }

  lemma {:induction false} RunBytes(
    m: Overlay, idxs: seq<int>, n: nat, size: nat, bounds: seq<nat>, run: seq<ShardedState>, i: nat)
    requires Holds(m, idxs) && Bounds(bounds, |idxs|) && size > 0
    requires ShardedRun(m, idxs, n, size, bounds, run) && i < |run|
    ensures |run[i].pos| + 1 == |bounds| && BytesWritten(bounds, run[i].pos, |bounds| - 1) >= i
  {
    hide ShardedInvariant, ShardedStart, ShardedNext, BytesWritten;
    ShardedRunKeeps(m, idxs, n, size, bounds, run, i);
    PosCount(m, idxs, n, size, bounds, run[i]);
    if i == 0 {
      BytesBounded(m, idxs, n, size, bounds, run[0], |bounds| - 1);
    } else {
      RunBytes(m, idxs, n, size, bounds, run, i - 1);
      assert ShardedNext(m, idxs, size, bounds, run[i - 1], run[i - 1 + 1]);
      StepBytes(m, idxs, size, bounds, run[i - 1], run[i]);
    }
  }

  /** No schedule takes more copies than there are payload bytes: with ShardedEnabled, every schedule completes. */
  lemma ShardedTerminates(m: Overlay, idxs: seq<int>, n: nat, size: nat, bounds: seq<nat>, run: seq<ShardedState>)
    requires Holds(m, idxs) && Bounds(bounds, |idxs|) && size > 0 && ShardedRun(m, idxs, n, size, bounds, run)
    ensures |run| <= Offset(true, |idxs|) + 1
  {
    hide ShardedInvariant, BytesWritten, ShardedNext, ShardedStart;
    RunBytes(m, idxs, n, size, bounds, run, |run| - 1);
    ShardedRunKeeps(m, idxs, n, size, bounds, run, |run| - 1);
    BytesBounded(m, idxs, n, size, bounds, run[|run| - 1], |bounds| - 1);
  }
}
