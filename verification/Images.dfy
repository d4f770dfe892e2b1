/** The flat image a copy-on-write device stands for, and runs of calls on it. */
module Images {
  import opened Bytes
  import opened Records
  import opened RecordDecoder

  /** `t` written over `s` at `lo`. */
  function Splice<T>(s: seq<T>, lo: nat, t: seq<T>): (r: seq<T>)
    requires lo + |t| <= |s|
    ensures |r| == |s|
  {
    s[..lo] + t + s[lo + |t|..]
  }

  lemma SpliceInside(s: seq<byte>, lo: nat, t: seq<byte>)
    requires lo + |t| <= |s|
    ensures Splice(s, lo, t)[lo..lo + |t|] == t
  {
  }

  lemma SpliceOutside(s: seq<byte>, lo: nat, t: seq<byte>, a: nat, n: nat)
    requires lo + |t| <= |s| && a + n <= |s|
    requires a + n <= lo || lo + |t| <= a
    ensures Splice(s, lo, t)[a..a + n] == s[a..a + n]
  {
  }

  /** A splice seen through a window that holds it. */
  lemma SpliceWindow(s: seq<byte>, lo: nat, size: nat, r: nat, t: seq<byte>)
    requires r + |t| <= size && lo + size <= |s|
    ensures Splice(s, lo + r, t)[lo..lo + size] == Splice(s[lo..lo + size], r, t)
  {
    var c, w := Splice(s, lo + r, t), Splice(s[lo..lo + size], r, t);
    assert c == s[..lo] + w + s[lo + size..];
  }

  lemma SpliceNothing(s: seq<byte>, lo: nat, t: seq<byte>)
    requires lo <= |s| && t == []
    ensures Splice(s, lo, t) == s
  {
  }

  predicate Aligned(len: int) {
    len % BLOCK_SIZE == 0
  }

  function Block(k: nat, s: seq<byte>): (b: seq<byte>)
    requires (k + 1) * BLOCK_SIZE <= |s|
    ensures |b| == BLOCK_SIZE
  {
    s[k * BLOCK_SIZE..(k + 1) * BLOCK_SIZE]
  }

  /** The base with the dirty blocks laid over it. */
  function ImageOf(base: seq<byte>, m: Overlay): (img: seq<byte>)
    requires Fits(m, |base| / BLOCK_SIZE)
    ensures |img| == |base|
  {
    seq(|base|, i requires 0 <= i < |base| =>
      if i / BLOCK_SIZE in m then m[i / BLOCK_SIZE][i % BLOCK_SIZE] else base[i])
  }

  /** The block a read serves: dirty if present, else base. */
  function Served(base: seq<byte>, m: Overlay, k: nat): seq<byte>
    requires (k + 1) * BLOCK_SIZE <= |base|
  {
    if k in m then m[k] else Block(k, base)
  }

  /** The overlay after writing whole blocks of `p` at the aligned offset `off`. */
  function WriteBlocks(m: Overlay, p: seq<byte>, off: nat): Overlay
    requires Aligned(|p|)
  {
    if p == [] then m
    else
      var n := |p| - BLOCK_SIZE;
      WriteBlocks(m, p[..n], off)[(off + n) / BLOCK_SIZE := p[n..]]
  }

  lemma ServedIsImage(base: seq<byte>, m: Overlay, k: nat)
    requires Fits(m, |base| / BLOCK_SIZE) && (k + 1) * BLOCK_SIZE <= |base|
    ensures Served(base, m, k) == Block(k, ImageOf(base, m))
  {
    var img := ImageOf(base, m);
    forall j | 0 <= j < BLOCK_SIZE ensures Block(k, img)[j] == Served(base, m, k)[j] {
      assert (k * BLOCK_SIZE + j) / BLOCK_SIZE == k && (k * BLOCK_SIZE + j) % BLOCK_SIZE == j;
    }
  }

  lemma WriteOne(base: seq<byte>, m: Overlay, k: nat, b: seq<byte>)
    requires Fits(m, |base| / BLOCK_SIZE) && (k + 1) * BLOCK_SIZE <= |base| && |b| == BLOCK_SIZE
    ensures Fits(m[k := b], |base| / BLOCK_SIZE)
    ensures ImageOf(base, m[k := b]) == Splice(ImageOf(base, m), k * BLOCK_SIZE, b)
  {
    var a, c := ImageOf(base, m[k := b]), Splice(ImageOf(base, m), k * BLOCK_SIZE, b);
    forall i | 0 <= i < |base| ensures a[i] == c[i] {
      if k * BLOCK_SIZE <= i < (k + 1) * BLOCK_SIZE {
        assert i / BLOCK_SIZE == k && i % BLOCK_SIZE == i - k * BLOCK_SIZE;
      } else {
        assert i / BLOCK_SIZE != k;
      }
    }
  }

  /** A block-wise write is a splice of the flat image. */
  lemma {:induction false} WriteIsSplice(base: seq<byte>, m: Overlay, p: seq<byte>, off: nat)
    requires Fits(m, |base| / BLOCK_SIZE) && Aligned(|p|) && Aligned(off) && off + |p| <= |base|
    ensures Fits(WriteBlocks(m, p, off), |base| / BLOCK_SIZE)
    ensures ImageOf(base, WriteBlocks(m, p, off)) == Splice(ImageOf(base, m), off, p)
  {
    hide Fits, ImageOf, Aligned, Splice;
    var img := ImageOf(base, m);
    if p == [] {
      SpliceNothing(img, off, p);
    } else {
      BlockStart(off, |p|, |base|);
      var n := |p| - BLOCK_SIZE;
      WriteIsSplice(base, m, p[..n], off);
      WriteOne(base, WriteBlocks(m, p[..n], off), (off + n) / BLOCK_SIZE, p[n..]);
      SpliceTwice(img, off, p[..n], p[n..]);
      assert p == p[..n] + p[n..];
    }
  }

  /** The last block of an aligned stretch. */
  lemma BlockStart(off: nat, n: nat, len: nat)
    requires Aligned(off) && Aligned(n) && n > 0 && off + n <= len
    ensures n >= BLOCK_SIZE && Aligned(n - BLOCK_SIZE)
    ensures var k := (off + n - BLOCK_SIZE) / BLOCK_SIZE;
            k * BLOCK_SIZE == off + n - BLOCK_SIZE && (k + 1) * BLOCK_SIZE <= len && k < len / BLOCK_SIZE
  {
  }

  lemma SpliceTwice<T>(s: seq<T>, lo: nat, a: seq<T>, b: seq<T>)
    requires lo + |a| + |b| <= |s|
    ensures Splice(Splice(s, lo, a), lo + |a|, b) == Splice(s, lo, a + b)
  {
  }

  // ----- the range check

  /**
   * checkRange in int64 arithmetic: the subtraction is written with wrap-around, and still accepts exactly
   * the aligned requests that lie within the device.
   */
  function CheckRange(baseLen: int, n: int, off: int): (err: Option<Error>)
    requires 0 <= baseLen < TWO_TO_THE_63 && 0 <= n < TWO_TO_THE_63 && -TWO_TO_THE_63 <= off < TWO_TO_THE_63
    ensures err == None <==> Aligned(off) && Aligned(n) && 0 <= off && off + n <= baseLen
    ensures err == Some(Unaligned) <==> !(Aligned(off) && Aligned(n))
    ensures err == Some(OutOfRange) <==> Aligned(off) && Aligned(n) && (off < 0 || off + n > baseLen)
  {
    if off % BLOCK_SIZE != 0 || n % BLOCK_SIZE != 0 then Some(Unaligned)
    else if off < 0 || off > baseLen || n > Wrap64(baseLen - off) then Some(OutOfRange)
    else None
  }

  // ----- runs

  datatype Call = ReadCall(len: nat, readOff: int) | WriteCall(data: seq<byte>, writeOff: int)

  datatype Reply = Refuse(error: Error) | Data(bytes: seq<byte>) | Done(count: nat)

  /** The request can be made at all: lengths and offsets are int64. */
  predicate Possible(c: Call) {
    match c
    case ReadCall(n, off) => n < TWO_TO_THE_63 && -TWO_TO_THE_63 <= off < TWO_TO_THE_63
    case WriteCall(p, off) => |p| < TWO_TO_THE_63 && -TWO_TO_THE_63 <= off < TWO_TO_THE_63
  }

  function Check(baseLen: nat, c: Call): Option<Error>
    requires baseLen < TWO_TO_THE_63 && Possible(c)
  {
    match c
    case ReadCall(n, off) => CheckRange(baseLen, n, off)
    case WriteCall(p, off) => CheckRange(baseLen, |p|, off)
  }

  /** A read of `c` blocks from block `k` on, assembled block by block. */
  function ReadBlocks(base: seq<byte>, m: Overlay, k: nat, c: nat): seq<byte>
    requires (k + c) * BLOCK_SIZE <= |base|
  {
    if c == 0 then [] else ReadBlocks(base, m, k, c - 1) + Served(base, m, k + c - 1)
  }

  /** One call on the copy-on-write device. */
  function DeviceStep(base: seq<byte>, m: Overlay, c: Call): (Overlay, Reply)
    requires |base| < TWO_TO_THE_63 && Possible(c)
  {
    match Check(|base|, c)
    case Some(e) => (m, Refuse(e))
    case None =>
      match c
      case ReadCall(n, off) => (m, Data(ReadBlocks(base, m, off / BLOCK_SIZE, n / BLOCK_SIZE)))
      case WriteCall(p, off) => (WriteBlocks(m, p, off), Done(|p|))
  }

  /** The same call on a flat image. */
  function FlatStep(img: seq<byte>, c: Call): (r: (seq<byte>, Reply))
    requires |img| < TWO_TO_THE_63 && Possible(c)
    ensures |r.0| == |img|
  {
    match Check(|img|, c)
    case Some(e) => (img, Refuse(e))
    case None =>
      match c
      case ReadCall(n, off) => (img, Data(img[off..off + n]))
      case WriteCall(p, off) => (Splice(img, off, p), Done(|p|))
  }

  predicate AllPossible(calls: seq<Call>) {
    forall i :: 0 <= i < |calls| ==> Possible(calls[i])
  }

  function DeviceRun(base: seq<byte>, m: Overlay, calls: seq<Call>): (Overlay, seq<Reply>)
    requires |base| < TWO_TO_THE_63 && AllPossible(calls)
    decreases |calls|
  {
    if calls == [] then (m, [])
    else
      var (m', r) := DeviceStep(base, m, calls[0]);
      var (last, rs) := DeviceRun(base, m', calls[1..]);
      (last, [r] + rs)
  }

  function FlatRun(img: seq<byte>, calls: seq<Call>): (seq<byte>, seq<Reply>)
    requires |img| < TWO_TO_THE_63 && AllPossible(calls)
    decreases |calls|
  {
    if calls == [] then (img, [])
    else
      var (img', r) := FlatStep(img, calls[0]);
      var (last, rs) := FlatRun(img', calls[1..]);
      (last, [r] + rs)
  }

  lemma {:induction false} ReadIsSlice(base: seq<byte>, m: Overlay, k: nat, c: nat)
    requires Fits(m, |base| / BLOCK_SIZE) && (k + c) * BLOCK_SIZE <= |base|
    ensures ReadBlocks(base, m, k, c) == ImageOf(base, m)[k * BLOCK_SIZE..(k + c) * BLOCK_SIZE]
  {
    hide ImageOf, Served, Fits, Block;
    if c > 0 {
      var img := ImageOf(base, m);
      ReadIsSlice(base, m, k, c - 1);
      ServedIsImage(base, m, k + c - 1);
      BlockIsSlice(img, k + c - 1);
      SplitSlice(img, k * BLOCK_SIZE, (k + c - 1) * BLOCK_SIZE, (k + c) * BLOCK_SIZE);
    }
  }

  lemma BlockIsSlice(s: seq<byte>, k: nat)
    requires (k + 1) * BLOCK_SIZE <= |s|
    ensures Block(k, s) == s[k * BLOCK_SIZE..(k + 1) * BLOCK_SIZE]
  {
  }

  lemma SplitSlice(s: seq<byte>, a: nat, b: nat, c: nat)
    requires a <= b <= c <= |s|
    ensures s[a..c] == s[a..b] + s[b..c]
  {
  }

  lemma StepRefines(base: seq<byte>, m: Overlay, c: Call)
    requires |base| < TWO_TO_THE_63 && Fits(m, |base| / BLOCK_SIZE) && Possible(c)
    ensures var (m', r) := DeviceStep(base, m, c);
            Fits(m', |base| / BLOCK_SIZE) &&
            FlatStep(ImageOf(base, m), c) == (ImageOf(base, m'), r)
  {
    hide ImageOf, Fits, ReadBlocks, WriteBlocks, CheckRange;
    if Check(|base|, c) == None {
      match c
      case ReadCall(n, off) => ReadIsSlice(base, m, off / BLOCK_SIZE, n / BLOCK_SIZE);
      case WriteCall(p, off) => WriteIsSplice(base, m, p, off);
    }
  }

  /**
   * Over any run of calls, successful or not, the device answers as a flat copy of the base would, and stands
   * for the same final image.
   */
  lemma {:induction false} RunRefines(base: seq<byte>, m: Overlay, calls: seq<Call>)
    requires |base| < TWO_TO_THE_63 && Fits(m, |base| / BLOCK_SIZE) && AllPossible(calls)
    ensures var (m', rs) := DeviceRun(base, m, calls);
            Fits(m', |base| / BLOCK_SIZE) &&
            FlatRun(ImageOf(base, m), calls) == (ImageOf(base, m'), rs)
    decreases |calls|
  {
    hide ImageOf, Fits, DeviceStep, FlatStep;
    if calls != [] {
      StepRefines(base, m, calls[0]);
      RunRefines(base, DeviceStep(base, m, calls[0]).0, calls[1..]);
    }
  }

  /** A run is a shorter run followed by one more call. */
  lemma {:induction false} RunSnoc(base: seq<byte>, m: Overlay, calls: seq<Call>, i: nat)
    requires |base| < TWO_TO_THE_63 && AllPossible(calls) && i < |calls|
    ensures AllPossible(calls[..i]) && AllPossible(calls[..i + 1]) && Possible(calls[i])
    ensures var (m', rs) := DeviceRun(base, m, calls[..i]);
            var (last, r) := DeviceStep(base, m', calls[i]);
            DeviceRun(base, m, calls[..i + 1]) == (last, rs + [r])
    decreases i
  {
    hide DeviceStep, Possible;
    var head, more := calls[..i], calls[..i + 1];
    var (m', r) := DeviceStep(base, m, calls[0]);
    assert more[0] == calls[0];
    if i == 0 {
      assert head == [] && more[1..] == [];
      assert DeviceRun(base, m', more[1..]) == (m', []);
      assert DeviceRun(base, m, more) == (m', [r] + []);
      assert DeviceRun(base, m, head) == (m, []);
      assert [r] + [] == [] + [r];
    } else {
      assert head[0] == calls[0] && head[1..] == calls[1..][..i - 1] && more[1..] == calls[1..][..i];
      RunSnoc(base, m', calls[1..], i - 1);
      assert calls[1..][i - 1] == calls[i];
      var (n, rs) := DeviceRun(base, m', head[1..]);
      assert DeviceRun(base, m, head) == (n, [r] + rs);
      var (last, s) := DeviceStep(base, n, calls[i]);
      assert DeviceRun(base, m, more) == (last, [r] + (rs + [s]));
      assert [r] + (rs + [s]) == ([r] + rs) + [s];
    }
  }

  /** A device without dirty blocks stands for its base. */
  lemma CleanImage(base: seq<byte>)
    ensures ImageOf(base, map[]) == base
  {
  }
}
