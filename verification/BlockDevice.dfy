/** The in-memory copy-on-write block device. */
module BlockDevice {
  import opened Bytes
  import opened Sorting
  import opened Records
  import opened RecordDecoder
  import opened Images

  /** A Go slice: a window of a byte array. */
  datatype Slice = Slice(arr: array<byte>, lo: nat, len: nat) {
    predicate InBounds() {
      lo + len <= arr.Length
    }

    function Bytes(): seq<byte>
      requires InBounds()
      reads arr
    {
      arr[lo..lo + len]
    }
  }

  /** The two windows share no byte. */
  predicate Apart(a: Slice, b: Slice) {
    a.arr != b.arr || a.lo + a.len <= b.lo || b.lo + b.len <= a.lo
  }

  /** The blocks have windows of their own, each apart from all others. */
  ghost predicate Laid(dirty: map<int, Slice>, blocks: nat) {
    (forall k :: k in dirty ==> 0 <= k < blocks && dirty[k].InBounds() && dirty[k].len == BLOCK_SIZE) &&
    (forall j, k :: j in dirty && k in dirty && j != k ==> Apart(dirty[j], dirty[k]))
  }

  /** A block may be given any window that meets no other block's. */
  lemma LaidUpdate(dirty: map<int, Slice>, blocks: nat, idx: int, w: Slice)
    requires Laid(dirty, blocks) && 0 <= idx < blocks && w.InBounds() && w.len == BLOCK_SIZE
    requires forall k :: k in dirty && k != idx ==> Apart(dirty[k], w) && Apart(w, dirty[k])
    ensures Laid(dirty[idx := w], blocks)
  {
    hide Apart;
  }

  /** A part of a window. */
  lemma SubSlice(w: Slice, n: nat, k: nat)
    requires w.InBounds() && n + k <= w.len
    ensures Slice(w.arr, w.lo + n, k).Bytes() == w.Bytes()[n..n + k]
  {
    var part, whole := Slice(w.arr, w.lo + n, k).Bytes(), w.Bytes();
    forall i | 0 <= i < k ensures part[i] == whole[n..n + k][i] {
      assert part[i] == w.arr[w.lo + n + i] && whole[n + i] == w.arr[w.lo + (n + i)];
    }
  }

  /** Writes `s` into the array at `lo`. */
  method CopyInto(a: array<byte>, lo: nat, s: seq<byte>)
    requires lo + |s| <= a.Length
    modifies a
    ensures a[..] == Splice(old(a[..]), lo, s)
  {
    forall i | 0 <= i < |s| {
      a[lo + i] := s[i];
    }
  }

  /** A copy elsewhere in the array leaves a window as it was. */
  lemma WindowKept(v: Slice, was: seq<byte>, lo: nat, s: seq<byte>)
    requires v.InBounds() && lo + |s| <= |was| && (v.lo + v.len <= lo || lo + |s| <= v.lo)
    requires v.arr[..] == Splice(was, lo, s)
    ensures v.lo + v.len <= |was| && v.Bytes() == was[v.lo..v.lo + v.len]
  {
    hide Splice;
    SpliceOutside(was, lo, s, v.lo, v.len);
    assert v.Bytes() == v.arr[..][v.lo..v.lo + v.len];
  }

  /** A block in an array of its own. */
  method NewBlock(s: seq<byte>) returns (w: Slice)
    requires |s| == BLOCK_SIZE
    ensures fresh(w.arr) && w.InBounds() && w.len == BLOCK_SIZE && w.Bytes() == s
  {
    var b := new byte[BLOCK_SIZE](i requires 0 <= i < BLOCK_SIZE => s[i]);
    w := Slice(b, 0, BLOCK_SIZE);
  }

  class Device {
    const base: array<byte>
    var dirty: map<int, Slice>

    ghost function Buffers(): set<array<byte>>
      reads this
    {
      set k | k in dirty :: dirty[k].arr
    }

    function Blocks(): nat {
      base.Length / BLOCK_SIZE
    }

    /** Each dirty block owns a window of its own, apart from all others and from the base. */
    ghost predicate Valid()
      reads this
    {
      Aligned(base.Length) && base.Length < TWO_TO_THE_63 && base !in Buffers() && Laid(dirty, Blocks())
    }

    /** The dirty blocks by index. */
    ghost function Contents(): (m: Overlay)
      requires Valid()
      reads this, Buffers()
      ensures m.Keys == dirty.Keys && Fits(m, Blocks())
    {
      map k | k in dirty :: dirty[k].Bytes()
    }

    /** A dirty block's bytes. */
    function Dirty(idx: int): (b: seq<byte>)
      requires Valid() && idx in dirty
      reads this, Buffers()
      ensures b == Contents()[idx] && |b| == BLOCK_SIZE && 0 <= idx < Blocks()
    {
      dirty[idx].Bytes()
    }

    /** A dirty index, which is never negative. */
    function DirtyIndex(idx: int): (i: nat)
      requires Valid() && idx in dirty
      reads this
      ensures i == idx
    {
      idx
    }

    /** The image the device stands for. */
    ghost function Image(): seq<byte>
      requires Valid()
      reads this, base, Buffers()
    {
      ImageOf(base[..], Contents())
    }

    /** New panics on an unaligned base: a programmer error. */
    constructor (base: array<byte>)
      requires Aligned(base.Length) && base.Length < TWO_TO_THE_63
      ensures this.base == base && Valid() && Contents() == map[] && Buffers() == {} && Image() == base[..]
    {
      this.base := base;
      dirty := map[];
      new;
      CleanImage(base[..]);
    }

    /** Overwrites a dirty block in its window; no other block is touched. */
    method Fill(idx: int, s: seq<byte>)
      requires Valid() && idx in dirty && |s| == BLOCK_SIZE
      modifies dirty[idx].arr
      ensures Contents() == old(Contents())[idx := s]
    {
      hide Contents, Splice;
      var w := dirty[idx];
      ghost var was := w.arr[..];
      CopyInto(w.arr, w.lo, s);
      SpliceInside(was, w.lo, s);
      assert w.Bytes() == w.arr[..][w.lo..w.lo + w.len];
      forall k | k in dirty && k != idx ensures Dirty(k) == old(Dirty(k)) {
        var v := dirty[k];
        assert Apart(v, w);
        if v.arr == w.arr {
          WindowKept(v, was, w.lo, s);
          assert old(v.Bytes()) == was[v.lo..v.lo + v.len];
        }
      }
      ContentsKept(idx);
    }

    /** Gives a clean block a fresh window of its own. */
    method Allocate(idx: int)
      requires Valid() && 0 <= idx < Blocks()
      modifies this`dirty
      ensures Valid() && idx in dirty && fresh(Buffers() - old(Buffers()))
      ensures dirty.Keys == old(dirty.Keys) + {idx}
      ensures Contents() == old(Contents())[idx := Dirty(idx)]
    {
      hide Valid, Contents;
      if idx in dirty {
        assert Contents() == Contents()[idx := Dirty(idx)];
      } else {
        Store(idx, Zeros(BLOCK_SIZE));
        assert idx in Contents();
      }
    }

    /** Makes `w` the window of a block, in place of any it had. */
    method Adopt(idx: int, w: Slice)
      requires Valid() && 0 <= idx < Blocks()
      requires w.InBounds() && w.len == BLOCK_SIZE && w.arr != base
      requires forall k :: k in dirty && k != idx ==> Apart(dirty[k], w) && Apart(w, dirty[k])
      modifies this`dirty
      ensures Valid() && dirty == old(dirty)[idx := w] && Buffers() <= old(Buffers()) + {w.arr}
      ensures Contents() == old(Contents())[idx := w.Bytes()]
    {
      hide Contents, Laid;
      LaidUpdate(dirty, Blocks(), idx, w);
      dirty := dirty[idx := w];
      assert forall k :: k in old(dirty) && k != idx ==> dirty[k] == old(dirty[k]);
      ContentsKept(idx);
    }

    twostate lemma SameContents()
      requires old(Valid()) && Valid() && dirty == old(dirty)
      requires forall k :: k in dirty ==> Dirty(k) == old(Dirty(k))
      ensures Contents() == old(Contents())
    {
      hide Valid, Contents;
      var m, was := Contents(), old(Contents());
      assert m.Keys == was.Keys;
      forall k | k in m ensures m[k] == was[k] {
        assert m[k] == Dirty(k) && was[k] == old(Dirty(k));
      }
    }

    /** A window in an array of its own meets no other. */
    lemma ApartFromOthers(w: Slice)
      requires w.arr !in Buffers()
      ensures forall k :: k in dirty ==> Apart(dirty[k], w) && Apart(w, dirty[k])
    {
      forall k | k in dirty ensures Apart(dirty[k], w) && Apart(w, dirty[k]) {
        assert dirty[k].arr in Buffers();
      }
    }

    /** Stores a block in a new window, whatever window it had. */
    method Store(idx: int, s: seq<byte>)
      requires Valid() && 0 <= idx < Blocks() && |s| == BLOCK_SIZE
      modifies this`dirty
      ensures Valid() && fresh(Buffers() - old(Buffers()))
      ensures Contents() == old(Contents())[idx := s]
    {
      hide Contents, Apart;
      var w := NewBlock(s);
      ApartFromOthers(w);
      Adopt(idx, w);
    }

    lemma BaseIsSane()
      requires Valid()
      ensures Aligned(base.Length) && base.Length < TWO_TO_THE_63 && base !in Buffers() && Aligned(0)
    {
    }

    /** Only block `idx` differs between the two states. */
    twostate lemma ContentsKept(idx: int)
      requires old(Valid()) && Valid() && dirty.Keys == old(dirty.Keys) + {idx}
      requires forall k :: k in old(dirty) && k != idx ==> Dirty(k) == old(Dirty(k))
      ensures Contents() == old(Contents())[idx := Dirty(idx)]
    {
      hide Valid, Contents;
      var m, was := Contents(), old(Contents());
      assert m.Keys == was.Keys + {idx};
      forall k | k in m ensures m[k] == was[idx := Dirty(idx)][k] {
        assert m[k] == Dirty(k);
        if k != idx {
          assert was[k] == old(Dirty(k));
        }
      }
    }

    /** Stores a block, in the window it already owns or in a new one. */
    method WriteBlock(idx: int, src: Slice)
      requires Valid() && 0 <= idx < Blocks()
      requires src.InBounds() && src.len == BLOCK_SIZE && src.arr !in Buffers()
      modifies this`dirty, Buffers()
      ensures Valid() && fresh(Buffers() - old(Buffers()))
      ensures Contents() == old(Contents())[idx := old(src.Bytes())]
    {
      hide Valid, Contents;
      Allocate(idx);
      assert dirty[idx].arr in Buffers();
      Fill(idx, src.Bytes());
    }

    /** The block as a read serves it: from the overlay if it is there, else from the base. */
    method BlockBytes(idx: nat) returns (src: seq<byte>)
      requires Valid() && idx < Blocks()
      ensures src == Block(idx, Image())
    {
      ServedIsImage(base[..], Contents(), idx);
      src := if idx in dirty then dirty[idx].Bytes() else base[idx * BLOCK_SIZE..(idx + 1) * BLOCK_SIZE];
      assert src == Served(base[..], Contents(), idx);
    }

    /** Fills the caller's slice block by block; the slice is foreign to the device. */
    method ReadAt(p: Slice, off: int) returns (n: int, err: Option<Error>)
      requires Valid() && p.InBounds() && p.arr != base && p.arr !in Buffers()
      requires p.len < TWO_TO_THE_63 && -TWO_TO_THE_63 <= off < TWO_TO_THE_63
      modifies p.arr
      ensures err == CheckRange(base.Length, p.len, off)
      ensures err.Some? ==> n == 0 && p.arr[..] == old(p.arr[..])
      ensures err == None ==> n == p.len && p.arr[..] == Splice(old(p.arr[..]), p.lo, Image()[off..off + p.len])
    {
      hide ImageOf, CheckRange, Splice, Contents, Valid, Aligned;
      BaseIsSane();
      err := CheckRange(base.Length, p.len, off);
      n := 0;
      if err.Some? {
        return;
      }
      ghost var before, img := p.arr[..], Image();
      SpliceNothing(before, p.lo, img[off..off]);
      while n < p.len
        invariant 0 <= n <= p.len && Aligned(n) && Image() == img
        invariant p.arr[..] == Splice(before, p.lo, img[off..off + n])
      {
        var idx := (off + n) / BLOCK_SIZE;
        NextBlock(off, n, p.len, base.Length);
        var src := BlockBytes(idx);
        CopyInto(p.arr, p.lo + n, src);
        SpliceTwice(before, p.lo, img[off..off + n], src);
        assert img[off..off + n] + src == img[off..off + n + BLOCK_SIZE];
        n := n + BLOCK_SIZE;
      }
    }

    /** Copies the incoming blocks into the overlay; neither the base nor the caller's slice is touched. */
    method WriteAt(p: Slice, off: int) returns (n: int, err: Option<Error>)
      requires Valid() && p.InBounds() && p.arr !in Buffers()
      requires p.len < TWO_TO_THE_63 && -TWO_TO_THE_63 <= off < TWO_TO_THE_63
      modifies this`dirty, Buffers()
      ensures Valid() && fresh(Buffers() - old(Buffers()))
      ensures err == CheckRange(base.Length, p.len, off)
      ensures err.Some? ==> n == 0 && Contents() == old(Contents())
      ensures err == None ==> n == p.len && Contents() == WriteBlocks(old(Contents()), old(p.Bytes()), off)
      ensures err == None ==> Image() == Splice(old(Image()), off, old(p.Bytes()))
    {
      hide ImageOf, CheckRange, Splice, Contents, Valid, Aligned;
      BaseIsSane();
      err := CheckRange(base.Length, p.len, off);
      n := 0;
      if err.Some? {
        return;
      }
      ghost var s, m := p.Bytes(), Contents();
      assert s[..0] == [];
      while n < p.len
        invariant 0 <= n <= p.len && Aligned(n)
        invariant Valid() && fresh(Buffers() - old(Buffers())) && p.arr !in Buffers() && p.Bytes() == s
        invariant Contents() == WriteBlocks(m, s[..n], off)
      {
        var idx := (off + n) / BLOCK_SIZE;
        NextBlock(off, n, p.len, base.Length);
        var src := Slice(p.arr, p.lo + n, BLOCK_SIZE);
        SubSlice(p, n, BLOCK_SIZE);
        WriteBlock(idx, src);
        WriteSnoc(m, s, n, off);
        n := n + BLOCK_SIZE;
      }
      assert s[..n] == s;
      WriteIsSplice(base[..], m, s, off);
    }

    // ----- runs of calls

    /** One call, the data read or written passing through an array of the caller's. */
    method Perform(c: Call) returns (r: Reply)
      requires Valid() && Possible(c)
      modifies this`dirty, Buffers()
      ensures Valid() && fresh(Buffers() - old(Buffers())) && base[..] == old(base[..])
      ensures (Contents(), r) == DeviceStep(base[..], old(Contents()), c)
    {
      hide Contents, Valid, WriteBlocks, ReadBlocks, ImageOf, Splice, CheckRange;
      BaseIsSane();
      match c
      case ReadCall(len, off) =>
        r := PerformRead(len, off);
      case WriteCall(data, off) =>
        var p := new byte[|data|](i requires 0 <= i < |data| => data[i]);
        assert Slice(p, 0, |data|).Bytes() == data;
        var n, err := WriteAt(Slice(p, 0, |data|), off);
        r := if err.Some? then Refuse(err.value) else Done(n);
    }

    method PerformRead(len: nat, off: int) returns (r: Reply)
      requires Valid() && Possible(ReadCall(len, off))
      ensures (Contents(), r) == DeviceStep(base[..], Contents(), ReadCall(len, off))
    {
      hide Contents, Valid, ReadBlocks, ImageOf, Splice, CheckRange;
      BaseIsSane();
      var p := new byte[len];
      ghost var was, img := p[..], Image();
      var n, err := ReadAt(Slice(p, 0, len), off);
      if err.Some? {
        r := Refuse(err.value);
      } else {
        ReadWhole(base[..], Contents(), was, len, off);
        r := Data(p[..]);
      }
    }

    /** Any run of calls answers, and leaves the device, as the same run on a flat copy of its image. */
    method PerformAll(calls: seq<Call>) returns (replies: seq<Reply>)
      requires Valid() && AllPossible(calls)
      modifies this`dirty, Buffers()
      ensures Valid() && fresh(Buffers() - old(Buffers())) && base[..] == old(base[..])
      ensures (Contents(), replies) == DeviceRun(base[..], old(Contents()), calls)
      ensures (Image(), replies) == FlatRun(old(Image()), calls)
    {
      hide Contents, Valid, DeviceStep, DeviceRun, FlatRun, ImageOf, Possible;
      BaseIsSane();
      ghost var b, m := base[..], Contents();
      replies := [];
      NothingDone(b, m, calls);
      for i := 0 to |calls|
        invariant Valid() && fresh(Buffers() - old(Buffers())) && base[..] == b
        invariant (Contents(), replies) == DeviceRun(b, m, calls[..i])
      {
        RunSnoc(b, m, calls, i);
        var r := Perform(calls[i]);
        replies := replies + [r];
      }
      assert calls[..|calls|] == calls;
      RunRefines(b, m, calls);
    }

    /** The dirty indices in ascending order. */
    method SortedIndices() returns (idxs: seq<int>)
      requires Valid()
      ensures idxs == SortedKeys(Contents())
    {
      idxs := Collect(dirty.Keys);
    }
  }

  /** Between aligned offsets there is always room for a whole block. */
  lemma NextBlock(off: nat, n: nat, len: nat, baseLen: nat)
    requires Aligned(off) && Aligned(n) && Aligned(len) && n < len && off + len <= baseLen
    ensures Aligned(n + BLOCK_SIZE) && n + BLOCK_SIZE <= len
    ensures var idx := (off + n) / BLOCK_SIZE; idx * BLOCK_SIZE == off + n && idx < baseLen / BLOCK_SIZE
  {
  }

  /** What a whole read leaves in the caller's slice is what the blocks served add up to. */
  lemma ReadWhole(base: seq<byte>, m: Overlay, was: seq<byte>, len: nat, off: int)
    requires |base| < TWO_TO_THE_63 && Fits(m, |base| / BLOCK_SIZE) && |was| == len
    requires Possible(ReadCall(len, off)) && CheckRange(|base|, len, off) == None
    ensures 0 <= off <= off + len <= |base| && Aligned(len) && Aligned(off)
    ensures Splice(was, 0, ImageOf(base, m)[off..off + len]) == ReadBlocks(base, m, off / BLOCK_SIZE, len / BLOCK_SIZE)
  {
    hide ImageOf, Fits, ReadBlocks, Splice;
    AlignedSpan(off, len);
    ReadIsSlice(base, m, off / BLOCK_SIZE, len / BLOCK_SIZE);
    SpliceAll(was, ImageOf(base, m)[off..off + len]);
  }

  lemma AlignedSpan(off: nat, len: nat)
    requires Aligned(off) && Aligned(len)
    ensures off / BLOCK_SIZE * BLOCK_SIZE == off && (off / BLOCK_SIZE + len / BLOCK_SIZE) * BLOCK_SIZE == off + len
  {
  }

  lemma SpliceAll(was: seq<byte>, s: seq<byte>)
    requires |was| == |s|
    ensures Splice(was, 0, s) == s
  {
  }

  lemma NothingDone(base: seq<byte>, m: Overlay, calls: seq<Call>)
    requires |base| < TWO_TO_THE_63 && AllPossible(calls)
    ensures AllPossible(calls[..0]) && DeviceRun(base, m, calls[..0]) == (m, [])
  {
  }

  lemma WriteSnoc(m: Overlay, s: seq<byte>, n: nat, off: nat)
    requires Aligned(n) && n + BLOCK_SIZE <= |s|
    ensures WriteBlocks(m, s[..n + BLOCK_SIZE], off)
         == WriteBlocks(m, s[..n], off)[(off + n) / BLOCK_SIZE := s[n..n + BLOCK_SIZE]]
  {
    var t := s[..n + BLOCK_SIZE];
    assert t[..n] == s[..n] && t[n..] == s[n..n + BLOCK_SIZE];
  }

  lemma CollectNothing()
    ensures Distinct([]) && Elements<int>([]) == {}
  {
  }

  lemma CollectStep(keys: set<int>, rest: set<int>, idxs: seq<int>, k: int)
    requires Elements(idxs) + rest == keys && Elements(idxs) !! rest && Distinct(idxs) && k in rest
    ensures Elements(idxs + [k]) + (rest - {k}) == keys && Elements(idxs + [k]) !! (rest - {k}) && Distinct(idxs + [k])
  {
    hide Distinct, Elements;
    DistinctSnoc(idxs, k);
  }

  /** Walks a map's keys in whatever order they come and sorts them. */
  method Collect(keys: set<int>) returns (idxs: seq<int>)
    ensures idxs == SortedSet(keys)
  {
    hide Sort, Ascending, Elements, Distinct;
    idxs := [];
    CollectNothing();
    var rest := keys;
    while rest != {}
      invariant Elements(idxs) + rest == keys && Elements(idxs) !! rest && Distinct(idxs)
      decreases rest
    {
      var k := Pick(rest);
      CollectStep(keys, rest, idxs, k);
      idxs := idxs + [k];
      rest := rest - {k};
    }
    assert Elements(idxs) == keys;
    SortDistinct(idxs);
    idxs := Sort(idxs);
  }

  /** Some element of a set, as the order of a map iteration would have it. */
  method Pick(s: set<int>) returns (k: int)
    requires s != {}
    ensures k in s
  {
    ghost var x := Any(s);
    k :| k in s;
  }
}
