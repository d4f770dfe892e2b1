/** The bdev commands: diff two images into a delta, apply a delta to a base. */
module Cli {
  import opened Bytes
  import opened Records
  import opened RecordDecoder
  import opened WireFormat
  import opened Images
  import opened BlockDevice
  import opened Erasure
  import opened Geometry
  import opened ShardedFormat
  import opened Codec
  import opened Serializer
  import opened ShardWriter
  import opened ShardReader

  /** SerializeTier. */
  method SerializeTier(
    code: ErasureCode, dev: Device, tier: byte, procs: nat) returns (blob: array?<byte>, err: Option<Error>)
    requires WellShaped(code) && dev.Valid()
    ensures Holds(dev.Contents(), SortedKeys(dev.Contents())) && |SortedKeys(dev.Contents())| == |dev.Contents()|
    ensures blob != null ==> fresh(blob)
    ensures match Serialize(code, dev.Contents(), tier)
            case Refused(e) => blob == null && err == Some(e)
            case Blob(bytes) => blob != null && blob[..] == bytes && err == None
  {
    hide Flat, Header, SerializeRs, Holds, SortedKeys;
    BlocksBounded(dev);
    SortedKeysHold(dev.Contents(), dev.Blocks());
    if tier == TIER_L0 || tier == TIER_L1 {
      blob := SerializeRecords(dev, tier, procs);
      err := None;
    } else if tier == TIER_L2 {
      blob, err := SerializeRS(code, dev, 0, 0, procs);
    } else {
      blob, err := null, Some(UnsupportedTier);
    }
  }

  // ----- diff

  /** The blocks in which the modified image differs from the base, as far as the first `n`. */
  function Differences(base: seq<byte>, mod: seq<byte>, n: nat): Overlay
    requires |base| == |mod| && n * BLOCK_SIZE <= |base|
  {
    map k | 0 <= k < n && Block(k, base) != Block(k, mod) :: Block(k, mod)
  }

  lemma DifferencesStep(base: seq<byte>, mod: seq<byte>, k: nat)
    requires |base| == |mod| && (k + 1) * BLOCK_SIZE <= |base|
    ensures Differences(base, mod, k + 1) ==
              if Block(k, base) != Block(k, mod) then Differences(base, mod, k)[k := Block(k, mod)]
              else Differences(base, mod, k)
  {
  }

  lemma WriteSingle(m: Overlay, s: seq<byte>, off: nat, k: nat)
    requires |s| == BLOCK_SIZE && off == k * BLOCK_SIZE
    ensures WriteBlocks(m, s, off) == m[k := s]
  {
    assert s[..0] == [] && s[0..] == s;
  }

  /** Compares block by block and writes the changed ones into a device over the base. */
  method DiffImages(base: array<byte>, mod: array<byte>) returns (dev: Device)
    requires base.Length == mod.Length && Aligned(base.Length) && base.Length < TWO_TO_THE_63
    ensures fresh(dev) && dev.Valid() && dev.base == base && fresh(dev.Buffers())
    ensures dev.Contents() == Differences(base[..], mod[..], dev.Blocks())
  {
    hide Differences, WriteBlocks, Splice, ImageOf, Device.Contents;
    dev := new Device(base);
    var off := 0;
    ghost var k := 0;
    NoDifferences(base[..], mod[..]);
    while off < base.Length
      invariant 0 <= off <= base.Length && off == k * BLOCK_SIZE
      invariant dev.Valid() && dev.base == base && fresh(dev.Buffers())
      invariant dev.Contents() == Differences(base[..], mod[..], k)
    {
      DifferencesStep(base[..], mod[..], k);
      var b, c := base[off..off + BLOCK_SIZE], mod[off..off + BLOCK_SIZE];
      assert b == Block(k, base[..]) && c == Block(k, mod[..]);
      if b != c {
        WriteSingle(dev.Contents(), c, off, k);
        var n, err := dev.WriteAt(Slice(mod, off, BLOCK_SIZE), off);
      }
      off := off + BLOCK_SIZE;
      k := k + 1;
    }
  }

  lemma NoDifferences(base: seq<byte>, mod: seq<byte>)
    requires |base| == |mod|
    ensures Differences(base, mod, 0) == map[]
  {
  }

  // ----- apply

  /** Materializes base plus delta as a full image; on partial recovery the image is still made. */
  method ApplyDelta(
    code: ErasureCode, base: array<byte>, blob: seq<byte>) returns (img: array?<byte>, err: Option<Error>)
    requires WellShaped(code) && base.Length < TWO_TO_THE_63
    ensures match Decode(code, blob, base.Length)
            case Reject(e) => img == null && err == Some(e)
            case Accept(m, e) =>
              img != null && fresh(img) && err == e &&
              Fits(m, base.Length / BLOCK_SIZE) && img[..] == ImageOf(base[..], m)
  {
    hide Decode, ImageOf, Splice, Device.Contents;
    var dev, e := Deserialize(code, blob, base);
    if dev == null {
      return null, e;
    }
    dev.BaseIsSane();
    var out := new byte[base.Length];
    var n, failed := dev.ReadAt(Slice(out, 0, base.Length), 0);
    WholeSplice(out[..], dev.Image());
    return out, e;
  }

  lemma WholeSplice(s: seq<byte>, t: seq<byte>)
    ensures forall was: seq<byte> :: |was| == |t| ==> Splice(was, 0, t[0..0 + |t|]) == t
  {
  }

  // ----- end to end

  /** The delta holds exactly the blocks that differ, and applying it to the base gives the modified image. */
  lemma DiffRestores(base: seq<byte>, mod: seq<byte>)
    requires |base| == |mod| && Aligned(|base|)
    ensures var m := Differences(base, mod, |base| / BLOCK_SIZE);
            Fits(m, |base| / BLOCK_SIZE) && ImageOf(base, m) == mod &&
            forall k: nat :: k < |base| / BLOCK_SIZE ==> (k in m <==> Block(k, base) != Block(k, mod))
  {
    var m := Differences(base, mod, |base| / BLOCK_SIZE);
    forall i | 0 <= i < |base| ensures ImageOf(base, m)[i] == mod[i] {
      var k := i / BLOCK_SIZE;
      assert Block(k, mod)[i % BLOCK_SIZE] == mod[i] && Block(k, base)[i % BLOCK_SIZE] == base[i];
    }
  }

  /**
   * End to end at any tier: serializing the difference of two images and applying the blob to the base gives
   * the modified image and no error; at L2, for deltas within the decoder's allocation bounds, and beyond
   * them the blob is refused.
   */
  lemma EndToEnd(code: ErasureCode, base: seq<byte>, mod: seq<byte>, tier: byte)
    requires WellShaped(code) && |base| == |mod| && Aligned(|base|) && |base| < TWO_TO_THE_63
    requires tier <= TIER_L2
    requires var g := ShapeFor(|Differences(base, mod, |base| / BLOCK_SIZE)|, 0, 0);
             tier == TIER_L2 ==> code.init(g.n, g.k) && Corrects(code, g.n, g.k)
    ensures var m := Differences(base, mod, |base| / BLOCK_SIZE);
            Fits(m, |base| / BLOCK_SIZE) && ImageOf(base, m) == mod &&
            Holds(m, SortedKeys(m)) && |SortedKeys(m)| == |m| &&
            var e := Serialize(code, m, tier);
            e.Blob? &&
            Decode(code, e.bytes, |base|) ==
              if tier == TIER_L2 && |m| > 1_742_521 then Reject(Corrupt) else Accept(m, None)
  {
    hide Differences, ImageOf, Serialize, Decode, ShapeFor, Corrects, Decodable;
    DiffRestores(base, mod);
    var m := Differences(base, mod, |base| / BLOCK_SIZE);
    if tier == TIER_L2 {
      DefaultRsRoundTrip(code, m, |base|);
    } else {
      RecordRoundTrip(code, m, tier, |base|);
    }
  }
}
