# A verified model of the `blockdevice` package

`blockdevice` is an in-memory copy-on-write block device with a wire format for its dirty overlay at three
integrity tiers: L0 (bare records), L1 (a CRC-32 per record) and L2 (the L1 payload cut into N data shards with
K Reed-Solomon parity shards). A decoder recovers what it can from damaged blobs and accounts for the rest in a
`PartialRecoveryError`. `Inspect` walks the same bytes a second time, without a base, and claims to mirror the
decoder.

The model has two layers.

- **Meaning.** Pure modules say what the bytes mean. Every decoder of the package is described by the *slots* it
  reads (a whole record that verifies or not, a record of which only the index is left, or nothing) and by one
  function, `RecordDecoder.Conclude`, that turns slots into an overlay and an error. `Records`, `WireFormat`,
  `Geometry`, `Shards`, `ShardedFormat` and `Codec` build blobs from overlays and read them back; `Layout` gives
  their bytes by position; `Inspection` is the second walk and `Reports` what it says of each kind of damage;
  `Images` is the flat image a device stands for. The theorems are proved here.
- **Code.** `BlockDevice`, `Deserializer`, `Serializer`, `ShardWriter`, `ShardReader`, `Inspector` and `Cli`
  follow the Go code: a `Device` class with a map of windows into byte arrays, one arena shared by all decoded
  blocks, loops that copy into the shard slots of the blob, the in-place filter of `finalizeBad`, the mutable
  `Info`. Loop-free steps are taken from the first layer as functions: reading one record (`SlotAt`), placing one
  stride (`Place`), parsing the rsMeta (`ParseMeta`), choosing and checking the shape (`ShapeFor`, `Encodable`),
  little-endian fields and checksums. Each method is proved to produce exactly what the first layer describes.
  `Schedule` models the goroutines as a transition system.

Every theorem about overlays therefore holds of the methods: `Cli.SerializeTier` produces `Codec.Serialize` of
the device's contents, `ShardReader.Deserialize` produces `Codec.Decode` of the blob,
`Inspector.InspectBlob` produces `Inspection.Inspect`, and `BlockDevice.Device.PerformAll` performs
`Images.DeviceRun` on a device object.

Conventions:

- Integers are unbounded. 64-bit wrap-around is written out where the code depends on it: the range check, the
  signed reading of an index field, the geometry rule and the 4x slack check in `uint64`, the 2- and 4-byte meta
  fields.
- CRC-32 is defined concretely, as in section 8 of RFC 1952, and shown to detect every change confined to four
  consecutive bytes. `WireFormat.BurstsAccounted`, `Codec.OneByteChanged` and `Codec.BurstsRepaired` build on that
  and assume nothing about checksums. Theorems about wider damage take "fails its CRC" as a hypothesis on the
  damaged bytes; nothing is claimed about how likely that is.
- Reed-Solomon is a parameter, `Erasure.ErasureCode`. `WellShaped` (shards come back in the number and size they
  went in), `Corrects` (any N of the N+K shards determine the data shards) and, for one theorem, `Systematic` (data
  shards that are present come back as they are) are hypotheses of the theorems that need them. Two codes are proved
  to meet them: `Erasure.Replication` for N = 1 and any K, `Parity.Code` for any N and K = 1.
- The model fixes `int` at 64 bits, so lengths are below 2^63.

## Where the code and its documentation part

- blockdevice/rs.go:75-77 says that the decoder accepts every blob `SerializeRS` can produce. It does not: the
  decoder bounds `total*shardSize` by 2^33 and stores `shardSize` in four bytes, and the encoder checks neither.
  `Codec.RsRoundTrip` gives the exact condition in numbers, `Codec.DefaultRsRoundTrip` the number of blocks up to
  which the default geometry is safe; `Geometry.LargeDeltaRefused` gives a failing input, two million dirty blocks at
  the default 10+2. Such a blob is refused outright, never misread. The converse ("and vice versa") fails as well:
  `ShardedFormat.WrittenShapes` says which of the decoder's geometries the encoder can write.
- docs/DESIGN.md:92-97 argues that padding never fills a shard from N <= 62. The code admits N = 63 when encoding
  and N = 64 (with K = 0) when decoding: `Geometry.WidestShapes`. `Geometry.PaddingIsSmall` proves the conclusion
  for all of these.
- blockdevice/format.go:25-26 says that up to K corrupt shards are reconstructed transparently. A shard's CRC covers
  its data and not its index, so a changed index that names another slot passes. `Shards.ReindexedErases` gives the
  exact condition under which the slots still hold nothing wrong, `Codec.RsOneByteChanged` the outcome for the
  blob, and `Reindexing.BlockLost` an input on which one changed byte costs the block. The fault model of
  `Codec.ErasuresTolerated` asks that every stride the decoder accepts be one that was written.
- blockdevice/inspect.go:15 says that the loss reporting of `Inspect` mirrors `Deserialize`. Of BadBlocks this holds up
  to blocks outside the base and blocks applied after all: `Inspection.InspectAgrees` gives the exact relation and
  when it is a mirror within the base, `Inspection.TailListedOnly` an input on which it is not.

- blockdevice/format.go:183-185 says that every worker serializes at least 128 records. The last one may get fewer:
  `Schedule.EnoughWork` says exactly when, `Schedule.LastWorkerShort` gives an input.

## Model

| member | source | states |
|---|---|---|
| Bytes.FromLEOfLE | blockdevice/rs.go:149-152 | A value put into a little-endian field of any width reads back modulo the capacity of the field, which is what makes an oversized shard size wrap. |
| Bytes.LEDigit | docs/DESIGN.md:19 | Byte i of a stored integer is its i-th digit in base 256, the least significant first. |
| Bytes.BitsAreValue | blockdevice/format.go:169-170 | The bits a checksum takes of a byte are those of its value, the lowest bit worth 1; so the CRC below is the reflected one of RFC 1952. |
| Records.SignedIndex | blockdevice/format.go:328 | An index field reads as the stored number, less 2^64 when the highest bit is set. |
| Layout.EmptyBlob | blockdevice/format.go:134-158 | The blob of an empty overlay at L0, written out byte for byte, CRC included. |
| Layout.HeaderLaidOut | docs/DESIGN.md:23 | Magic, version, tier, count and CRC of any header at their documented positions. |
| Layout.RecordBlobLaidOut | docs/DESIGN.md:23-25 | An L0/L1 blob has exactly the documented length, and index, data and CRC of the i-th record stand at their documented positions. |
| Layout.RsBlobLaidOut | docs/DESIGN.md:26-29 | An L2 blob has exactly the documented length; rsMeta and the index, CRC and data of each shard stand at their documented positions. |
| Layout.PayloadLaidOut | blockdevice/rs.go:162-175 | Byte p of the payload is byte p % shardSize of data shard p / shardSize; the rest of the data shards is zero. |
| Crc32.Incremental | blockdevice/rs.go:221 | Updating the checksum of one piece with a second piece gives the checksum of the two in one, pre- and post-inversion included. |
| Crc32.ChecksIff | blockdevice/format.go:330-331 | Four stored bytes are the checksum of what precedes them exactly when the register run over all of it ends in the CRC-32 residue 0xDEBB20E3. |
| Crc32.BurstDetected | blockdevice/format.go:22-24 | A string followed by its checksum, changed only within four consecutive bytes anywhere, checksum included, always fails the check. |
| Crc32.OneByteDetected | blockdevice/format.go:22-24 | So does any single changed byte. |
| Sorting.SortCompact | blockdevice/inspect.go:134-138 | Sorting a list of indices and then removing adjacent repetitions lists its set of elements once each, ascending. |
| Sorting.AscendingUnique | blockdevice/format.go:117-125 | A set of indices has one ascending listing, so the order of map iteration cannot be seen in any output. |
| Records.ParseEncode | blockdevice/format.go:163-174 | A record, with or without CRC, reads back as its index and data and verifies. |
| Records.FlatAt | blockdevice/format.go:163-174 | The i-th stride of the record stream is the record of the i-th index. |
| Records.FlatConcat | blockdevice/format.go:199-209 | Streams of consecutive index ranges written side by side are the stream of the whole list. |
| Records.FlatSlots | blockdevice/format.go:326-347 | Whatever bytes follow, the decoder finds in the front of a record stream exactly the records written. |
| RecordDecoder.AppliedFrom | blockdevice/format.go:326-347 | Every block in the decoded overlay has the data of a verified, in-range record after which no other usable record names the block. |
| RecordDecoder.LastWriteWins | blockdevice/format.go:326-347 | Conversely, the last usable record for a block determines what the overlay holds for it. |
| RecordDecoder.ConcludeWellFormed | blockdevice/format.go:50-78 | A decoded overlay has in-range keys and whole blocks; an error lists bad blocks strictly ascending, in range and outside the overlay, and lists at least one or is Truncated. |
| RecordDecoder.LossIsReported | blockdevice/format.go:292-305 | Wherever a record is not wholly there, the error is not nil, whatever other records say. |
| RecordDecoder.NilErrorIff | blockdevice/format.go:349-374 | The error is nil exactly when every slot is a verified in-range record, or a failed one whose read index names an applied block with bit-identical data. |
| RecordDecoder.ShuffleInvariant | blockdevice/format.go:326-373 | Permuting records whose verified in-range indices are distinct changes neither the overlay nor the error. |
| RecordDecoder.IntactDecodes | blockdevice/format.go:268-374 | The records of an overlay decode to that overlay with a nil error. |
| RecordDecoder.DegradedConcludes | blockdevice/format.go:349-373 | When some records of a stream fail their CRC, the overlay is the rest of the original; no block is blamed; the error is nil exactly when every failed record doubles a surviving one. |
| RecordDecoder.HoledConcludes | blockdevice/rs.go:427-499 | When some records are lost whole or down to their index, the overlay is the rest of the original, BadBlocks is exactly the set of lost records with a readable index, and Truncated is set exactly when some record lost its index. |
| WireFormat.HeaderReads | blockdevice/format.go:150-154 | The header written is recognised, verifies, and gives back tier, block count and body. |
| WireFormat.FlatDecodes | blockdevice/format.go:268-374 | Decoding the sorted record stream of an overlay gives the overlay and a nil error at L0 and L1. |
| WireFormat.HeaderlessCoincides | blockdevice/format.go:380-417 | On a body of whole L1 records the headerless scan returns the overlay of the regular decoder with Truncated and no bad blocks, or refuses, exactly according to whether a usable record exists. |
| WireFormat.FlatInjective | blockdevice/format.go:163-174 | Different overlays have different record streams. |
| WireFormat.TruncationAnywhere | blockdevice/format.go:286-305 | A body cut at any byte decodes to exactly its k lowest-index whole records, always with an error: the next index alone when eight of its bytes are left, else no bad block and Truncated. |
| WireFormat.SurplusFlagged | blockdevice/format.go:281-291 | For any body longer than the announced records: what lies beyond is never applied, even valid records; no block is blamed and Truncated is set. |
| WireFormat.SurplusReported | blockdevice/format.go:281-291 | Whatever is appended to a serialized body, the original overlay comes back, with Truncated. |
| WireFormat.CorruptionAccounted | blockdevice/format.go:326-373 | If each record of an L1 body is unchanged or fails its CRC, the overlay is the original restricted to the unchanged ones, and the error is nil exactly when each failed record's read index names a surviving block with the same data. |
| WireFormat.DamageReported | blockdevice/format.go:65-78 | With dirty contents pairwise distinct and each failed record's data or index still as written, a single failed record makes the decoder report Truncated. |
| WireFormat.BurstsAccounted | blockdevice/format.go:326-373 | If each record of an L1 body is changed at most within four consecutive bytes, wherever they lie, every changed record fails its CRC and the overlay is exactly the original restricted to the unchanged ones. |
| WireFormat.OneByteInBody | blockdevice/format.go:65-78 | One changed byte anywhere in an L1 body costs exactly the block it hits, and goes unreported if and only if it lies in an index field and turns it into the index of a dirty block with the very same contents. |
| Erasure.MissingBound | blockdevice/rs.go:397-422 | With more than K of N+K slots empty, some data slot is empty. |
| Erasure.MissingComplement | blockdevice/rs.go:357-362 | The erasure count and the number of shards present add up to the total. |
| Erasure.ReplicationCorrects | blockdevice/rs.go:176-181 | The contract asked of the erasure code is met by a concrete code: one data shard, any number of copies, at most K erasures, data recovered. |
| Erasure.ReplicationWellShaped | blockdevice/rs.go:403-407 | That code returns shards in the number and size that went in. |
| Erasure.ReplicationSystematic | blockdevice/rs.go:403-407 | It hands back data shards that are present as they are. |
| Parity.CorrectsOne | blockdevice/rs.go:176-181 | A second concrete code, one parity shard over any number of data shards, recovers the data from any N of the N+1. |
| Parity.WellShapedCode | blockdevice/rs.go:403-407 | Its shards come back in the number and size that went in. |
| Parity.SystematicCode | blockdevice/rs.go:403-407 | It hands back data shards that are present as they are. |
| Geometry.DefaultsEncodable | blockdevice/rs.go:95-105 | The default geometry passes the encoder's own checks for every number of dirty blocks. |
| Geometry.DefaultShape | blockdevice/rs.go:90-105 | The default is one data shard a dirty block up to ten, at least one, and two parity shards. |
| Geometry.RequestsKept | blockdevice/rs.go:114-122 | A positive request is granted as it is; otherwise the default is taken, for data and parity each. |
| Geometry.EncodableShapes | blockdevice/rs.go:123-133 | By the number of dirty blocks: at most 64 shards, at most max(2, N) of them parity, and N at most 1 for none, 33 for one, else 63. |
| Geometry.QuarterNeeded | blockdevice/rs.go:336-338 | The 4x slack holds exactly when a quarter of the announced section is there, rsMeta included. |
| ShardedFormat.DecodableIff | blockdevice/rs.go:320-323 | The decoder's bounds allow exactly the deltas with 4108 bytes a block on N shards of at most min(2^32 - 1, 2^33 / (N + K)) bytes. |
| ShardedFormat.DefaultDecodable | blockdevice/rs.go:320-323 | With the default geometry these are the deltas of up to 1742521 blocks. |
| Codec.EncoderAccepts | blockdevice/rs.go:110-133 | For any request, in numbers: exactly which geometries give a blob; all others give UnsupportedTier. |
| Geometry.PaddingIsSmall | blockdevice/rs.go:316-338 | In every accepted non-empty geometry payloadLen <= N*shardSize < payloadLen + N, and each data shard, the last included, holds payload bytes. |
| Geometry.WidestShapes | blockdevice/rs.go:123-133 | The encoder goes up to 63 data shards and one parity shard, not to 64 and one; the decoder admits 64 without parity. |
| Geometry.MetaReads | blockdevice/rs.go:148-153 | The rsMeta written verifies and reads back, with the shard size modulo 2^32. |
| Geometry.ParseMetaIff | blockdevice/rs.go:278-340 | A geometry is returned if and only if the body starts with exactly the rsMeta the encoder would write for it and the geometry passes every check. |
| Geometry.OwnShapeAdmissible | blockdevice/rs.go:300-338 | Of all the decoder's checks, a shape the encoder computed can fail only the 2^33 allocation cap and the 4x slack. |
| Geometry.WrappedSizeRefused | blockdevice/rs.go:320-338 | A shard size that wraps in its four-byte field is refused, never used. |
| Geometry.EncoderDecoderAgree | blockdevice/rs.go:75-77 | For any explicit N, K and payload the encoder accepts, the decoder reads back the same geometry if and only if it is Decodable and, when non-empty, at least a quarter of the section is there; otherwise it refuses. |
| ShardedFormat.WrittenShapes | blockdevice/rs.go:75-77 | Of the geometries the decoder admits, the encoder can write exactly those with at least one parity shard and with shard size 0 where there is no payload. |
| Geometry.LargeDeltaRefused | blockdevice/rs.go:320-323 | Two million dirty blocks at the default geometry are encoded, and refused on decoding. |
| Geometry.SlackSuffices | blockdevice/rs.go:336-338 | N surviving strides out of N+K always pass the 4x slack check, for every admissible geometry. |
| Shards.SpanIsPayload | blockdevice/rs.go:367-378 | Any span whose covering shards survive reads as that slice of the payload, across any number of shard boundaries. |
| Shards.FlattenDataShards | blockdevice/rs.go:203-227 | The data shards laid end to end are the payload followed by zero padding. |
| Shards.SectionOfStrides | blockdevice/rs.go:345-363 | The section walk sees exactly the whole strides laid end to end, whatever shorter tail follows. |
| Shards.StrideAccepted | blockdevice/rs.go:349-355 | A shard written with its header is accepted under its own index with its own data. |
| Shards.DamagedSection | blockdevice/rs.go:348-356 | From strides reordered, repeated, lost or spoiled, exactly the shards with an intact stride are recovered, each in its place. |
| Shards.SpottedRefused | blockdevice/rs.go:349-355 | A stride changed in its CRC field or within four consecutive data bytes is refused. |
| Shards.ReindexedPlaced | blockdevice/rs.go:348-356 | With the index of stride i rewritten to j, after any number of strides the slots hold exactly: the shards read so far in their places, none in slot i, and in slot j whichever of the two strides came first. |
| Shards.ReindexedErases | blockdevice/rs.go:352 | Such a section still parses to nothing but erasures if and only if j names no slot, or one filled before, or one due the very same bytes. |
| ShardedFormat.SpottedErases | blockdevice/rs.go:349-363 | Damage of that kind to any number of strides only erases shards: nothing damaged is accepted, nothing undamaged is lost. |
| ShardedFormat.OneByteInSection | blockdevice/rs.go:382-423 | One changed byte in the section is repaired without a trace in a stride's CRC or data, and in its index too unless it takes a data shard to a later slot due other bytes; then the decoder works on exactly the slots given, one missing and one holding the wrong shard. |
| ShardedFormat.DataPresent | blockdevice/rs.go:395-422 | With all data shards in place the overlay comes back with a nil error whatever the parity slots hold, whether reconstruction succeeds or not. |
| ShardedFormat.SalvageSlotIs | blockdevice/rs.go:439-470 | A salvaged record is the payload's record if all its shards survive, its index alone if those eight bytes do, else nothing. |
| ShardedFormat.SalvageCoincides | blockdevice/rs.go:427-499 | With all data shards present, the salvage walk gives the same overlay and the same error as the regular decoder on the payload. |
| ShardedFormat.NoSilentLoss | blockdevice/rs.go:397-422 | For every rsMeta accepted with a non-empty payload, whoever wrote it, more than K erasures always give a PartialRecoveryError. |
| ShardedFormat.LostShardLosesRecord | blockdevice/rs.go:439-470 | A lost data shard always takes part of some record with it. |
| ShardedFormat.ErasureTolerance | blockdevice/rs.go:395-409 | For any accepted geometry, any N or more intact strides, in any order, repeated, among refused ones, with a cut-off tail, decode to exactly the original overlay and a nil error. |
| ShardedFormat.SalvageAccounted | blockdevice/rs.go:427-499 | With fewer than N intact strides: if a quarter of the section is there, the overlay is exactly the records whose covering shards survive, BadBlocks is exactly the lost records whose index bytes survive, Truncated is set exactly when some index is lost; with less, the blob is refused. |
| ShardedFormat.MangledBody | blockdevice/rs.go:382-398 | Damage to strides reaches the decoder only as erasures: it works on exactly the intact shards or refuses the blob. |
| Codec.ArbitraryInput | blockdevice/format.go:225-263 | Any bytes over any base are either refused as Corrupt or UnsupportedTier, or give an overlay of whole in-range blocks with a nil or well-formed partial error. |
| Codec.RecordRoundTrip | blockdevice/format.go:134-158 | At L0 and L1 every overlay serializes and decodes to itself with a nil error. |
| Codec.UndamagedShards | blockdevice/rs.go:162-198 | The section as the encoder wrote it is an instance of the fault model of the erasure theorems, with all N+K strides intact. |
| Codec.RsRoundTrip | blockdevice/rs.go:110-199 | At any geometry the encoder accepts, the blob decodes to the same overlay with a nil error if 4108 bytes a block fit N shards of at most min(2^32 - 1, 2^33 / (N + K)) bytes, and is refused as Corrupt if not. |
| Codec.DefaultRsRoundTrip | blockdevice/format.go:141-142 | At tier L2 with default geometry the encoder never refuses; the blob decodes to the same overlay with a nil error up to 1742521 dirty blocks, and is refused as Corrupt above. |
| Codec.TruncatedBlob | blockdevice/format.go:286-305 | A whole L0/L1 blob cut at any byte after its header keeps its whole records and names or flags the loss. |
| Codec.SurplusBlob | blockdevice/format.go:281-291 | A whole L0/L1 blob with anything appended gives back its overlay, with Truncated. |
| Codec.ForeignRefused | blockdevice/format.go:226-234 | A blob shorter than 18 bytes or without the five signature bytes, or a base that is not a multiple of 4096, is refused as Corrupt. |
| Codec.UnknownTier | blockdevice/format.go:255-262 | Tiers above 2 are refused as UnsupportedTier, by the encoder and behind a verified header by the decoder. |
| Codec.HeaderlessRecovered | blockdevice/format.go:235-249 | An L1 body behind a header that fails its CRC comes back whole, with Truncated, if the tier byte reads 1 or above 2 and there is a record; otherwise the blob is refused. |
| Codec.OneByteChanged | blockdevice/format.go:225-263 | One changed byte anywhere in an L1 blob: in the signature, or turning the tier into 0 or 2, it costs the blob; elsewhere in the header only the nil error (or the blob if it is empty); in the body exactly one block, reported with exactly the exception above. |
| Codec.BurstsRepaired | blockdevice/rs.go:395-409 | An L2 blob in which at least N strides are untouched and each of the others is changed in its CRC field or within four consecutive data bytes decodes to the original overlay with a nil error. |
| Codec.RsOneByteChanged | blockdevice/format.go:25-27 | One changed byte anywhere in an L2 blob: in the header a refusal, or at least an error where the tier byte comes to read 1 or above 2; in the rsMeta a refusal; in the section exactly the outcome above; an empty overlay comes back whatever happens to the section. |
| Reindexing.BlockLost | blockdevice/format.go:25-27 | An input on which one corrupt shard of 2+1 is not reconstructed: one dirty block, the low byte of the first shard's index set to one; the block is not recovered. |
| Codec.LossNeverSilent | blockdevice/rs.go:397-422 | For every blob with a verified L2 header and an accepted non-empty rsMeta, more than K erasures give a PartialRecoveryError. |
| Codec.ErasuresTolerated | blockdevice/rs.go:395-409 | Erasure tolerance for the whole blob. |
| Codec.LossAccounted | blockdevice/rs.go:427-499 | Exact salvage accounting for the whole blob. |
| Codec.RecordBlobsDiffer | blockdevice/format.go:132-158 | At L0 and L1 different overlays never share a blob. |
| Codec.RsBlobsDiffer | blockdevice/rs.go:110-199 | Nor do they at L2, at any geometry and any size, even beyond the decoder's allocation bounds. |
| Inspection.SlotsAgree | blockdevice/inspect.go:144-172 | On one stream of slots the decoder's error is nil exactly when Inspect lists nothing, counts nothing and the base covers every verified index. |
| Inspection.BlamedIsListed | blockdevice/inspect.go:232-272 | On one stream of slots the decoder blames exactly the indices Inspect lists that lie in the base. |
| Inspection.BlamedIsTail | blockdevice/inspect.go:121-127 | At L0 and L1 the decoder blames exactly the index named in the tail, if it lies in the base and was not applied. |
| Inspection.TailListedOnly | blockdevice/inspect.go:15-19 | A failing input for the mirror: a whole record for block 0 and the first eight bytes of a second one. Inspect lists block 0; Deserialize lists nothing and sets Truncated. |
| Inspection.RecordsAgree | blockdevice/inspect.go:108-130 | For arbitrary L0/L1 bodies, with missing and surplus bytes: the decoder's BadBlocks are Inspect's, less those outside the base and those applied; the two agree within the base if and only if no cut-off record names a block that a usable record before it carries; and the error is nil exactly for clean reports on covering bases. |
| Inspection.RsAgree | blockdevice/inspect.go:204-274 | For arbitrary L2 bodies, repaired or salvaged: the decoder's BadBlocks are exactly Inspect's that lie in the base, and the error is nil exactly for clean reports on covering bases; where the erasure code cannot be set up the decoder refuses or reports loss. |
| Inspection.HeaderlessMirrors | blockdevice/inspect.go:179-197 | Behind an unverifiable header neither of the two names a block, and both report truncation. |
| Inspection.InspectAgrees | blockdevice/inspect.go:60-106 | On arbitrary bytes and any aligned base: an Inspect error is also the decoder's; a nil decoder error means nothing reported; the decoder's BadBlocks are exactly Inspect's, less those outside the base and those applied, and all of Inspect's within the base if and only if no cut-off L0/L1 record repeats an applied one; nothing reported means a nil error exactly on bases covering every verified index. |
| Reports.ReportFields | blockdevice/inspect.go:68-71 | Version, tier, block count and size of every report are those of the blob's bytes, the version being 1. |
| Reports.WrittenReported | blockdevice/inspect.go:60-106 | Of every L0/L1 blob as written: version 1, its tier, the number of dirty blocks, its size, no loss. |
| Reports.RsWrittenReported | blockdevice/inspect.go:204-226 | Of every L2 blob as written likewise, within the decoder's bounds; beyond them Corrupt. |
| Reports.CutReported | blockdevice/inspect.go:120-127 | Of an L0/L1 blob cut after its header: the next index, or one record of unattributed loss if fewer than eight of its bytes are left; truncated. |
| Reports.SurplusReported | blockdevice/inspect.go:115-119 | Of an L0/L1 blob with anything appended: no loss, but truncated. |
| Reports.CorruptionReported | blockdevice/inspect.go:149-172 | Of an L1 blob in which records fail their CRC: no block, and exactly as many unattributed losses as failed records double no surviving one. |
| Reports.HeaderlessReported | blockdevice/inspect.go:179-197 | Behind a header that fails its CRC: exactly as many unattributed losses as records do not verify; Corrupt when none does, or the body is no whole number of records, or the tier byte reads 0 or 2. |
| Reports.ToleratedReported | blockdevice/inspect.go:215-226 | Of an L2 blob with at least N intact strides: no loss. |
| Reports.SalvageReported | blockdevice/inspect.go:232-273 | With fewer: exactly the records of which the index survives are listed, exactly those of which it does not are counted, if a quarter of the section is there; else Corrupt. |
| Reports.CleanMeansReachable | blockdevice/inspect.go:28-37 | At L1 and L2 a clean report means that the decoder answers, with a nil error exactly on bases longer than every verified index: an index that lies in no base would have been listed. |
| Images.CheckRange | blockdevice/blockdevice.go:44-56 | With the int64 subtraction written out, exactly the aligned requests with 0 <= off and off + n <= len(base), over unbounded integers, are accepted; unaligned ones give Unaligned, all others OutOfRange. |
| Images.WriteIsSplice | blockdevice/blockdevice.go:87-97 | A block-wise write is a splice of the flat image. |
| Images.ReadIsSlice | blockdevice/blockdevice.go:65-76 | A block-wise read is a slice of the flat image. |
| Images.StepRefines | blockdevice/blockdevice.go:61-99 | One call, successful or not, answers and acts as on a flat image. |
| Images.RunRefines | blockdevice/blockdevice.go:18-28 | So does any run of calls, failed ones changing nothing. |
| BlockDevice.Device.constructor | blockdevice/blockdevice.go:33-41 | A new device owns no block and its image is the base. |
| BlockDevice.Device.ReadAt | blockdevice/blockdevice.go:61-78 | The caller's slice, and nothing else, receives that part of the image; a refused call touches nothing. |
| BlockDevice.Device.WriteAt | blockdevice/blockdevice.go:83-99 | The image becomes the old one with the slice spliced in, every block in a window of its own, apart from the base and the caller's slice; the base is not modified; a refused call changes nothing. |
| BlockDevice.Device.Perform | blockdevice/blockdevice.go:61-99 | One call of either kind on the device object leaves the overlay and gives the answer of the modelled step; the base is not modified. |
| BlockDevice.Device.PerformAll | blockdevice/blockdevice.go:18-28 | Any run of calls on a device object, fresh, written to or decoded, answers and ends as the same run on a flat copy of its image; windows stay apart and the base is not modified. |
| BlockDevice.Device.Fill | blockdevice/blockdevice.go:90-95 | Overwriting a block in its window leaves every other block as it was, even when windows share one array. |
| BlockDevice.Device.SortedIndices | blockdevice/format.go:118-125 | The ascending listing of the dirty indices, whatever order the map yields them in. |
| BlockDevice.Collect | blockdevice/format.go:118-125 | The same for any set of keys. |
| Deserializer.FinalizeBad | blockdevice/format.go:97-115 | The list filtered and sorted in place is the ascending listing of the named blocks that were not applied, each once. |
| Deserializer.Settled | blockdevice/format.go:349-373 | Accounting from the lists the loop collected equals accounting from the slots. |
| Deserializer.Settle | blockdevice/format.go:349-373 | The suppression loops and the final filter compute that accounting. |
| Deserializer.PlaceBlock | blockdevice/format.go:344-346 | Copying a record into its arena window changes one block of the device, every window staying apart from all others. |
| Deserializer.ScanRecords | blockdevice/format.go:326-347 | The pass over the records leaves the last-write-wins overlay in disjoint windows of the arena and collects exactly the failed records and the out-of-range flag. |
| Deserializer.ApplyRecords | blockdevice/format.go:268-374 | Device and error are those of the specified decoder; all buffers are fresh and disjoint. |
| Deserializer.DeserializeHeaderless | blockdevice/format.go:380-417 | Device and error are those of the specified headerless decoder; all buffers are fresh and disjoint. |
| Serializer.WriteRecord | blockdevice/format.go:166-171 | Three writes, the CRC taken over bytes already in the destination, leave the encoded record in place and the rest untouched. |
| Serializer.WriteRecordRange | blockdevice/format.go:163-174 | The destination receives the record stream of the list and nothing else. |
| Serializer.WriteRecords | blockdevice/format.go:188-211 | The same bytes for every number of workers. |
| Serializer.SerializeRecords | blockdevice/format.go:147-157 | The blob is the header followed by the sorted record stream. |
| Serializer.WriteHeader | blockdevice/format.go:150-154 | The first 18 bytes become the header; the rest is kept. |
| ShardWriter.FlattenUpdate | blockdevice/rs.go:205 | Copying into one shard at offset r is a splice of all shards laid end to end. |
| ShardWriter.WriteInView | blockdevice/rs.go:203-210 | In the blob, where headers lie between shards, a copy at off/shardSize, off%shardSize is a splice at off of the flat payload. |
| ShardWriter.WriteShardSpans | blockdevice/rs.go:203-210 | A write across any number of shard boundaries is one splice of the flat payload, and the end offset is returned. |
| ShardWriter.WriteRecordSharded | blockdevice/rs.go:218-225 | Index, block and incrementally computed CRC amount to the encoded record spliced into the flat payload. |
| ShardWriter.WriteRecordRangeSharded | blockdevice/rs.go:215-227 | A list of records written into shards is the flat record stream spliced at the start offset. |
| ShardWriter.WriteRecordsSharded | blockdevice/rs.go:235-258 | The same for every number of workers. |
| ShardWriter.DataSlots | blockdevice/rs.go:162-175 | Zeroed shards into which a flat payload was spliced are the data shards of the zero-padded payload. |
| ShardWriter.WriteShards | blockdevice/rs.go:162-183 | After the data shards are filled and parity computed, the slots of the blob hold the N+K shards of the payload, headers aside. |
| ShardWriter.WriteShardHeaders | blockdevice/rs.go:184-197 | Every shard gets its index and CRC; no shard data changes. |
| ShardWriter.WriteBlob | blockdevice/rs.go:139-199 | The blob is header, rsMeta and the strides of the shards, down to the last byte. |
| ShardWriter.SerializeRS | blockdevice/rs.go:110-199 | Blob or refusal are those of the specified encoder. |
| ShardReader.ParseShardSection | blockdevice/rs.go:345-363 | The loop fills exactly the slots the specification does and counts the erasures. |
| ShardReader.ReadShardSpan | blockdevice/rs.go:367-378 | True exactly when every covering shard is an intact data shard, and then the buffer holds the span. |
| ShardReader.ReadSalvageSlot | blockdevice/rs.go:440-470 | One turn of the salvage walk sees the whole record, its index, or nothing. |
| ShardReader.RsSalvage | blockdevice/rs.go:427-499 | Device and error are those of the specified salvage, each block in a buffer of its own. |
| ShardReader.DeserializeRS | blockdevice/rs.go:382-423 | Device and error are those of the specified L2 decoder. |
| ShardReader.Deserialize | blockdevice/format.go:225-263 | Device and error are those of the specified decoder; on a refusal there is no device; the device's buffers are new, disjoint, and not the base. |
| Inspector.LossSplits | blockdevice/inspect.go:259-272 | Counting loss by kind, after the walk, gives the same number as counting it slot by slot. |
| Inspector.ListedSplits | blockdevice/inspect.go:264-272 | Likewise for the listed indices. |
| Inspector.Info.FinishInfo | blockdevice/inspect.go:134-142 | The list becomes the ascending listing of its elements, and any unattributed loss sets Truncated. |
| Inspector.Info.InspectBodyLayout | blockdevice/inspect.go:113-130 | The tail is named, counted or ignored as the specified layout has it, and the number of whole records is returned. |
| Inspector.ScanL1Records | blockdevice/inspect.go:149-172 | The walk with its map and skip list computes the specified loss and listed indices. |
| Inspector.ScanSalvage | blockdevice/inspect.go:232-272 | The same over lost shards. |
| Inspector.InspectRSBody | blockdevice/inspect.go:204-274 | The L2 report is the specified one. |
| Inspector.InspectBlob | blockdevice/inspect.go:60-106 | Report or error are those of the specified Inspect. |
| Schedule.ChunksPartition | blockdevice/format.go:197-209 | The spawning loop shares out the whole list in ascending disjoint ranges, to no more goroutines than workers. |
| Schedule.ChunkSizes | blockdevice/format.go:197-204 | Every chunk is full but the last, whose size is (len - 1) % chunk + 1. |
| Schedule.EnoughWork | blockdevice/format.go:183-195 | No more workers than processors; all but the last serialize at least 128 records, and all of them do if and only if (len - 1) % chunk >= 127. |
| Schedule.LastWorkerShort | blockdevice/format.go:183-195 | An input on which the last one serializes fewer: three workers for 385 records get 129, 129 and 127. |
| Schedule.AnyScheduleFlat | blockdevice/format.go:188-211 | Any interleaving of single writes by any number of workers, CRCs being read back from the shared destination, ends in the bytes of the sequential pass. |
| Schedule.FlatEnabled | blockdevice/format.go:205-210 | Until all workers are done, some worker can write. |
| Schedule.FlatTerminates | blockdevice/format.go:205-210 | No interleaving takes more than three writes a record. |
| Schedule.AnyScheduleSharded | blockdevice/rs.go:235-258 | Any interleaving of single copies, two workers possibly writing into one shard, ends in the zero-padded data shards of the flat payload. |
| Schedule.ShardedEnabled | blockdevice/rs.go:252-257 | Until all workers are done, some worker can copy. |
| Schedule.ShardedTerminates | blockdevice/rs.go:252-257 | Every interleaving ends, after at most one copy a payload byte. |
| Cli.SerializeTier | blockdevice/format.go:134-158 | Blob or refusal depend on the contents of the device alone: equal overlays give equal bytes, whatever their history and the number of processors. |
| Cli.DiffImages | cmd/bdev/diff.go:38-46 | The device holds exactly the blocks in which the images differ, with the modified contents. |
| Cli.ApplyDelta | cmd/bdev/apply.go:33-41 | The image written is the base with the decoded overlay laid over it, also after a partial recovery. |
| Cli.DiffRestores | cmd/bdev/diff.go:38-46 | Laying that difference over the base gives the modified image, and no block is in it that does not differ. |
| Cli.EndToEnd | cmd/bdev/diff.go:38-50 | For any two equal-length aligned images and any tier, decoding the serialized difference over the base gives an overlay whose image is the modified one, with a nil error; at L2 for up to 1742521 differing blocks, beyond which the blob is refused. |

## Left out

- Galois-field arithmetic: Reed-Solomon coding is a foreign library; it enters as the contract above.
- ShardWriter.SerializeRS: an error from the library's Encode, reported as ErrCorrupt, is not modelled; on shards of
  equal size it does not arise.
- CRC collisions: nothing is claimed about how likely damage wider than four consecutive bytes is to keep a CRC.
- The goroutine runtime and GOMAXPROCS: workers are an arbitrary number of interleaved writers; spawning, joining
  and the memory model are not modelled. Methods run their workers one after the other, which `Schedule` justifies
  for the records.
- The shard-header goroutines of blockdevice/rs.go:187-197 run as a loop; each touches only its own header, and no
  interleaving is modelled for them.
- Aliasing of the blob: a blob passed to a decoder is a sequence value, so only windows of the arena and the base
  can alias in the model.
- `writeEmptyShardHeaders` as a function of its own: it is `ShardWriter.WriteShardHeaders` at
  shard size 0.
- New on an unaligned base: it panics, and the constructor requires an aligned base instead.
- Fields of `Info` after an Inspect error: the report is returned only on success.
- Error messages, wrapping and the text of errors: errors are five constructors.
- Crc32.BurstDetected: a CRC-32 also detects other error patterns, such as bursts of up to 32 bits that touch five
  bytes; these are not proved.
- Crc32.OneByteDetected: the special case of one byte, for the theorems about one changed byte.
- Shards.SpottedRefused: four consecutive bytes straddling the CRC field and the index, or the CRC field and the
  data, are not covered; a changed index is the subject of `Shards.ReindexedErases`.
- ShardedFormat.SpottedErases: damage to index fields is not covered; see `ShardedFormat.OneByteInSection` for one.
- Codec.BurstsRepaired: damage to index fields is not covered; see `Codec.RsOneByteChanged` for one.
- BlockDevice.Device.ReadAt: a caller's slice that lies in the base array is excluded; the Go method accepts it and
  overwrites the base.
- Blob lengths from 2^62 on: the fault model of `Codec.ErasuresTolerated` and `Codec.LossAccounted` stops where four
  times the body length wraps in `uint64`.
- Flags, files, atomic rename, printing and exit codes of `cmd/bdev`.
- Memory exhaustion and 32-bit platforms.
- Benchmarks, scripts and plans.
- Erasure.ReplicationCorrects: a code for N = 1; `Parity.CorrectsOne` is one for K = 1. That Reed-Solomon meets the
  contract for all N and K is the library's promise.
