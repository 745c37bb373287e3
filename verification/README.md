# BOOM alert handling, verified

A Dafny model of the parts of the BOOM alert broker where several processes, crashes or
hand-written byte parsing meet, with proofs of what those parts are for.

- **Lightcurves.** Julian dates with NaN, infinities and both zeros (`JulianTime`); the series an
  alert carries, its sanitizing and the prepared update (`TimeSeries`); the in-database merge and
  its equality with the version-checked push (`SeriesMerge`); the per-object document and its
  writes (`AuxDocument`); any number of workers racing on one object, each database round trip a
  step, a crash possible anywhere, the photometry repair task beside them (`AuxProtocol`).
- **The work queue.** The Valkey lists (`WorkQueue`), and alert workers from the queue through the
  database writes to the output queue, with crashes, restarts and recovery (`AlertPipeline`); the
  order of both queues, and what a worker left to itself gets done (`AlertProgress`).
- **The Avro container** (Apache Avro specification 1.3.2, "Object Container Files" and the binary
  encoding of `long`). What shifts, or, exclusive or and complement on 64-bit words mean as numbers
  (`WordBits`); zig-zag varints, their encoder and two decoders (`AvroLong`); the header parser
  (`AvroContainer`) against a writer of any block structure (`AvroWriter`); the renaming of duplicate field names in a schema (`SchemaDedupe`,
  `SchemaNames`); the header rewriter (`WinterRewrite`); the schema cache (`SchemaCache`); a WINTER
  packet through both (`WinterDecode`).
- **The catalog insert pool.** Batches, tallies, the reading loop and one worker
  (`CatalogIngest`); the reader, the bounded channel and N workers under every schedule
  (`InsertPool`).
- **Three smaller loops.** Per-user consumption of Kafka topics (`Consumption`), the analytics
  event batcher (`EventBatcher`), and the chunked transfer decoder (`ChunkedBody`; section 7.1 of
  RFC 9112).

Protocols are state machines: `Enabled` and `Next` (or `Apply`) give the steps, an invariant is
proved for every step, and the theorems speak about every run. Code that updates fields or loops
over a cursor is a class or a method, proved against a function whose properties are then lemmas.

Check everything with `dafny verify dfyconfig.toml` (Dafny 4.11).

## Where the code and its comments part

- `sanitize_timeseries` says it keeps the first occurrence of a time. `total_cmp` sorts -0.0 before
  0.0 and `==` then merges the two, so at time zero a later -0.0 point wins
  (`TimeSeries.SanitizeDropsTheFirstOccurrence`); `TimeSeries.SanitizedAt` says exactly when the
  comment holds.
- The rewriter edits the first `avro.schema` entry and the reader uses the last. With a repeated
  key the reader may still find two fields of one name
  (`WinterRewrite.RepeatedKeyKeepsDuplicates`); `WinterRewrite.RewriteCleansExactly` says when not.
- A schema with fields x, x and x__dup1 comes out with two fields of one name, and rewriting it
  again changes it again (`SchemaNames.ClashExample`, `WinterRewrite.ClashIsRewrittenAgain`).
  `sanitize_winter_avro` promises idempotence for clean inputs only, and keeps that promise: an
  input without duplicates has no such clash (`SchemaNames.CleanHasNoClash`,
  `WinterRewrite.RewriteIdempotentExactly`).
- WINTER's varint decoder does not check its shift. Without overflow checks it accepts varints of
  more than ten bytes, which the other decoder rejects, and differs on nothing else
  (`AvroLong.UncheckedDiffersExactly`, `AvroLong.ElevenBytesDiffer`).
- The version-checked write replaces the aliases, and the pipeline it is a fast form of merges them
  key by key. The two agree exactly when the update names every stored key
  (`AuxDocument.WrittenIsMerged`), as the alias documents of one survey do.
- Acknowledging removes a packet by value and is retried when its reply is lost. With a
  byte-identical packet in the temp queue the retry removes that one too
  (`AlertPipeline.DroppedExactly`); its alert is stored by then
  (`AlertPipeline.AcknowledgedIsStored`).
- Delivery to the output queue is at most once, not at least once: a crash between the insert and
  the push is not made up for (`AlertPipeline.CrashAfterInsertSkipsThePush`,
  `AlertPipeline.PushedUnlessStopped`).
- `write_batch` says collisions are counted as written; the code counts them as not written, and
  that is modelled.
- A consumer group may be claimed by two usernames; the owner then depends on the map's iteration
  order (`Consumption.DeterminedExactly`).
- A negative chunk size may send the chunked decoder round for ever
  (`ChunkedBody.NegativeSizeNeverEnds`); it does so exactly when two early rounds start at the same
  place (`ChunkedBody.RunsForEverExactly`).

## Model

| member | source | states |
|---|---|---|
| TimeSeries.PointVec.SanitizeTimeseries | src/alert/base.rs:697-704 | sorting, merging equal neighbours and dropping non-finite times in place leaves a finite, strictly increasing series |
| TimeSeries.SortIsSorted | src/alert/base.rs:701 | the stable sort is sorted and a permutation, for both orders used (total_cmp and BSON) |
| TimeSeries.SanitizedIsValid | src/alert/base.rs:697-704 | whatever the input, the sanitized series is finite and strictly increasing |
| TimeSeries.SanitizedAt | src/alert/base.rs:695-704 | for every time: it survives iff it was there, and its point is the earliest input point exactly when KeepsEarliest holds (everywhere but at signed zero) |
| TimeSeries.SanitizeDropsTheFirstOccurrence | src/alert/base.rs:695-704 | counterexample to "keeping the first occurrence": 0.0 then -0.0 keeps the second |
| TimeSeries.CurrentDetectionWins | src/alert/winter.rs:775-790 | the current detection, placed first, beats every history point at its time |
| TimeSeries.ValidateMonotonicIncreasing | src/alert/base.rs:655-693 | accepts exactly the finite strictly increasing series, and a reported fault is one the series has |
| TimeSeries.PartitionPoint | src/alert/base.rs:763 | the binary search splits a valid series at the bound |
| TimeSeries.BitsDecideMembership | src/alert/base.rs:636-645 | in the overlap window the hash set of normalized bits holds a new time iff the whole existing series does |
| TimeSeries.NewPointsMembers | src/alert/base.rs:770-782 | the points to push are exactly the new points whose time is not stored |
| TimeSeries.NewerCannotCollide | src/alert/base.rs:755-759 | the early return for all-newer data gives what the full computation gives |
| TimeSeries.PrepareTimeseriesUpdate | src/alert/base.rs:711-791 | rejects exactly invalid existing or new data (also when the new data is empty); otherwise returns the new points and the exact sort flag on every return path |
| TimeSeries.Extensionality | src/alert/base.rs:1176-1178 | two valid series with the same point at every time are the same series |
| SeriesMerge.FilterIsFinite | src/utils/db.rs:293-301 | the four conditions of the database filter pass exactly the finite times |
| SeriesMerge.UpdateOpMeaning | src/utils/db.rs:260-307 | from any stored content and any new data the in-database merge gives a valid series with exactly the finite times of both, stored points first |
| SeriesMerge.ReferenceMeaning | src/alert/base.rs:706-710 | keep what is there, add each new point whose time is not, sort: a valid series with the union of the times |
| SeriesMerge.PushRefinesReference | src/alert/base.rs:711-791 | appending, or appending and sorting as the flag says, gives exactly the reference series |
| SeriesMerge.PushEqualsUpdateOp | src/alert/base.rs:1214-1227 | on a valid series the fast push and the database merge agree, payloads included |
| SeriesMerge.SortsExactlyWhenNeeded | src/alert/base.rs:784-790 | a sort is asked for iff appending the new points would leave the series out of order |
| SeriesMerge.AnySortWillDo | src/utils/db.rs:304 | the database's sort need not be stable: with distinct finite times every sorted permutation is the same series |
| AuxDocument.WrittenIsMerged | src/alert/base.rs:1250-1273 | a version-checked write prepared from a document does to that document what the database merge does, but that it replaces the aliases the pipeline merges by key: the two agree iff no stored alias key is missing from the update |
| AuxDocument.MergedIsValid | src/alert/base.rs:1179-1208 | after one database merge all series are finite and strictly increasing, from any stored content |
| AuxDocument.AuxCollection.GetExistingAux | src/alert/ztf.rs:810-823 | a snapshot iff the object is there, with its version and the times of each of its series |
| AuxDocument.AuxCollection.InsertAux | src/alert/base.rs:1059-1077 | inserts iff the object is absent, and else changes nothing and reports AlertAuxExists |
| AuxDocument.AuxCollection.FinalizeAuxUpdate | src/alert/base.rs:1280-1310 | writes iff the version is unchanged, and else changes nothing and reports the conflict |
| AuxDocument.AuxCollection.DbOnlyAuxUpdate | src/alert/base.rs:1179-1208 | merges into an existing document only |
| AuxDocument.AuxCollection.UpdateAuxInner | src/alert/ztf.rs:860-909 | validates every series before any write; on success exactly the prepared write landed on a document of the snapshot's version, on error nothing changed, and it errs in no other case |
| AuxDocument.AuxCollection.UpdateAux | src/alert/ztf.rs:911-953 | whichever branch runs, an existing document ends as its merge with the update, and valid; the version-checked branch replaces the aliases |
| AuxDocument.AuxCollection.StoreAux | src/alert/ztf.rs:1070-1136 | reading, then updating, or inserting and falling back when another worker inserted first: never an error, and the object ends as its merge with the update, or the update alone when it was absent, with all series valid |
| AuxDocument.LinkCounterparts | src/alert/decam.rs:314-338 | of each survey exactly the first matched object is linked, when it is there without a DECam alias: that alias is then this object alone, every other alias stays (or the other survey gets an empty list when there were none), and nothing else changes anywhere |
| AuxDocument.LinkedDocsMeaning | src/alert/decam.rs:323-334 | the same of the write by itself, for any documents and matches |
| AuxProtocol.NextKeepsInv | src/alert/ztf.rs:1070-1136 | every step of every worker (read, prepare, checked write, insert, fallback, crash, lost reply, write that fails, alias link) and of the repair task keeps the invariant |
| AuxProtocol.RepairKeepsInv | src/tasks/repair_photometry.rs:270-282 | the repair task rewrites series without a new version, between any worker's read and write, and the invariant stays |
| AuxProtocol.MatchingWriteIsMerge | src/alert/base.rs:1303-1308 | a version match means no update landed since the snapshot, and the write equals the database merge but for the aliases it replaces |
| AuxProtocol.NoAba | src/alert/base.rs:1229-1232 | in every run a matching write lands on valid series that its pushes and sort flags were computed from, alias writes and repairs interleaved or not |
| AuxProtocol.Linearizable | src/alert/base.rs:1179-1310 | every reachable series is the sequential replay of the landed updates in landing order, repairs leaving no trace; before the first update it is the initial one, repaired if it was |
| AuxProtocol.Converges | src/alert/base.rs:1176-1178 | every reachable series is finite and strictly increasing iff an update landed or each one was repaired or started so, and its times are exactly the initial ones and those of the landed updates |
| AuxProtocol.FinishedIsStored | src/alert/ztf.rs:911-953 | no lost update: the times of a finished update are stored ever after, and a stored time keeps its point |
| AuxProtocol.EveryJobCanLand | src/alert/ztf.rs:911-953 | losing a race loses nothing: from every reachable state each job neither finished nor crashed lands its update exactly once in at most three answered steps of its own; left alone it takes the checked write iff what is stored is valid |
| AuxProtocol.AnyUpdateCanLand | src/alert/ztf.rs:1070-1136 | from every reachable state a new alert can be started and its update landed, whatever the others are in the middle of |
| AuxProtocol.CrashedExactly | src/alert/ztf.rs:935-951 | a job is stopped for good iff it crashed or lost the reply of its insertion or fallback; a lost race, a failed checked write or its lost reply never stops it |
| AuxProtocol.LostReplyLands | src/alert/base.rs:1303-1308 | a lost reply leaves document and log as an answered one does |
| AuxProtocol.LastUpdateIsStamped | src/alert/base.rs:1192-1194 | in every reachable state the last landed update is the one whose time and aliases are stored, whichever way it was written |
| AuxProtocol.RepairRepairs | src/tasks/repair_photometry.rs:270-282 | the repaired series are valid, no point that counts is lost, and the version and the other series stay |
| AuxProtocol.LinkLinks | src/alert/decam.rs:314-338 | a link between any two steps changes aliases only, as `LinkCounterparts` says |
| AuxProtocol.VersionCounts | src/alert/base.rs:1192-1195 | the version counts the landed updates (absent is 0, an insertion counts none), and the fallback never misses its document |
| AuxProtocol.DesignationIsSticky | src/alert/lsst.rs:1443-1449 | the stored designation is that of the last landed update that carried one, and is never cleared |
| WorkQueue.Valkey.RetrieveAvroBytes | src/alert/base.rs:1360-1383 | the last packet moves to temp atomically, nothing is created or lost, an empty packet is an error |
| WorkQueue.Valkey.RemoveFromTempQueue | src/alert/base.rs:1385-1401 | one LREM removes one occurrence by value; its retries are in `AlertPipeline` |
| WorkQueue.Valkey.HandleProcessResult | src/alert/base.rs:1404-1435 | pushes the candid only when added, acknowledges when added or already there, leaves the packet on an error |
| WorkQueue.Valkey.RecoverTempQueue | src/alert/base.rs:1320-1338 | moves all of temp to the input, and counts it |
| WorkQueue.RemoveFirstCount | src/alert/base.rs:1394 | removal by value takes away exactly one of several equal packets |
| WorkQueue.RemovesTheFirst | src/alert/base.rs:1394 | it is the first one that goes, and the others keep their order |
| AlertPipeline.QueueInvKept | src/alert/base.rs:1501-1560 | every step, the retry of an acknowledgement included, keeps: input, temp, acknowledged and dropped make up what was enqueued, and every held packet is in temp but for dropped copies |
| AlertPipeline.StoreInvKept | src/alert/ztf.rs:1056-1155 | every step keeps: a stored alert has its aux document and cutouts |
| AlertPipeline.PushInvKept | src/alert/base.rs:1412-1429 | every step keeps: a stored candid was pushed, is about to be, or its worker stopped, exactly one of these |
| AlertPipeline.NoPacketLost | src/alert/base.rs:1359-1435 | over every run with crashes, lost replies and byte-identical packets each enqueued packet is in input, in temp, acknowledged or dropped, and only copies of acknowledged packets are dropped |
| AlertPipeline.DroppedExactly | src/alert/base.rs:1391-1397 | a copy is dropped exactly when an acknowledgement whose reply was lost is sent again and a byte-identical packet is in temp |
| AlertPipeline.NothingDropped | src/alert/base.rs:1391-1397 | over any run without such a retry nothing is dropped |
| AlertPipeline.LeavesTempOnly | src/alert/base.rs:1385-1401 | a packet leaves temp only by its acknowledgement, the retry of one, or recovery with no worker running |
| AlertPipeline.AcknowledgedIsStored | src/alert/base.rs:1424-1428 | a packet no longer in input or temp, acknowledged or dropped, decodes and its alert, aux document and cutouts are stored |
| AlertPipeline.AlertImpliesAuxAndCutouts | src/alert/ztf.rs:1149-1153 | over every run a stored alert implies its aux document and its cutouts |
| AlertPipeline.AtMostOnce | src/alert/base.rs:1045-1055 | Added is answered and the candid queued at most once, and only for stored alerts |
| AlertPipeline.PushedUnlessStopped | src/alert/base.rs:1412-1425 | a candid was pushed iff its alert is stored and no worker stopped between the two |
| AlertPipeline.RecoveryEmptiesTemp | src/alert/base.rs:1319-1338 | with every worker down, recovery empties temp into the input |
| AlertPipeline.CrashAfterInsertSkipsThePush | src/alert/base.rs:1426-1429 | counterexample to at-least-once delivery: the retry answers Exists and nothing is pushed |
| AlertProgress.FirstInFirstOut | src/alert/base.rs:1360-1383 | over every run packets are taken in the order in which they joined the input queue; recovered ones join behind those that wait |
| AlertProgress.OutputFirstInFirstOut | src/alert/base.rs:1412-1423 | candids are consumed in the order in which they were pushed, each push once |
| AlertProgress.EveryPacketCanBeDelivered | src/alert/base.rs:1404-1435 | from every reachable state a worker with a packet that decodes, and that has not failed, works it off in at most six answered steps: acknowledged, the alert stored, the candid reported and pushed iff the alert was new |
| AlertProgress.EveryOtherWorkerGoesOn | src/alert/base.rs:1426-1435 | a worker that failed, holds a packet that does not decode, or lost a reply, is free again within two steps, and a failed packet stays in temp |
| AlertProgress.GivesUpExactly | src/alert/base.rs:1045-1055 | a worker gives its packet up iff it does not decode, a write failed, or a reply was lost, and never because another worker was faster |
| WordBits.ValueInRange | src/alert/base.rs:83 | a word stands for a number below 2^64, below 2^63 iff its top bit is clear |
| WordBits.AccumulateAdds | src/alert/base.rs:93 | or-ing the j-th seven bits in with a shift by 7j adds them times 128^j modulo 2^64, up to the tenth digit that no longer fits |
| WordBits.UnZigZagMeans | src/alert/base.rs:104-111 | the decoded word, read as a signed number, is the zig-zag inverse of the number read |
| WordBits.ZigZagMeans | src/alert/winter.rs:426 | `(n << 1) ^ (n >> 63)` is the zig-zag number of n, for every 64-bit integer |
| WordBits.ZigZagWordInverse | src/alert/winter.rs:422-426 | on words, decoding inverts encoding, and the other way round in `UnZigZagWordInverse`; on numbers in `AvroLong.ZigZagInverse` and `AvroLong.UnZigZagInverse` |
| AvroLong.EncodeStep | src/alert/winter.rs:427-437 | masking, shifting and setting the high bit peel one base-128 digit off the number |
| AvroLong.ByteBuffer.EncodeLong | src/alert/winter.rs:425-438 | the loop over the word appends the zig-zag varint of any 64-bit integer |
| AvroLong.ByteBuffer.EncodeBytes | src/alert/winter.rs:440-443 | appends the length and the bytes |
| AvroLong.LongRoundTrip | src/alert/winter.rs:425-438 | reading an encoded long gives it back and consumes exactly its 1 to 10 bytes, whatever follows |
| AvroLong.DecodersAgree | src/alert/base.rs:82-111 | both decoders, each with its own counter, end test and sign rule on words, accept the same inputs with the same value and position: the specification's |
| AvroLong.UncheckedDiffersExactly | src/alert/winter.rs:410-423 | a build without overflow checks reads the same longs, and differs exactly by accepting a varint that ends beyond its tenth byte |
| AvroLong.ElevenBytesDiffer | src/alert/winter.rs:410-423 | counterexample: ten bytes 0x80 and a 0 are a long for the unchecked build and rejected by both checked decoders |
| AvroLong.Cursor.DecodeVariable | src/alert/base.rs:82-102 | the specification's unsigned varint modulo 2^64 and the position behind it; IntegerOverflow iff ten bytes are there and none is the last, end of data otherwise |
| AvroLong.Cursor.DecodeLong | src/alert/base.rs:104-111 | reads a long iff the specification does, with its value and position, and says why not |
| AvroLong.DecodeLong | src/alert/winter.rs:410-423 | the independently written decoder: same acceptance, value and position, its errors exact |
| AvroContainer.ReadByteRange | src/alert/base.rs:113-125 | a length-prefixed range iff its length is not negative and fits, never past the end; MalformedHeader iff a length was read and does not fit |
| AvroContainer.ReadMetadata | src/alert/base.rs:141-160 | the metadata loop over blocks of either sign of count finds the last avro.schema entry |
| AvroContainer.GetSchemaAndStartidx | src/alert/base.rs:129-183 | accepts exactly the containers of the reference grammar, with their schema and start index; MagicBytesError, MalformedHeader, InvalidRecordCount with its number, and InvalidUtf8 each exactly in their case |
| AvroContainer.HeaderInRange | src/alert/base.rs:176-182 | the start index lies within the packet |
| AvroWriter.BlockHeaderRoundTrip | src/alert/base.rs:143-152 | behind a negative count the size is read and ignored, whatever it says, and the smallest count stands for no entries |
| AvroWriter.BlocksRoundTrip | src/alert/base.rs:141-160 | a metadata map written in any number of blocks, each with or without its size, reads back as its entries in order and the position behind |
| AvroWriter.BytesExactly | src/alert/base.rs:113-125 | a written length is refused iff it is negative or reaches past the end |
| AvroWriter.BlockContainerRoundTrip | src/alert/base.rs:129-160 | a container in any such blocks reads back as its entries, sync marker and rest |
| SchemaDedupe.RenameDuplicates | src/alert/winter.rs:452-468 | the pass with the seen counters names every field by how many earlier fields carry its name |
| SchemaDedupe.RenameInCommutes | src/alert/winter.rs:450-473 | renaming a record first and recursing afterwards equals recursing first |
| SchemaDedupe.DedupeRecordFieldNames | src/alert/winter.rs:447-482 | the recursive pass computes the deduplicated schema, at any depth |
| SchemaNames.DupNameInjective | src/alert/winter.rs:458 | a generated name determines the original name and the count |
| SchemaNames.RenamedDistinctExactly | src/alert/winter.rs:452-468 | the fields of one record end up distinct iff none carried a generated name before |
| SchemaNames.DedupeDistinctExactly | src/alert/winter.rs:445-482 | every record at any depth ends with distinct names iff no record had such a clash |
| SchemaNames.NoDupMeansNoClash | src/alert/winter.rs:458 | no field name containing `__dup` means no clash |
| SchemaNames.ClashExample | src/alert/winter.rs:458 | x, x, x__dup1 ends with two equal names |
| SchemaNames.DedupePreserves | src/alert/winter.rs:447-482 | nothing but names of record fields changes: counts, order, types and all other values stay |
| SchemaNames.RenamedFixpoint | src/alert/winter.rs:457-465 | a record is left alone iff its names were distinct |
| SchemaNames.DedupeIdempotentExactly | src/alert/winter.rs:484-486 | deduplicating twice equals once iff there was no clash |
| SchemaNames.CleanHasNoClash | src/alert/winter.rs:486 | a schema without duplicate names has no clash: idempotent for already-clean inputs |
| WinterRewrite.TakeMetadata | src/alert/winter.rs:493-520 | the rewriter's own metadata parser reads what the reader's grammar says |
| WinterRewrite.WriteContainer | src/alert/winter.rs:540-551 | writes magic, one block of all entries, the terminator and the rest |
| WinterRewrite.SanitizeWinterAvro | src/alert/winter.rs:487-554 | succeeds exactly when the rewrite is defined, with its bytes; BadMagic, MissingSchema, SchemaUtf8 and SchemaJson each exactly in their case, and a read error exactly when the magic is there and the layout cannot be read |
| WinterRewrite.ContainerRoundTrip | src/alert/winter.rs:540-551 | reading a written container gives the same entries, and the rest byte for byte |
| WinterRewrite.BlocksAreAccepted | src/alert/base.rs:129-183 | of the containers with their metadata in any blocks the reader accepts exactly those of one record whose last schema entry is text, and finds that schema and the record's first byte |
| WinterRewrite.ContainerIsAccepted | src/alert/base.rs:129-183 | the reader accepts every written one-record container, with its last schema entry and the record's first byte as the start index |
| WinterRewrite.RewriteChangesOnlyTheSchema | src/alert/winter.rs:531-551 | the rewritten container has the same other metadata in the same order, and is the same byte for byte from the sync marker on |
| WinterRewrite.RewriteReadsBack | src/alert/winter.rs:487-554 | the reader accepts the rewritten container and finds the same data bytes from the new start index on |
| WinterRewrite.RewriteSucceeds | src/alert/winter.rs:522-538 | a container the reader accepts, with one JSON schema entry, is rewritten |
| WinterRewrite.RewriteIsFaithful | src/alert/winter.rs:484-554 | for unique metadata keys and a JSON schema that survives printing the rewrite succeeds, and the reader finds the deduplicated schema and the same data |
| WinterRewrite.AnyBlocksAreRewritten | src/alert/winter.rs:493-554 | so it is for every one-record container written in any blocks, sized or not: the rewrite succeeds and the reader finds the deduplicated schema and the datum |
| WinterRewrite.RewriteCleansExactly | src/alert/winter.rs:531-538 | the reader finds its own schema, if that survives printing, deduplicated iff the key is not repeated or that schema had no two fields of one name |
| WinterRewrite.RepeatedKeyKeepsDuplicates | src/alert/winter.rs:531-538 | counterexample: with two schema entries the rewrite succeeds and the reader still finds a duplicate |
| WinterRewrite.RewriteIdempotentExactly | src/alert/winter.rs:486-554 | for a schema that survives printing, rewriting twice equals once iff it had no clash |
| WinterRewrite.ClashIsRewrittenAgain | src/alert/winter.rs:486-554 | counterexample: fields x, x, x__dup1, and rewriting twice differs from once |
| WinterRewrite.ContainerInjective | src/alert/winter.rs:540-551 | different metadata give different containers |
| SchemaCache.DecodeFreshMeans | src/alert/base.rs:608-630 | each error in exactly its case, and otherwise what the datum behind the header decodes to |
| SchemaCache.StepIsTransparent | src/alert/base.rs:606-631 | one decode keeps the cache coherent and answers what a fresh parse answers |
| SchemaCache.StepCaches | src/alert/base.rs:616-620 | after a packet whose schema parses the cache holds that schema, and any other packet leaves it alone |
| SchemaCache.CacheIsTransparent | src/alert/base.rs:600-631 | over any packets, also failing or changing schemas, every answer is that of an uncached decode |
| SchemaCache.ParsedOnlyOnChange | src/alert/base.rs:616-620 | as long as packets carry the cached schema, the answers do not depend on the schema parser at all |
| SchemaCache.SchemaCache.AlertFromAvroBytes | src/alert/base.rs:608-630 | the caching method answers as a fresh decode does, and updates the cache only on a successful parse |
| WinterDecode.DecodesItsOwnDatum | src/alert/winter.rs:755-763 | for one JSON schema entry the rewritten packet decodes as the original datum bytes under the deduplicated schema |
| WinterDecode.DecodeWinterAlert | src/alert/winter.rs:755-763 | through the worker's cache: the fresh decode of the rewritten packet, or the rewrite's failure with the cache untouched |
| CatalogIngest.DuplicateKeyCount | src/catalogs/ingest.rs:352-368 | a count iff the write concern held and every code is 11000, and then the number of codes |
| CatalogIngest.Shared.WriteBatch | src/catalogs/ingest.rs:314-349 | all ids of the batch are stored; written and counter grow by exactly the collection's growth, duplicates within the batch included |
| CatalogIngest.Shared.InsertWorker | src/catalogs/ingest.rs:249-305 | fails iff a record cannot be serialized or breaks the cap, and says which; stores all it took but less than one batch, and on success all of it, with an exact tally |
| CatalogIngest.RecordsAt | src/catalogs/jsonl.rs:63-78 | the record of a parsed line is the one counted by the parsed lines before it, and there are no others |
| CatalogIngest.RecordsMeaning | src/catalogs/jsonl.rs:60-78 | how many records a file has, how many off the sphere, with which ids, and whether one cannot be serialized, said of its lines |
| CatalogIngest.ReadLines | src/catalogs/jsonl.rs:44-79 | sends the records before the first bad line, holds that line as the failure, and stops when no receiver is left |
| CatalogIngest.Finish | src/catalogs/ingest.rs:203-224 | the first failure in handle order, else the sums over all workers |
| CatalogIngest.FirstError | src/catalogs/ingest.rs:205-223 | an error iff some worker failed, and then the first one's |
| InsertPool.StepKeepsInv | src/catalogs/ingest.rs:249-305 | every step of reader and workers keeps flow, counts, contents and the meaning of failures |
| InsertPool.Progress | src/catalogs/ingest.rs:176-195 | no deadlock: a pool that has not returned has a fault-free step |
| InsertPool.RunsAreBounded | src/catalogs/jsonl.rs:44-82 | no run has more than 4 steps per line, one per worker and one more |
| InsertPool.CanFinish | src/catalogs/jsonl.rs:81-82 | from every reachable state the pool can run on to its return without a fault |
| InsertPool.VerdictExact | src/catalogs/ingest.rs:263-305 | Ok iff no line is bad, none holds an unserializable record, at most MAX_OFF_SPHERE hold one off the sphere, and nothing faulted; then read is the number of parsed lines, and the ids added are those of the lines that hold one |
| InsertPool.AnyRunAnswers | src/catalogs/jsonl.rs:29-92 | the same for every run of any number of workers, batch size and channel capacity |
| InsertPool.ErrorNamesItsCause | src/catalogs/jsonl.rs:83-92 | an error is the bad line the reader stopped at, before all others, else that of the first failed worker; and it is in the file, or the database or a worker failed |
| InsertPool.FaultsFail | src/catalogs/ingest.rs:249-305 | a failed write or a panic is a failed worker, and only what landed was added |
| InsertPool.ScheduleDoesNotMatter | src/catalogs/ingest.rs:172-224 | two fault-free calls agree on verdict, report and collection whatever their schedules and parameters |
| InsertPool.ReportBalances | src/catalogs/ingest.rs:114-121 | read = inserted + off-sphere skipped + the lines whose id was stored or came up before |
| InsertPool.AttemptsAddUp | src/catalogs/ingest.rs:307-349 | over any full or cut-short attempts the collection is the taken ids but those of unwritten batches, and the counter its growth but what was never counted |
| InsertPool.RetryCompletes | src/catalogs/ingest.rs:309-313 | retrying a sound file leaves exactly its ids added, each inserted once over all attempts |
| InsertPool.SecondIngestAddsNothing | src/catalogs/ingest.rs:309-313 | ingesting a stored file again inserts and counts nothing |
| Consumption.ResolveOwner | src/api/consumption.rs:339-350 | the exact name first, else the first username in iteration order that begins the group up to a dash, else nobody |
| Consumption.DeterminedExactly | src/api/consumption.rs:333-350 | attribution of every group is independent of map order iff no username extends another owner's by a dash |
| Consumption.EqualLengthsNeverOverlap | src/api/consumption.rs:335-338 | usernames of one length never overlap |
| Consumption.Sampler.RunCycle | src/api/consumption.rs:150-262 | remembers exactly the sample's offsets, tallies exactly each user's pairs in any visiting order, and changes nothing on a failed read |
| Consumption.TallyMeans | src/api/consumption.rs:196-227 | a user has an entry iff a group of theirs has a larger offset than remembered on some topic, and it names exactly these topics |
| Consumption.OnePairTallied | src/api/consumption.rs:196-227 | a single such pair gives exactly its increment, lag, topic and credential |
| Consumption.DeltasTelescope | src/api/consumption.rs:165-227 | over any run a user's messages are the increments, between consecutive cycles, of the pairs they own |
| Consumption.OwnIncrementsAtMostAll | src/api/consumption.rs:207-216 | a pair never gives a user more than its increments |
| Consumption.NeverMoreThanProgress | src/api/consumption.rs:196-205 | for non-decreasing offsets the increments never exceed last minus first, whatever the gaps |
| Consumption.IncrementsExactly | src/api/consumption.rs:196-205 | for a pair always present the increments are at least last minus first, and equal iff the offset never went back |
| EventBatcher.Batcher.Capture | src/api/analytics.rs:132-157 | accepts iff the flush task runs and the queue has room, and counts every other event as dropped |
| EventBatcher.Batcher.SendBatch | src/api/analytics.rs:203-233 | one post of the batch, counted as sent on success and as dropped otherwise; first-in-first-out order and captures = sent + dropped + pending are kept |
| EventBatcher.Batcher.OnReceive | src/api/analytics.rs:181-194 | drains, captures arriving meanwhile, to an empty queue or to a batch of exactly 250, which is sent at once |
| EventBatcher.Batcher.OnTick | src/api/analytics.rs:195-197 | after a tick everything received was posted, in order |
| EventBatcher.Batcher.OnClosed | src/api/analytics.rs:182-185 | at the end every accepted event was posted exactly once and in order, and every capture was sent or dropped |
| EventBatcher.EveryEventIsSettled | src/api/analytics.rs:202-233 | the posted events are those delivered and those dropped, as multisets |
| ChunkedBody.DecodeChunked | scripts/docker_metadata_exporter.py:127-140 | gives what the loop answers after however many rounds, negative sizes and indices from the end included, and nothing iff it never answers |
| ChunkedBody.DecodeIsTheAnswer | scripts/docker_metadata_exporter.py:127-140 | `Decode` is the answer iff some number of rounds ends with it |
| ChunkedBody.IntReadsHex | scripts/docker_metadata_exporter.py:134 | `int(_, 16)` reads hexadecimal digits followed by white space as their value |
| ChunkedBody.IntReads | scripts/docker_metadata_exporter.py:134 | it takes white space around, a sign, and `0x` |
| ChunkedBody.NoNumberIsNone | scripts/docker_metadata_exporter.py:134 | it refuses blanks and any text with a byte no number has |
| ChunkedBody.HeaderReadsLine | scripts/docker_metadata_exporter.py:131-135 | a size line with extension, anywhere in a body, is read back with the index behind it |
| ChunkedBody.ChunkedRoundTrip | scripts/docker_metadata_exporter.py:127-140 | decoding any well-formed encoding of non-empty chunks, whatever their data, extensions and trailer, gives their concatenation |
| ChunkedBody.CutOffIsMalformed | scripts/docker_metadata_exporter.py:131-133 | a well-formed response cut off anywhere before its end is a malformed response, never a shorter body |
| ChunkedBody.BadSizeIsTold | scripts/docker_metadata_exporter.py:134 | behind any well-formed chunks a size line that holds no number is a bad size |
| ChunkedBody.RunsForEverExactly | scripts/docker_metadata_exporter.py:130-139 | the loop never ends iff two of its first length + 1 rounds start at the same place; otherwise it has ended after that many |
| ChunkedBody.MovesOnExactly | scripts/docker_metadata_exporter.py:134-139 | a round moves the index on iff its size does not reach back over its own header |
| ChunkedBody.ForEverReachesBack | scripts/docker_metadata_exporter.py:134-139 | a loop that never ends has such a reaching-back size in one of its first rounds |
| ChunkedBody.NegativeSizeNeverEnds | scripts/docker_metadata_exporter.py:130-139 | the body `-6\r\n` is decoded for ever |
| ChunkedBody.NegativeSizeMayEnd | scripts/docker_metadata_exporter.py:130-139 | the body `-2\r\n0\r\n` is decoded in spite of its negative size |

## Left out

- AvroLong.DecodeLong: the WINTER decoder has no check on its shift; at an eleventh digit this is the
  build that stops on overflow. The other build is `AvroLong.UncheckedDiffersExactly`, and
  `WinterRewrite` does not follow it. `AvroContainer` mixes the two builds: negating the smallest
  block count wraps there, as it does without overflow checks.
- WinterRewrite.RewriteIsFaithful: assumes containers shorter than 2^63 bytes before and after.
- AuxProtocol.VersionCounts: versions are unbounded integers; the 32-bit field overflows after
  2^31 updates of one object.
- AlertPipeline.AtMostOnce: a queue push is one step; the retry of a push whose reply was lost may
  push twice, which is not modelled. That of an acknowledgement is.
- EventBatcher.Batcher.Capture: a flush task that cannot build its HTTP client ends with events
  still queued; the model starts with a running task.
- ChunkedBody.DecodeChunked: counts its rounds to stop on a body that is decoded for ever; the source
  has no count.
- MongoDB, Valkey, S3, Kafka and HTTP: each operation is one atomic step on values; lost replies
  and failures of database writes are modelled, back-off and retry counts are not. A retried bulk
  insert is not modelled.
- JSON text, UTF-8 validation and Avro datum decoding: parameters (`Codec`, `Avro`) that are only
  assumed to be lawful where a lemma says so.
- Conversions between words and numbers (`as u64`, `as i64`, `as u8`, `u64::from`) are functions of
  `WordBits` that say which number a word stands for.
- The JSON schema is a value rebuilt bottom up or top down; the source edits it in place.
- Stored points without a numeric `jd`, and documents with a missing or non-array series field
  beyond reading it as empty.
- Whether the aliases stored last are the fresher ones: the last write wins, as in the source
  (`AuxProtocol.LastUpdateIsStamped`).
- Crossmatching, host association, photometry, `split_prv_candidates`, `first_detection_jd`, band and
  flux conversions: computations on one alert, with no state shared between workers.
- Cutouts are a set of candids; their contents and expiry are not modelled.
- Reading Kafka (`sample_kafka`), loading credentials, metrics and the gauges `run_cycle` records.
- Configuration, authentication, the HTTP API, the scheduler's commands, logging and tracing.
