# Chunked objects over an HBase table — a Dafny model

This project models the chunked-object layer of an HBase-backed blob store
(package `org.lychee.fs.hbase`). An object is one row of the file-system table,
keyed by an identifier. The row holds five metadata cells (description, size,
shard count, status, creation time) and a shard family that maps shard
indices 1, 2, ... to byte payloads. The object's status moves from NEW to
TRANSIT to INTEGRITY.

The model has seven files:

- `model.dfy`: the shared vocabulary.
  - The Java byte (`JByte`), with the `(byte)` cast and the `& 0xff` widening.
  - The object handle (`HBaseFile`) and the status.
  - A table row, and the table itself (`Table`). The table is a mutable map
    from identifier to row. Its backend calls are numbered, and call n throws
    IOException exactly when n is in a fixed set `failing`.
- `shards.dfy`: how content is laid out as shards.
  - `CACHE_SIZE`: 1 MiB (`1024*1024`), the value the source uses. The
    proofs take the constant as defined.
  - `Chunks`: the intended split of content into shards.
  - `ShardMap`: the shard family built from a list of shards.
  - `StreamFrom`: the byte stream a reader sees, which stops at the first
    missing or empty shard.
- `api_wrapper.dfy` (HBaseAPIWrapper): metadata save and load, the guarded
  shard append, the guarded shard read, row delete and the metadata lookup by
  row key. Each operation works on the `Table`.
- `output_stream.dfy` (HBaseFileOutputStream): the writer, a class with the
  source's fields.
  - `cache` is an `array`. `cursor`, `size`, `needFlushShardList`,
    `startShardCursor` and the handle are updated in place.
  - Ghost fields record the bytes written and the shards appended to the store.
  - `Valid()` is the buffer invariant: queued shards are full, and queue plus
    buffer are the bytes written.
  - `Synced()` states what the store holds. For a stream opened on a new
    object, that is the appended shards under 1..n with TRANSIT metadata, or,
    once sealed, the complete object.
- `input_stream.dfy` (HBaseFileInputStream): the reader, a class with `shard`,
  `cache` and `cursor`. `Read` is proved against `Remaining()`, the bytes later
  reads can still deliver.
- `file_utils.dfy` (HBaseFileUtils):
  - upload, with the content hash as a parameter;
  - download;
  - the per-file results of the batch upload.

  Local files are `LocalFile` objects holding their bytes.
- `scan_adapter.dfy` (HBaseFileResultScanAdapter): batched iteration over
  metadata rows. The HBase scanner is a sequence of results plus a position.

The main results:

- **Byte-exact round trip.** A stream opened on a new object of a store that
  never fails stores exactly the intended shards of the bytes written, when
  closed with the corrected close. Those shards read back as the same bytes
  (`Writer.Flush0Corrected`, `Shards.ChunksRoundTrip`,
  `HBaseFileUtils.CompleteRowRoundTrip`, `HBaseFileUtils.Rewrite`).
- **Close as written.** The close in the source fails when the buffer is empty
  (see Findings).
- **Reader.** Reading returns exactly the concatenation of shards 1..k, where
  k + 1 is the first missing or empty index (`Reader.Read`,
  `HBaseFileUtils.Copy`).
- **Upload deduplicates.** A complete object is neither deleted nor rewritten.
- **Download refuses incomplete objects.** It refuses an incomplete object
  before it touches the destination.

Three behaviours of the code are worth stating on their own:

- **Partial write failures are swallowed.**
  - An IOException from a shard write inside a dispatched batch is
    swallowed, and the stream carries on. Only the writes that close itself
    performs propagate (`Writer.FlushQueued`, `Writer.WriteClose`).
  - For a TRANSIT object, the failed write has already moved the shard
    counter, so the next shard lands one index further on and the failed
    index stays empty (`HBaseFileOutputStream.DispatchedSkipsFailed`).
    Close still seals the object INTEGRITY. A reader stops at the first
    empty index, so a download yields only the bytes before the gap
    (`Shards.StreamStopsAtGap`).
  - For a NEW object, the first write of a batch saves the TRANSIT
    metadata first. When that save throws, the counter has not moved, so
    the next shard is stored under index 1 and the first shard is lost with
    no gap behind it. After the seal, a download yields the content without
    that shard (`HBaseFileOutputStream.FirstSaveFailureShifts`; see
    Findings).
- **Empty content and exact multiples.** Closing a stream whose buffer is
  empty (length 0, or an exact multiple of the shard size) fails with a
  NullPointerException (see Findings).
- **Incomplete objects.**
  - Download refuses an object that is not INTEGRITY with a plain
    IOException. The model gives this `IOFault`.
  - A reader opened directly on such a handle reports end of stream at once,
    not a failure (`HBaseAPIWrapper.IncompleteSeesNothing`).

## Model

| member | source | states |
|---|---|---|
| HBaseFileModel.ToByte | src/main/java/org/lychee/fs/hbase/HBaseFileOutputStream.java:95 | `(byte) b` keeps b modulo 256 and leaves a value already in byte range unchanged |
| HBaseFileModel.Unsigned | src/main/java/org/lychee/fs/hbase/HBaseFileInputStream.java:61 | `b & 0xff` lies in 0..255, equals b for non-negative bytes and narrows back to the same byte |
| HBaseFileModel.PropagatesChain | src/main/java/org/lychee/fs/hbase/HBaseFileOutputStream.java:165-178 | a sequence of steps that passed followed by one more step propagates that step's outcome: the first failed call ends an operation |
| Shards.FlattenFullLength | src/main/java/org/lychee/fs/hbase/HBaseFileOutputStream.java:98-101 | queued shards, all full, hold exactly CACHE_SIZE bytes each |
| Shards.FlattenChunks | src/main/java/org/lychee/fs/hbase/HBaseFileOutputStream.java:165-178 | the intended split of content into shards loses and reorders nothing |
| Shards.ChunkSizes | src/main/java/org/lychee/fs/hbase/HBaseFileOutputStream.java:98-101 | every intended shard is non-empty and at most CACHE_SIZE bytes, and all but the last are exactly CACHE_SIZE |
| Shards.ChunkCount | src/main/java/org/lychee/fs/hbase/HBaseFileOutputStream.java:139 | the shard count of content is its length divided by CACHE_SIZE, rounded up |
| Shards.ChunksOfLayout | src/main/java/org/lychee/fs/hbase/HBaseFileOutputStream.java:165-173 | full queued shards followed by the short buffered tail are exactly the intended split of the bytes written |
| Shards.ShardMap | src/main/java/org/lychee/fs/hbase/HBaseAPIWrapper.java:99-102 | shards stored one by one hold index i for the i-th shard, for exactly the indices 1..n |
| Shards.ShardMapAppend | src/main/java/org/lychee/fs/hbase/HBaseFileOutputStream.java:139-141 | storing one more shard under index n + 1 extends the family by that index and changes no other |
| Shards.StreamOfShardMap | src/main/java/org/lychee/fs/hbase/HBaseFileInputStream.java:44-62 | reading non-empty shards stored under 1..n from index k + 1 yields the concatenation of shards k + 1..n: stored order is read order |
| Shards.ChunksRoundTrip | src/main/java/org/lychee/fs/hbase/HBaseFileInputStream.java:44-62 | reading the intended shard layout of any content yields that content exactly |
| Shards.StreamStopsAtGap | src/main/java/org/lychee/fs/hbase/HBaseFileInputStream.java:44-62 | a reader never gets past a missing index: what it yields is the same whatever the family holds at or after that index |
| HBaseAPIWrapper.DecodeMeta | src/main/java/org/lychee/fs/hbase/HBaseAPIWrapper.java:89-95 | decoding succeeds exactly when the size, shard-count, status and create-time cells are present (a missing one is a NullPointerException); it then copies all five cells (a missing description reads as null) and keeps the identifier |
| HBaseAPIWrapper.SaveOrUpdateMeta | src/main/java/org/lychee/fs/hbase/HBaseAPIWrapper.java:65-74 | a null description fails with NullPointerException before any call; otherwise one call, which either overwrites the five metadata cells with the handle's and keeps the shards, or throws IOException and changes nothing |
| HBaseAPIWrapper.ReadMeta | src/main/java/org/lychee/fs/hbase/HBaseAPIWrapper.java:76-87 | one call; on success the handle becomes NEW with its other fields kept when the row has no metadata, and the decoded metadata otherwise |
| HBaseAPIWrapper.AddShard | src/main/java/org/lychee/fs/hbase/HBaseAPIWrapper.java:97-107 | nothing happens and nothing is called unless the handle is TRANSIT and the shard is non-null and non-empty; then one put stores the bytes under index `shards` and sets the count and size cells, or throws IOException and changes nothing |
| HBaseAPIWrapper.ReadShard | src/main/java/org/lychee/fs/hbase/HBaseAPIWrapper.java:109-122 | a handle that is not INTEGRITY reads null without a call; otherwise one call returns the bytes stored under the index, null exactly when there are none |
| HBaseAPIWrapper.Delete | src/main/java/org/lychee/fs/hbase/HBaseAPIWrapper.java:124-127 | one call removes the whole row, metadata and all shards, or throws IOException and changes nothing |
| HBaseAPIWrapper.GetResultByRowKey | src/main/java/org/lychee/fs/hbase/HBaseAPIWrapper.java:139-149 | the result is null exactly when the row has no metadata, and otherwise is the row's metadata family |
| HBaseAPIWrapper.SaveLoadRoundTrip | src/main/java/org/lychee/fs/hbase/HBaseAPIWrapper.java:65-95 | loading after a save gives back the saved handle, all five metadata fields included |
| HBaseAPIWrapper.DeleteThenLoadIsNew | src/main/java/org/lychee/fs/hbase/HBaseAPIWrapper.java:124-127 | after delete, loading yields NEW with the handle's other fields kept, and no shard is visible |
| HBaseAPIWrapper.LoadWellFormed | src/main/java/org/lychee/fs/hbase/HBaseAPIWrapper.java:89-95 | on a table whose rows have all five metadata cells whenever they have any, loading never fails |
| HBaseAPIWrapper.IncompleteSeesNothing | src/main/java/org/lychee/fs/hbase/HBaseAPIWrapper.java:110-112 | a handle that is not INTEGRITY reads an empty stream |
| HBaseAPIWrapper.AddShardRecordsIndex | src/main/java/org/lychee/fs/hbase/HBaseAPIWrapper.java:99-105 | the shard put stores the payload under the handle's shard index, records that index as the count, keeps every other shard, status and description |
| HBaseFileOutputStream.ThreadNum | src/main/java/org/lychee/fs/hbase/HBaseFileOutputStream.java:147-149 | the worker count is the smaller of cachePollNum and 5 |
| HBaseFileOutputStream.LayoutPush | src/main/java/org/lychee/fs/hbase/HBaseFileOutputStream.java:95-96 | storing a byte in the buffer and counting it keeps queue plus buffer equal to the bytes written, with `size` their number |
| HBaseFileOutputStream.LayoutQueue | src/main/java/org/lychee/fs/hbase/HBaseFileOutputStream.java:98-101 | moving a full buffer to the queue keeps the bytes written equal to the concatenated queue |
| HBaseFileOutputStream.LayoutSize | src/main/java/org/lychee/fs/hbase/HBaseFileOutputStream.java:89-101 | size == queued shards × CACHE_SIZE + buffered bytes, so the buffer is empty exactly when size is a multiple of CACHE_SIZE |
| HBaseFileOutputStream.FirstShardRow | src/main/java/org/lychee/fs/hbase/HBaseFileOutputStream.java:133-141 | the first shard of a new object (metadata saved as TRANSIT, counter bumped to 1) leaves a TRANSIT row holding exactly that shard under index 1 |
| HBaseFileOutputStream.NextShardRow | src/main/java/org/lychee/fs/hbase/HBaseFileOutputStream.java:137-141 | each further shard is stored under the next index and the count cell follows it |
| HBaseFileOutputStream.AppendedState | src/main/java/org/lychee/fs/hbase/HBaseFileOutputStream.java:132-142 | writing a non-empty shard of a new object extends the stored shards by exactly that shard, status TRANSIT |
| HBaseFileOutputStream.SealedState | src/main/java/org/lychee/fs/hbase/HBaseFileOutputStream.java:174-177 | saving INTEGRITY once exactly the intended shards of the content are stored, with its length as size, leaves the complete object |
| HBaseFileOutputStream.DispatchedNext | src/main/java/org/lychee/fs/hbase/HBaseFileOutputStream.java:115-125 | the dispatch of one more queued shard is one more shard write, from the state the earlier ones left, whatever their outcome |
| HBaseFileOutputStream.DispatchedSkipsFailed | src/main/java/org/lychee/fs/hbase/HBaseFileOutputStream.java:115-125 | for a TRANSIT object, dispatching non-empty shards makes one call per shard and moves the counter past all of them; the j-th shard lands under the j-th next index when its call passes, and that index keeps what it held when the call throws; no other index changes |
| HBaseFileOutputStream.TransitShardWrite | src/main/java/org/lychee/fs/hbase/HBaseFileOutputStream.java:139-141 | one shard write of a TRANSIT object: one call, the counter on the next index, and only that index touched, holding the shard unless the call throws |
| HBaseFileOutputStream.ShardStepPropagates | src/main/java/org/lychee/fs/hbase/HBaseFileOutputStream.java:132-142 | a shard write keeps the handle's identifier, description and creation time; it passes only when none of its calls throws, an IOException comes from its last call, a NullPointerException only from a NEW handle without description, and a failure changes the rows only when the metadata save of a NEW handle went through first |
| HBaseFileOutputStream.ShardStepShape | src/main/java/org/lychee/fs/hbase/HBaseFileOutputStream.java:132-142 | a shard write marks a NEW handle TRANSIT, sets the size and the next shard index unless the metadata save failed, passes on a healthy store given a description, and neither calls nor changes anything for an INTEGRITY handle |
| HBaseFileOutputStream.ShardStepStored | src/main/java/org/lychee/fs/hbase/HBaseFileOutputStream.java:132-142 | a shard write keeps the stream's store relation; on a new object the stored shards grow by exactly the written shard |
| HBaseFileOutputStream.FirstSaveFailureShifts | src/main/java/org/lychee/fs/hbase/HBaseFileOutputStream.java:111-136 | as written: when the first call of a new object's batch (the TRANSIT save) throws, the handle ends TRANSIT with counter 1 and the second shard is the only one stored, under index 1 |
| HBaseFileOutputStream.DispatchedAppend | src/main/java/org/lychee/fs/hbase/HBaseFileOutputStream.java:111-127 | dispatching two runs of shards one after the other is dispatching them as one run |
| HBaseFileOutputStream.NewShardWrite | src/main/java/org/lychee/fs/hbase/HBaseFileOutputStream.java:132-142 | the first shard write of a NEW handle whose two calls pass: TRANSIT metadata saved, the shard stored under the next index, two calls, no other index changed |
| HBaseFileOutputStream.PassedTransitLandsAll | src/main/java/org/lychee/fs/hbase/HBaseFileOutputStream.java:111-142 | dispatching non-empty shards for a TRANSIT object with no call throwing stores the j-th shard under the j-th next index, in order, and changes no other index |
| HBaseFileOutputStream.PassedDispatchLandsAll | src/main/java/org/lychee/fs/hbase/HBaseFileOutputStream.java:111-142 | the same for a NEW or TRANSIT handle with a description: a dispatch in which no call threw lost and shifted no shard |
| HBaseFileOutputStream.PassedBatchLandsAll | src/main/java/org/lychee/fs/hbase/HBaseFileOutputStream.java:111-127 | a run of full queued shards whose dispatch made no failing call lands all of them under consecutive indices |
| HBaseFileOutputStream.Writer.constructor | src/main/java/org/lychee/fs/hbase/HBaseFileOutputStream.java:71-75 | a new stream has no buffer, empty queue, zero cursor and size, and the buffer invariant holds |
| HBaseFileOutputStream.Writer.Write | src/main/java/org/lychee/fs/hbase/HBaseFileOutputStream.java:89-106 | appends `(byte) b` to the bytes written; a full buffer is queued (and only then), and a queue whose length becomes a multiple of cachePollNum is dispatched, moving the cursor to its end; on any store the handle, rows and call count are then those of dispatching the queued shards from the old cursor, failures swallowed, and otherwise are unchanged; the buffer invariant and the store relation are kept; an INTEGRITY handle stores nothing |
| HBaseFileOutputStream.Writer.Buffer | src/main/java/org/lychee/fs/hbase/HBaseFileOutputStream.java:90-95 | allocates a fresh CACHE_SIZE buffer with cursor 0 when there is none, then the buffer's prefix is the pending bytes plus the new byte |
| HBaseFileOutputStream.Writer.QueueFull | src/main/java/org/lychee/fs/hbase/HBaseFileOutputStream.java:98-104 | the full buffer is appended to the queue and dropped; dispatch runs exactly when the queue length is a multiple of cachePollNum; on any store the handle, rows and call count are then those of dispatching the queue from the old cursor, failures swallowed, and otherwise are unchanged |
| HBaseFileOutputStream.Writer.Enqueue | src/main/java/org/lychee/fs/hbase/HBaseFileOutputStream.java:98-100 | the full buffer is appended to the queue as one shard and dropped, keeping the buffer invariant |
| HBaseFileOutputStream.Writer.WriteCacheListToHBaseCorrected | src/main/java/org/lychee/fs/hbase/HBaseFileOutputStream.java:111-127 | the dispatch as intended: stops at the first shard write that throws and propagates it, the state being the dispatch up to and including that shard; a batch that passes writes the same shards as the original and stores every one under the next indices in queue order, none lost or shifted |
| HBaseFileOutputStream.Writer.FlushUpTo | src/main/java/org/lychee/fs/hbase/HBaseFileOutputStream.java:113-125 | writes the queued shards from the cursor up to the given end, stopping at the first that throws and propagating it; the state is the dispatch of the queue up to and including that shard |
| HBaseFileOutputStream.Writer.DispatchNext | src/main/java/org/lychee/fs/hbase/HBaseFileOutputStream.java:116-125 | one round of the dispatch loop: the shard at the cursor is written, its outcome dropped and the cursor moved on, so the state stays the dispatch of the queue from the batch start |
| HBaseFileOutputStream.Writer.WriteCacheListToHBase | src/main/java/org/lychee/fs/hbase/HBaseFileOutputStream.java:111-127 | writes at most cachePollNum queued shards, each once, in queue order from the cursor, and ends the cursor past them; on any store the handle, rows and call count are those of writing each shard in turn from the state the previous one left, failures swallowed |
| HBaseFileOutputStream.Writer.WriteCacheToHBase | src/main/java/org/lychee/fs/hbase/HBaseFileOutputStream.java:132-142 | on any store, the handle, rows and call count after the call, and the outcome, are those of the shard write: a NEW handle is marked TRANSIT and saved first (no description: NullPointerException before any call; a failed save ends it), then the size and counter are set and the shard is put under the new index; an INTEGRITY handle stores nothing |
| HBaseFileOutputStream.Writer.WriteAtCursor | src/main/java/org/lychee/fs/hbase/HBaseFileOutputStream.java:168-169 | writes the queued shard at the cursor as writeCacheToHBase does, with its outcome and the resulting state; on a new object of a healthy store it passes and extends the stored shards by it |
| HBaseFileOutputStream.Writer.Flush0 | src/main/java/org/lychee/fs/hbase/HBaseFileOutputStream.java:165-178 | as written: stores the queued shards, then the buffered tail, then INTEGRITY, and passes only when no call threw; the first failure propagates; with no live buffer it fails with NullPointerException after the queue, leaving the object not sealed; a NullPointerException comes only from that or from a handle without description |
| HBaseFileOutputStream.Writer.FlushQueued | src/main/java/org/lychee/fs/hbase/HBaseFileOutputStream.java:167-170 | every still-queued shard is written in order; on any store the state is that of writing the shards up to and including the one that failed; the first failure propagates and leaves the cursor on that shard, and no earlier call threw |
| HBaseFileOutputStream.Writer.FlushNext | src/main/java/org/lychee/fs/hbase/HBaseFileOutputStream.java:167-170 | one round of the loop of flush0: writes the shard at the cursor and moves the cursor on only when the write passed; the state is the dispatch of the queue up to and including that shard |
| HBaseFileOutputStream.Writer.WriteLast | src/main/java/org/lychee/fs/hbase/HBaseFileOutputStream.java:172-173 | on any store, the state and outcome are those of writing the buffered prefix as one more shard; on a new object the stored shards are then the intended split of the bytes written and the size is their count |
| HBaseFileOutputStream.Writer.WriteClose | src/main/java/org/lychee/fs/hbase/HBaseFileOutputStream.java:172-177 | the last shard, then the seal: a failure of either propagates and a failed last shard skips the seal; on a new object it ends with the complete object holding every byte written |
| HBaseFileOutputStream.Writer.Seal | src/main/java/org/lychee/fs/hbase/HBaseFileOutputStream.java:174-177 | an INTEGRITY handle is left alone with no call; otherwise the handle is marked INTEGRITY and saved in one call (no description: NullPointerException and no call), which either overwrites the row's metadata or throws IOException leaving the rows unchanged; on a new object this completes it with the bytes written |
| HBaseFileOutputStream.Writer.Flush0Corrected | src/main/java/org/lychee/fs/hbase/HBaseFileOutputStream.java:165-178 | close as intended: the tail shard is written only when bytes are buffered; a stream on a new object of a healthy store always ends with the complete object whose content is every byte written; failures propagate as in flush0 |
| HBaseFileInputStream.Reader.constructor | src/main/java/org/lychee/fs/hbase/HBaseFileInputStream.java:35-42 | the reader starts at shard 1 with no buffer, so what it will deliver is the stream from shard 1 |
| HBaseFileInputStream.Reader.Read | src/main/java/org/lychee/fs/hbase/HBaseFileInputStream.java:44-62 | returns -1 or a value in 0..255; a non-(-1) value is the next byte of the remaining stream and consumes it; -1 exactly when nothing is buffered and the next shard is missing or empty; a shard is fetched exactly when none is buffered, at the next index; the buffer never holds a used-up shard; IOException only from a fetch |
| HBaseFileInputStream.Reader.ReadBuffered | src/main/java/org/lychee/fs/hbase/HBaseFileInputStream.java:52-61 | the byte under the cursor, widened to 0..255, is the head of the unread buffered bytes and is consumed; a used-up buffer is dropped; an empty buffered shard yields 255 |
| HBaseFileInputStream.Reader.ReadCacheFromHBase | src/main/java/org/lychee/fs/hbase/HBaseFileInputStream.java:65-67 | fetches shard `shard` and advances the index even on failure; a non-empty result is the head of the stream from that index, a missing or empty one ends it |
| HBaseFileUtils.BuildHBaseFile | src/main/java/org/lychee/fs/hbase/HBaseFileUtils.java:61-62 | a new handle loaded with readMeta in one call |
| HBaseFileUtils.CompleteRowRoundTrip | src/main/java/org/lychee/fs/hbase/HBaseFileUtils.java:112-126 | an object stored complete is INTEGRITY to download and reads back as exactly its content |
| HBaseFileUtils.FullShardsStream | src/main/java/org/lychee/fs/hbase/HBaseFileInputStream.java:44-62 | full shards stored under 1..n read back as their concatenation |
| HBaseFileUtils.UploadedHealthy | src/main/java/org/lychee/fs/hbase/HBaseFileUtils.java:58-80 | on a healthy store whose rows all have complete metadata, an upload of an existing file with the corrected close returns its hash and keeps every row's metadata complete |
| HBaseFileUtils.Upload | src/main/java/org/lychee/fs/hbase/HBaseFileUtils.java:58-80 | success returns the content's hash; a missing file is IOException; a complete object is left untouched; otherwise, on a healthy store, the row is replaced by the complete object or, with the close as written and an empty buffer, fails with NullPointerException leaving the shards under a TRANSIT row; a NullPointerException comes only from that or from metadata that cannot be decoded |
| HBaseFileUtils.Rewrite | src/main/java/org/lychee/fs/hbase/HBaseFileUtils.java:69-76 | on a new object of a healthy store: the row becomes the complete object, or, with the close as written and an empty buffer, NullPointerException with all the content stored but status TRANSIT; with a description, a NullPointerException arises only in that case |
| HBaseFileUtils.WriteAll | src/main/java/org/lychee/fs/hbase/HBaseFileUtils.java:74-75 | copying the content into the writer makes the bytes written exactly the content, keeping the writer's invariants |
| HBaseFileUtils.Download | src/main/java/org/lychee/fs/hbase/HBaseFileUtils.java:112-126 | an object that is not complete fails before the destination is touched; on success the destination holds exactly the stored stream; a healthy store always succeeds on a complete object; a later failure leaves a prefix of the stream |
| HBaseFileUtils.Copy | src/main/java/org/lychee/fs/hbase/HBaseFileUtils.java:119-124 | copying from the reader writes exactly the reader's remaining stream, or a prefix of it when an IOException stops the copy |
| HBaseFileUtils.AsFuture | src/main/java/org/lychee/fs/hbase/HBaseFileUtils.java:151-159 | an IOException becomes a null identifier; any other exception escapes to the future; success yields the identifier |
| HBaseFileUtils.UploadAll | src/main/java/org/lychee/fs/hbase/HBaseFileUtils.java:91-101 | one result per file in iteration order, each the future of that file's upload outcome: an IOException (a missing file among them) yields null, another exception escapes, and every identifier returned is the hash of that file's content; the uploads run one after another, each relating the rows and calls the previous one left to the next exactly as a single upload does; on a healthy store with well-formed rows and the corrected close, every existing file yields its hash |
| HBaseFileResultScanAdapter.AdapterTo | src/main/java/org/lychee/fs/hbase/HBaseFileResultScanAdapter.java:87-91 | the handle's identifier is the row key and its five metadata fields are decoded from the result; a missing cell is a NullPointerException |
| HBaseFileResultScanAdapter.AdaptAll | src/main/java/org/lychee/fs/hbase/HBaseFileResultScanAdapter.java:93-98 | one handle per result, same length and order, each the adapted result; fails exactly when some result cannot be decoded |
| HBaseFileResultScanAdapter.AdaptAllAppend | src/main/java/org/lychee/fs/hbase/HBaseFileResultScanAdapter.java:93-98 | adapting two consecutive batches yields the same handles as adapting them as one |
| HBaseFileResultScanAdapter.ScanAdapter.constructor | src/main/java/org/lychee/fs/hbase/HBaseFileResultScanAdapter.java:41-43 | the adapter wraps the given scanner, possibly null |
| HBaseFileResultScanAdapter.ScanAdapter.Next | src/main/java/org/lychee/fs/hbase/HBaseFileResultScanAdapter.java:51-67 | a null scanner gives an empty list; an IOException or a null batch gives an empty list and closes the scanner, which is otherwise left as it was; else the result is the adapted batch, at most `size` long, and the scanner advances past it |
| HBaseFileResultScanAdapter.ScanAdapter.NextOne | src/main/java/org/lychee/fs/hbase/HBaseFileResultScanAdapter.java:74-77 | null exactly when next(1) is empty, otherwise its only element, the adapted next result |
| HBaseFileResultScanAdapter.ScanAdapter.Close | src/main/java/org/lychee/fs/hbase/HBaseFileResultScanAdapter.java:83-85 | closes the scanner; a null scanner is a NullPointerException |

## Left out

- Threads: the worker pools, `CompletionService`, `synchronized` and the synchronized list are left out. Each dispatched shard is submitted and then awaited before the next one, so `writeCacheListToHBase` is modelled as that sequential loop. The batch upload is modelled as a sequential loop over the files, in order. Concurrent uploads of equal content are not modelled.
- `flush()` and `close()`: each is a single call of `flush0()`, so both are modelled by `Writer.Flush0`.
- `initPara`: only the pool size it computes is modelled, as `ThreadNum`.
- `WriteCacheRunnable` is modelled inside `WriteCacheListToHBase`. Its result (true or false) is only logged, so the model drops it.
- `HBaseFile`, `HBaseFileConst`, `HBaseFileHelper` and `HBaseFileSystem` are not part of this model.
  - The handle is a datatype with their used fields, and the status is the three-valued enum.
  - `HBaseFileHelper.readShard` is taken to be `HBaseAPIWrapper.readShard`.
  - `HBaseFile.Factory.buildHBaseFile` is taken to be a new handle loaded with `readMeta`.
  - The creation time of a new handle is the parameter `now`.
- The connection bootstrap, `scan()` and `rawGetResultScann` in HBaseAPIWrapper are left out (network and console I/O). The scanner's results are an abstract sequence; the model does not tie them to the table's rows or their key order.
- The HBase byte codec (`Bytes.toBytes`, `Put`, `Get`, `KeyValue`) is left out. Cells hold typed values, so the status byte is the enum itself.
- MD5 hashing is the function parameter `md5`. Local files are `LocalFile` objects. The only local I/O failure modelled is a missing source file; failures to create or write the destination are left out.
- `IOUtils.copy` and the `write(byte[])`/`read(byte[])` block methods are left out. The model copies byte by byte until the first -1. This ignores `InputStream.read(byte[])`, which swallows an IOException raised after the first byte of a block.
- Integer widths are not modelled: `size` is a Java `long` and the shard counter an `int`, and overflow of either is out of scope.
- The queue holds shard values rather than references to the buffer arrays. Each queued array is never written again after it is queued, so no aliasing is observable.
- The reader's buffer is a value. The reader never writes into the array it gets from `readShard`.
- HBaseFileUtils.Upload: the contract gives the resulting rows only for a store that never fails.
- HBaseFileOutputStream.Writer.Flush0: on a store that can fail, the contract gives the outcome, how it propagates and where a NullPointerException comes from, but not the resulting rows. Those are stated step by step by `Writer.FlushQueued`, `Writer.WriteLast` and `Writer.Seal`, which it runs in turn.
- HBaseFileOutputStream.Writer.WriteClose: as for Flush0, the rows on a store that can fail are stated by `Writer.WriteLast` and `Writer.Seal`, not composed.
- HBaseFileOutputStream.Writer.Flush0Corrected: as for Flush0, the rows on a store that can fail are not composed into its own contract.
- HBaseFileInputStream.Reader.Read: an empty stored shard is modelled as the code handles it. The read that fetches it returns -1 but keeps the empty array buffered, so the next read returns 255 (the widened -1 byte) and moves on to the following shard. The writer never stores an empty shard.
- Logging and `printStackTrace` are left out.

## Findings

| source | as written | input that shows it | evidently intended | confidence | as-written member | corrected member |
|---|---|---|---|---|---|---|
| src/main/java/org/lychee/fs/hbase/HBaseFileOutputStream.java:172 | `flush0` copies `cache` even when no buffer is live, so `Arrays.copyOf(null, cursor)` throws NullPointerException. The queued shards are stored, but the object is never marked INTEGRITY, so download refuses it and the next upload deletes and rewrites it. | Upload content of length 0, or of exactly CACHE_SIZE bytes (any multiple), then close (`HBaseFileUtils.Rewrite` with `corrected` false). | With an empty buffer, close stores no trailing shard and marks the object INTEGRITY, so every length round-trips. | high; not executed | HBaseFileOutputStream.Writer.Flush0 | HBaseFileOutputStream.Writer.Flush0Corrected |
| src/main/java/org/lychee/fs/hbase/HBaseFileOutputStream.java:111-136 | `writeCacheListToHBase` swallows a failed shard write. For a NEW object the first write saves the TRANSIT metadata before moving the counter, so when that save throws the counter stays at 0: the next shard is stored under index 1 and the first one is lost, with no gap for a reader to stop at. | Upload at least 2·CACHE_SIZE bytes with cachePollNum 2 into a store whose first call (the TRANSIT save) throws and whose later calls succeed. | A failed shard write stops the batch and propagates, so no shard is lost or stored under another shard's index. | medium; not executed | HBaseFileOutputStream.FirstSaveFailureShifts | HBaseFileOutputStream.Writer.WriteCacheListToHBaseCorrected |
