# StormDB core in Dafny

StormDB is an embedded key-value store. Keys are 32-bit ints and every value
has the same size, fixed when the database is created. A database is a
directory that holds:

- `meta`, which stores the value size;
- `data`, which compaction writes;
- `wal`, the write-ahead log that `put` feeds through an in-memory write buffer;
- during a compaction, `wal.next` and `data.next`.

An in-memory index maps each key to the ordinal of its record, and BitSets
record which file holds that record.

This project models that core:

- `WriteBuffers` (`write_buffer.dfy`) models the write buffer. Records are
  written at a cursor into a fixed array. Each block of 128 records is closed
  by a CRC-32 and one sync-marker record (key -1, value all 0xFF). A flush
  pads the open block with copies of its last record.
- `Engine` (`engine.dfy`) models the `StormDB` class:
  - `put`, `flush` and `randomGet`;
  - the backwards `iterate`;
  - `buildIndex`;
  - the three steps of `compact`: seal, merge and promote;
  - `recover`;
  - the constructor that opens or reopens a directory.
- Files are byte strings held in fields; a missing file is `None`. The
  write buffer is an object: `put` and `flush` update it in place.
- `Scans` (`scan.dfy`), `Indexing` (`index.dfy`) and `Merging` (`merge.dfy`)
  hold the functions that specify the loops of `iterate`, `buildIndex` and
  the merge step, and the lemmas about them.

The main results:

- The record that `put` accepts sits in the write buffer at the address
  the index holds for its key. As written, `randomGet` copies from that
  record's first byte, so before a flush it returns the key's four bytes and
  then the value cut short by four bytes; with the copy corrected it returns
  the value (see the Findings).
- `iterate` hands each key to the consumer once, taking its newest record:
  the files are read newest first, and each file backwards from its end.
- The merge step writes a data file with one record per key. In that file
  the index maps record `i`'s key to ordinal `i`, and `randomGet` reads the
  value back there.
- When the database is reopened, `buildIndex` over the WAL overrides what it
  found in the data file.
- The write buffer's sizes agree with its test, and so does its block layout
  (128 records, then the CRC, then the sync marker).

Some behaviours of the code, as the model states them:

- `java.util.BitSet` throws for a negative index. So does every BitSet call
  on a negative key (in `put`, `randomGet`, `iterate`, `buildIndex` of the
  WAL and `flushNext`); the model gives `Err(NegativeBitIndex)`.
  - A flushed WAL ends in a sync-marker record with key -1. `iterate` reads
    backwards from the end of a file, so it meets that marker first and
    throws (`Scans.ScanFilesStopsAtNegativeTail`).
  - `buildIndex(true)` parses the WAL in steps of recordSize bytes. A sync
    record at a record boundary would parse as key -1 and throw
    (`Indexing.ParsedSyncKey`). A flush, however, puts each block's CRC in
    front of its sync record, which therefore starts 4 bytes past a
    boundary. The record parsed at 128 * recordSize takes the CRC as its
    key, and throws only when that int is negative. The record parsed at
    129 * recordSize takes -1 from the sync record's last bytes, so a WAL of
    at least 130 * recordSize bytes always throws (`Indexing.FlushedWalKeys`).
    A WAL of one flushed block is not a whole number of records, so its open
    fails with WalMisaligned when the CRC key does not throw first.
  - Compaction and reopening after a flush therefore fail as written, and
    the model says so rather than hiding it.
- The two boolean parameters of the private `iterate` are ignored. The
  copy of the write buffer that it takes is never read.
- Ordinals restart at 0 for every file that `buildIndex` or `flushNext` reads.
- `recover` appends `data.next` to `data` and deletes `data.next`. It opens
  `data.next` under both of its names, `nextWalFile` and `nextDataFile`.
  `compact` then runs with `walOut` still null, so its flush is a no-op and
  its sealing step always proceeds.

The system's collaborators become parameters:

- `RecordUtil`'s address codec is a `Codec` value, and the properties the
  model needs of it are stated as predicates (`WalRoundTrip`, `DataOrdinals`).
- The CRC-32 function is a function-valued parameter of the write buffer.
- The files found on disk at start-up are a `Disk` value.

## Model

| member | source | states |
|---|---|---|
| Common.GetIntOfInt32Bytes | src/main/java/com/clevertap/stormdb/StormDB.java:120-146 | reading back with getInt the four big-endian bytes that putInt wrote gives the same int |
| Engine.WrittenMetaMatches | src/main/java/com/clevertap/stormdb/StormDB.java:120-146 | the meta file that a new database writes matches its own value size when the database is reopened |
| WriteBuffers.NewWriteBuffer | src/test/java/com/clevertap/stormdb/WriteBufferTest.java:42-45 | construction fails with ValueSizeTooLarge exactly when the value size exceeds 512 KiB; otherwise the buffer is fresh, valid, empty and has the given value size |
| WriteBuffers.WriteBuffer.constructor | src/test/java/com/clevertap/stormdb/WriteBufferTest.java:115-118 | a new buffer is valid and empty, and no record or sync marker has been added |
| WriteBuffers.WriteBufferSizes | src/test/java/com/clevertap/stormdb/WriteBufferTest.java:28-40 | the capacity for value sizes 10, 1, 36, 1024, 16 KiB, 128 KiB, 256 KiB and 512 KiB is the byte count the test expects |
| WriteBuffers.WriteBuffer.GetWriteBufferSize | src/test/java/com/clevertap/stormdb/WriteBufferTest.java:28-40 | the buffer's size is its capacity: a whole, non-zero number of closed blocks |
| WriteBuffers.CapacityIsWholeBlocks | src/test/java/com/clevertap/stormdb/WriteBufferTest.java:28-40 | the capacity is a non-zero multiple of the size of a closed block, and the maximum record count is a non-zero multiple of 128 |
| WriteBuffers.WriteBuffer.GetMaxRecords | src/test/java/com/clevertap/stormdb/WriteBufferTest.java:137-147 | the maximum record count is a multiple of 128, and that many records with their trailers fill the array exactly |
| WriteBuffers.CapacityIsFramedLength | src/test/java/com/clevertap/stormdb/WriteBufferTest.java:137-147 | the maximum number of records, framed in blocks, takes exactly the capacity |
| WriteBuffers.FullExactlyAtMax | src/test/java/com/clevertap/stormdb/WriteBufferTest.java:137-147 | the space left after n records is smaller than one record if and only if n is the maximum record count |
| WriteBuffers.WriteBuffer.IsFull | src/test/java/com/clevertap/stormdb/WriteBufferTest.java:137-147 | the buffer is full if and only if it holds the maximum number of records |
| WriteBuffers.WriteBuffer.IsDirty | src/test/java/com/clevertap/stormdb/WriteBufferTest.java:115-121 | the buffer is dirty if and only if it holds a record |
| WriteBuffers.WriteBuffer.Array | src/test/java/com/clevertap/stormdb/WriteBufferTest.java:123-127 | the array exists, has the buffer's capacity, and its filled part is the framed pending records |
| WriteBuffers.WriteBuffer.Add | src/test/java/com/clevertap/stormdb/WriteBufferTest.java:47-66 | on a buffer that is not full, a non-reserved record is appended to the pending records and its bytes are written at the returned address; one record is counted, and one sync marker when the record closes a block |
| WriteBuffers.WriteBuffer.AddOpen | src/test/java/com/clevertap/stormdb/WriteBufferTest.java:76-90 | a record that does not close its block is written at the cursor, and the cursor moves past it |
| WriteBuffers.WriteBuffer.AddClosing | src/test/java/com/clevertap/stormdb/WriteBufferTest.java:76-113 | the 128th record of a block is written, then its trailer; one sync marker is counted and a new block starts |
| WriteBuffers.WriteBuffer.CloseBlock | src/test/java/com/clevertap/stormdb/WriteBufferTest.java:98-109 | after the 128 records of a block come the CRC of their bytes and then the sync-marker record |
| WriteBuffers.WriteBuffer.LastRecord | src/test/java/com/clevertap/stormdb/WriteBufferTest.java:68-73 | gives back the key and value of the last record added |
| WriteBuffers.WriteBuffer.RepeatLast | src/test/java/com/clevertap/stormdb/WriteBufferTest.java:68-73 | adding a copy of the last record is counted as one more record |
| WriteBuffers.WriteBuffer.Pad | src/test/java/com/clevertap/stormdb/WriteBufferTest.java:68-73 | padding completes the open block with copies of the last record: PadCount records and one sync marker are counted |
| WriteBuffers.PaddedShape | src/test/java/com/clevertap/stormdb/WriteBufferTest.java:68-73 | the padded records fill whole blocks, start with the original records, add fewer than 128, and repeat the last record |
| WriteBuffers.PaddedWhole | src/test/java/com/clevertap/stormdb/WriteBufferTest.java:76-113 | records that already fill whole blocks are not padded |
| WriteBuffers.WriteBuffer.Flush | src/test/java/com/clevertap/stormdb/WriteBufferTest.java:68-74 | an empty buffer writes nothing; otherwise it writes the framed records, padded to whole blocks; afterwards the buffer is empty and valid |
| WriteBuffers.FullBlockLayout | src/test/java/com/clevertap/stormdb/WriteBufferTest.java:92-112 | a flushed block of 128 records holds their bytes, then the CRC at byte 128*recordSize, then key -1, then valueSize bytes of 0xFF, and nothing more |
| WriteBuffers.FullBlockBytes | src/test/java/com/clevertap/stormdb/WriteBufferTest.java:92-112 | a flushed full block is its records' bytes, then the CRC of those bytes, then the sync record |
| WriteBuffers.SyncRecordLayout | src/test/java/com/clevertap/stormdb/WriteBufferTest.java:103-109 | the sync record reads as key -1 followed by valueSize bytes of 0xFF |
| Engine.StormDB.constructor | src/main/java/com/clevertap/stormdb/StormDB.java:105-117 | the record size is valueSize + 4; the block size is the corrected one of the Findings (the source's value for records of up to 4096 bytes); the index and BitSets are empty; walOut is not open; the files are those on disk, and a wal.next found there is kept as leftoverWalNext, which nothing reads |
| Engine.Open | src/main/java/com/clevertap/stormdb/StormDB.java:105-154 | the constructor's outcome for every state of the directory: too large a value size; a meta file that is too short or holds another value size; a new database, which writes meta; a reopen, which indexes data and then the WAL; recovery from data.next; a misaligned WAL. On success the database is open, with an empty write buffer; a wal.next left on disk is gone when a reopen finds data.next too (recovery's seal truncates it, losing the writes it held) and otherwise stays, unread |
| Engine.StormDB.Start | src/main/java/com/clevertap/stormdb/StormDB.java:119-154 | the meta checks, indexing or recovery, then opening the WAL, which fails when the WAL's length is not a multiple of the record size; the outcome of each case, including whether a leftover wal.next survives |
| Engine.StormDB.Restore | src/main/java/com/clevertap/stormdb/StormDB.java:119-146 | a meta file shorter than 4 bytes gives BufferUnderflow; another value size gives ValueSizeMismatch; a missing meta is written with the value size and nothing is indexed; otherwise the files are indexed, after recovery when data.next exists, and only that recovery truncates a leftover wal.next |
| Engine.StormDB.Load | src/main/java/com/clevertap/stormdb/StormDB.java:133-140 | without data.next, the index is built over data and then over the WAL, and a leftover wal.next is left unread; with data.next, recovery runs first, truncating wal.next, and the index is then rebuilt over the new data file |
| Engine.StormDB.IndexFiles | src/main/java/com/clevertap/stormdb/StormDB.java:139-140 | buildIndex over data and then over the WAL; the result fails exactly when the WAL holds a negative key |
| Engine.StormDB.OpenWal | src/main/java/com/clevertap/stormdb/StormDB.java:148-154 | walOut opens on the WAL, which is created if missing; bytesInWalFile is its length; it fails with WalMisaligned exactly when that length is not a multiple of the record size |
| Engine.StormDB.Recover | src/main/java/com/clevertap/stormdb/StormDB.java:177-211 | data.next is appended to data, and the compaction that follows merges the WAL and the new data. With walOut closed, it fails exactly when that merge meets a negative key, and the resulting files and BitSets are given for both outcomes; either way a leftover wal.next has been truncated |
| Engine.AppendChunks | src/main/java/com/clevertap/stormdb/StormDB.java:185-195 | copying in 4 MiB chunks appends exactly the source bytes to the target |
| Merging.RecoveryKeepsNewest | src/main/java/com/clevertap/stormdb/StormDB.java:133-140 | after a recovery merge that succeeds, the data file keeps the newest record of every key; re-indexing it maps record i's key to ordinal i and marks no key as in the WAL |
| Merging.ReindexKept | src/main/java/com/clevertap/stormdb/StormDB.java:551-587 | buildIndex(false) over a file of records with distinct keys maps record i's key to ordinal i and marks nothing |
| Engine.StormDB.Put | src/main/java/com/clevertap/stormdb/StormDB.java:351-381 | the reserved key is refused and nothing changes; otherwise a full buffer is flushed first and the record is appended; the index maps the key to its WAL address, and the WAL BitSet in use (next during a compaction) marks it; a negative key throws after the index has changed; after a put that succeeds, randomGet as written returns the record's first valueSize bytes (the key, then the value less its last 4 bytes), and the corrected randomGet returns the value |
| Engine.StormDB.PutRecord | src/main/java/com/clevertap/stormdb/StormDB.java:357-380 | put past its reserved-key check: the same buffer, index and BitSet outcome and the same read-backs as put |
| Engine.StormDB.AddToBuffer | src/main/java/com/clevertap/stormdb/StormDB.java:361-366 | a full buffer is flushed to the WAL first; the record is then appended, and its bytes, key then value, sit in the buffer at the returned address |
| Engine.StormDB.AppendRecord | src/main/java/com/clevertap/stormdb/StormDB.java:366 | writeBuffer.add appends the record, and its bytes, key then value, sit in the buffer at the address it returns |
| Engine.StormDB.IndexAndMark | src/main/java/com/clevertap/stormdb/StormDB.java:368-376 | index.put of the WAL address, then BitSet.set on the WAL BitSet in use; it fails exactly for a negative key; on success randomGet as written returns the buffered record's first valueSize bytes, and the corrected randomGet its value |
| Engine.StormDB.ReadsBackFromBuffer | src/main/java/com/clevertap/stormdb/StormDB.java:494-501 | a key marked in a WAL BitSet whose record sits unflushed at its address in the buffer is read from there: the source's copy gives the record's first valueSize bytes, starting with its key; the corrected copy gives its value |
| Engine.StormDB.Flush | src/main/java/com/clevertap/stormdb/StormDB.java:384-396 | with walOut open and a dirty buffer, the padded blocks are appended to wal.next during a compaction, or else to wal, and bytesInWalFile grows by their length; otherwise nothing changes |
| Engine.Flushed | src/main/java/com/clevertap/stormdb/StormDB.java:392 | the written bytes extend exactly the WAL file in use, and bytesInWalFile grows by their length |
| Engine.StormDB.RandomGet | src/main/java/com/clevertap/stormdb/StormDB.java:481-529 | with the source's buffer copy or the corrected one: a key with no mapping gives no value; a negative key with a mapping throws; any value returned holds valueSize bytes |
| Engine.BufferReadRecord | src/main/java/com/clevertap/stormdb/StormDB.java:497-500 | the corrected buffer path gives back the value of the record at the offset |
| Engine.BufferReadAsWrittenGivesKey | src/main/java/com/clevertap/stormdb/StormDB.java:498-499 | as written, the buffer path gives the record's key bytes followed by its value without the last 4 bytes |
| Engine.BufferReadAsWrittenRecord | src/main/java/com/clevertap/stormdb/StormDB.java:497-499 | as written, the buffer path at a record's offset gives the first valueSize bytes of that record |
| Engine.BufferReadAsWrittenCounterexample | src/main/java/com/clevertap/stormdb/StormDB.java:498-499 | key 0 with value [1,2,3,4] reads back as [0,0,0,0] as written, and as [1,2,3,4] when corrected |
| Engine.FileReadErrors | src/main/java/com/clevertap/stormdb/StormDB.java:519-527 | a stored key other than the requested one gives InconsistentData; a matching key whose value the file cuts short gives Corruption |
| Engine.StormDB.RandomGetRouting | src/main/java/com/clevertap/stormdb/StormDB.java:494-514 | outside the buffer path, with either buffer copy, the file is chosen as wal.next, then data.next, then wal, then data; the address is decoded as a WAL address exactly when a WAL BitSet marks the key, even when the file chosen is data.next |
| Engine.FileReadRecord | src/main/java/com/clevertap/stormdb/StormDB.java:519-528 | seeking to a record's first byte, checking its key and reading the value gives back that record's value |
| Engine.DataRecordRead | src/main/java/com/clevertap/stormdb/StormDB.java:503-528 | in a data file written by compaction, record i is read back at byte i * recordSize |
| Engine.StormDB.ReadsFromData | src/main/java/com/clevertap/stormdb/StormDB.java:502-514 | outside a compaction, with either buffer copy, a key that no BitSet holds is read from the data file, at the address of its ordinal |
| Engine.StormDB.ReadAfterCompaction | src/main/java/com/clevertap/stormdb/StormDB.java:481-529 | after a compaction, a key that the index maps to record i of the data file is read back as that record's value, by the source's randomGet and by the corrected one |
| Engine.StormDB.Iterate | src/main/java/com/clevertap/stormdb/StormDB.java:402-479 | the result is the scan of wal.next, wal and data (those that exist), each from its end in windows of (4 MiB / recordSize) * recordSize bytes |
| Engine.ScanFileBack | src/main/java/com/clevertap/stormdb/StormDB.java:446-462 | the window loop over one file gives the scan of that file from its end |
| Engine.WalkWindow | src/main/java/com/clevertap/stormdb/StormDB.java:463-476 | the inner loop walks one window back record by record; a key not seen before goes to the consumer; a negative key throws |
| Scans.ScanFilesRecords | src/main/java/com/clevertap/stormdb/StormDB.java:402-479 | on aligned files, iterate hands the consumer the newest-first record order without repeats, and it fails exactly when that order holds a negative key |
| Scans.ScanFileRecords | src/main/java/com/clevertap/stormdb/StormDB.java:446-477 | the windowed walk over one file visits its records exactly from the last to the first, even when the head window overlaps one already read |
| Scans.WalkBackRecords | src/main/java/com/clevertap/stormdb/StormDB.java:463-476 | walking one window back visits its records from the last to the first |
| Scans.ScanFileStopsAtNegativeTail | src/main/java/com/clevertap/stormdb/StormDB.java:463-467 | a file whose last record has a negative key, such as a flushed WAL ending in a sync marker, fails at once |
| Scans.ScanFilesStopsAtNegativeTail | src/main/java/com/clevertap/stormdb/StormDB.java:445-467 | if any file ends in a negative key, iterate fails |
| Scans.ScanFilesEmptyHead | src/main/java/com/clevertap/stormdb/StormDB.java:408-412 | an empty wal.next contributes nothing to iterate |
| Scans.ScanFilesEmits | src/main/java/com/clevertap/stormdb/StormDB.java:463-471 | every record passed to the consumer has a non-negative key and a value of valueSize bytes |
| Scans.DedupFirst | src/main/java/com/clevertap/stormdb/StormDB.java:467-471 | each record handed on is the first, in visit order, that carries its key |
| Scans.DedupDistinct | src/main/java/com/clevertap/stormdb/StormDB.java:467-471 | keysRead makes the handed-on keys pairwise distinct and new |
| Scans.RecordsOfBytes | src/main/java/com/clevertap/stormdb/StormDB.java:258-259 | the bytes of records written back to back parse back into those records |
| Engine.StormDB.BuildIndex | src/main/java/com/clevertap/stormdb/StormDB.java:551-587 | the index and WAL BitSet after reading the chosen file in blocks are those of indexing its whole records in order from ordinal 0; it fails exactly when, in a WAL context, a key is negative |
| Engine.IndexBlock | src/main/java/com/clevertap/stormdb/StormDB.java:572-585 | the inner loop indexes every whole record of the block and stops with less than one record left, or when a key is negative |
| Engine.BlockEnd | src/main/java/com/clevertap/stormdb/StormDB.java:563-586 | a full block is consumed exactly; the last block stops at the file's last whole record |
| Indexing.IndexRecordsSpec | src/main/java/com/clevertap/stormdb/StormDB.java:577-584 | indexing fails exactly when, in a WAL context, a key is negative; otherwise each key maps to the ordinal of its last record and, in a WAL context, is marked |
| Indexing.Latest | src/main/java/com/clevertap/stormdb/StormDB.java:579 | the last record with a key is the one whose ordinal index.put leaves |
| Indexing.IndexBytesRecords | src/main/java/com/clevertap/stormdb/StormDB.java:563-586 | indexing bytes record by record equals indexing the records they parse into |
| Indexing.IndexBytesParsed | src/main/java/com/clevertap/stormdb/StormDB.java:563-586 | stopping at the last whole record, or at a failure, gives the index of the file's parsed records |
| Indexing.IndexRecordsAppend | src/main/java/com/clevertap/stormdb/StormDB.java:325-328 | indexing a concatenation is indexing the second part from where the first left off, unless the first failed |
| Indexing.WalOverridesData | src/main/java/com/clevertap/stormdb/StormDB.java:139-140 | indexing data never fails and keeps the WAL BitSet; the WAL pass that follows fails exactly on a negative key; otherwise it marks the WAL's keys and every key maps to its WAL ordinal when the WAL has it, else to its data ordinal |
| Indexing.BlockSize | src/main/java/com/clevertap/stormdb/StormDB.java:113 | the corrected block size is a non-zero multiple of the record size |
| Indexing.BlockSizeAgrees | src/main/java/com/clevertap/stormdb/StormDB.java:113 | for records of up to 4096 bytes the corrected block size is the one the source computes |
| Indexing.BuildIndexStallsAsWritten | src/main/java/com/clevertap/stormdb/StormDB.java:559-569 | for records over 4096 bytes the source's block size is 0, so every read in buildIndex returns 0 bytes and the loop never reaches the end of the file |
| Indexing.BlockSizeProgress | src/main/java/com/clevertap/stormdb/StormDB.java:563-569 | with the corrected block size every read before the end returns bytes, and -1 comes exactly at the end |
| Indexing.ReadLimit | src/main/java/com/clevertap/stormdb/StormDB.java:566 | a read of len bytes returns 0 for len 0, -1 at the end of the file, and otherwise between 1 and len bytes, all of them when the file has that many |
| Indexing.ParsedSyncKey | src/main/java/com/clevertap/stormdb/StormDB.java:577-581 | a WAL holding a sync record at a record boundary parses into a record with a negative key, so buildIndex(true) throws on it |
| Indexing.ParsedHolds | src/main/java/com/clevertap/stormdb/StormDB.java:563-586 | buildIndex parses the record at every record boundary that a whole record follows |
| Indexing.FlushedWalKeys | src/main/java/com/clevertap/stormdb/StormDB.java:577-581 | in a flushed WAL the sync record is off the record grid; once the WAL holds 130 records' worth of bytes, the record parsed at 129 * recordSize has key -1, so buildIndex(true) throws; a WAL of one flushed block is not a whole number of records |
| Engine.StormDB.Seal | src/main/java/com/clevertap/stormdb/StormDB.java:217-247 | flush, then stop if the WAL received no bytes; otherwise walOut moves to an empty wal.next, truncating any wal.next left on disk; bytesInWalFile is 0 and both next BitSets are empty |
| Engine.StormDB.FlushNext | src/main/java/com/clevertap/stormdb/StormDB.java:318-336 | the staged bytes are appended to data.next; their keys are indexed with ordinals from nextFileOffset and marked in dataInNextFile; it fails exactly when a staged key is negative |
| Engine.StormDB.Merge | src/main/java/com/clevertap/stormdb/StormDB.java:251-269 | data.next, the index and dataInNextFile become those of the merge: the records handed out by iterate, staged in batches and flushed; a failure of iterate leaves what earlier batches wrote |
| Engine.StormDB.Consume | src/main/java/com/clevertap/stormdb/StormDB.java:257-268 | feeding the iterate output through the staging buffer flushes whole batches and, when iterate finished, the rest |
| Engine.StormDB.FlushStaged | src/main/java/com/clevertap/stormdb/StormDB.java:262-267 | flushing one staged batch extends data.next and the index by exactly that batch |
| Merging.Handed | src/main/java/com/clevertap/stormdb/StormDB.java:262-264 | the records flushed before iterate failed are all but fewer than one batch of those handed out |
| Merging.HandedIsKept | src/main/java/com/clevertap/stormdb/StormDB.java:262-268 | that count is the largest multiple of the batch size not above the number handed out |
| Merging.Kept | src/main/java/com/clevertap/stormdb/StormDB.java:262-268 | a whole number of batches, not above the number handed out, that leaves less than one batch over |
| Merging.Batch | src/main/java/com/clevertap/stormdb/StormDB.java:255 | the staging buffer holds a non-zero number of records whose total is the iterate window |
| Merging.MergeOfHanded | src/main/java/com/clevertap/stormdb/StormDB.java:251-269 | the merge is iterate's output cut to what the staging buffer flushed, indexed from ordinal 0 |
| Merging.StagedFlush | src/main/java/com/clevertap/stormdb/StormDB.java:263-267 | flushing a batch after the earlier ones gives the bytes and the index of flushing them all at once |
| Merging.StagedIndex | src/main/java/com/clevertap/stormdb/StormDB.java:325-328 | the loop of flushNext over the staged bytes indexes exactly the staged records, and fails exactly when one has a negative key |
| Merging.MergeNeverThrowsInFlushNext | src/main/java/com/clevertap/stormdb/StormDB.java:325-328 | everything iterate hands out has a non-negative key, so flushNext never throws |
| Merging.MergeKeepsNewest | src/main/java/com/clevertap/stormdb/StormDB.java:251-269 | on aligned files the merge fails exactly when a key is negative; otherwise data.next holds the newest record of every key once, newest first; dataInNextFile gains every key; the index maps record i's key to ordinal i |
| Merging.KeepsNewest | src/main/java/com/clevertap/stormdb/StormDB.java:251-269 | a finished scan, flushed and indexed, holds the newest record of every key once, at its ordinal |
| Merging.DistinctIndexed | src/main/java/com/clevertap/stormdb/StormDB.java:325-328 | when the keys are distinct, each key maps to its own ordinal |
| Merging.DistinctLatest | src/main/java/com/clevertap/stormdb/StormDB.java:579 | among distinct keys, the last record with a key is its only one |
| Engine.StormDB.Promote | src/main/java/com/clevertap/stormdb/StormDB.java:276-299 | wal.next and data.next become wal and data; dataInWalFile becomes the next WAL BitSet; the next files and BitSets are gone |
| Engine.StormDB.MergeAndPromote | src/main/java/com/clevertap/stormdb/StormDB.java:249-299 | after sealing, the merge then the promotion: on success wal is empty and data holds the merged records; on failure the old files stay and the next files hold what was written |
| Engine.StormDB.Compact | src/main/java/com/clevertap/stormdb/StormDB.java:213-316 | with no WAL bytes after the flush, nothing else changes; otherwise a leftover wal.next is truncated and the merge runs over the sealed WAL and data, with the outcome given for success and for failure |

## Left out

- File I/O is not modelled as I/O: file contents are byte strings in fields. Operating-system failures are left out, and so are the thread-local reader cache and the file renames and deletes (their effect on which bytes are where is modelled).
- Locks, the compaction thread, `compactionLock`, `shouldCompact`, `close` and logging concern concurrency and lifecycle, and are not modelled.
- `RecordUtil.addressToIndex` and `indexToAddress` are not part of this model. They are a `Codec` parameter, and the round trip that the reads need is a stated precondition (`WalRoundTrip`, `DataOrdinals`).
- The CRC-32 function is a parameter of the write buffer; CRC-32 itself is not computed.
- WriteBuffer.java is not part of this model. The buffer follows the behaviour its test checks and the sizes its test expects. That flush pads with copies of the last record is inferred from the test's counts (127 more non-reserved `add` calls and one sync marker).
- Ordinals and `bytesInWalFile` are unbounded integers; the overflow of `int` ordinals past 2^31 records is not modelled.
- Reads are modelled as returning everything available up to the buffer's length. A short read from `BufferedInputStream` or `RandomAccessFile` before the end of the file is not modelled.
- Engine.StormDB.Merge: the consumer's calls are taken from the finished iterate result rather than interleaved with the scan; the bytes, index and BitSet it leaves are the same.
- The staging `ByteBuffer` of compaction is modelled as the list of staged records, not as a byte array.
- Engine.StormDB.Put: requires `value` to hold `valueSize` bytes from `valueOffset`; the source then throws from inside WriteBuffer.add, which is not part of this model.
- A negative `valueSize` is excluded by the type `nat`.
- Open (`Engine.Open`): a wal.next left on disk is carried as `leftoverWalNext` but never read. When data.next is there too, recovery's seal truncates it and the writes it held are lost; the model states that loss and does not model keeping those writes.
- Engine.StormDB.BuildIndex: the block size is the corrected one. For records over 4096 bytes the source's block size is 0 and buildIndex never finishes (the StormDB.java:113 Finding), so the row above holds only for records of up to 4096 bytes as written.
- Only the first four bytes of `meta` are read, as `getInt` does; longer meta files are accepted as the source accepts them.
- `mkdirs` and `dbDir` paths are not modelled.
- The copy of the write buffer that `iterate` takes (`inMemoryKeyValues`) is never read by the source and is not modelled.
- The overloads of `put` that add defaults or decode a byte-array key (StormDB.java:338-349), and the public `iterate(consumer)`, are thin wrappers and are not modelled separately.

## Findings

| source | as written | input that shows it | evidently intended | confidence | as-written member | corrected member |
|---|---|---|---|---|---|---|
| src/main/java/com/clevertap/stormdb/StormDB.java:498 | the write-buffer path of randomGet copies valueSize bytes starting at the record's first byte, which is its key | put key 0 with value [1,2,3,4] (value size 4) and read it before a flush: the result is [0,0,0,0] | copy from 4 bytes further on, as the file path does after readInt | not executed | Engine.BufferReadAsWrittenCounterexample | Engine.BufferReadRecord |
| src/main/java/com/clevertap/stormdb/StormDB.java:113 | blockSize = (4096 / recordSize) * recordSize is 0 when a record is over 4096 bytes, so buildIndex's read returns 0 forever | reopen any database with value size 8192: its WAL file exists, and buildIndex(true) reads 0 bytes from it forever | a block of at least one record | not executed | Indexing.BuildIndexStallsAsWritten | Indexing.BlockSizeProgress |
