/** buildIndex's forward walk and the index updates it shares with
    flushNext: every record puts (key, ordinal) into the index and, in a WAL
    context, marks its key in a BitSet; the ordinal counts the records of one
    file from 0. A reference states which ordinal a key ends up with (that of
    its last record) and the lemmas connect the two. */
module Indexing {
  import opened Common
  import opened WriteBuffers
  import opened Scans

  /** What TIntIntHashMap.get returns for a key without a mapping. */
  const NO_MAPPING_FOUND: int := -1

  /** `index.get(key)`. */
  function Get(index: map<int32, int>, key: int32): int
  {
    if key in index then index[key] else NO_MAPPING_FOUND
  }

  // ---------------------------------------------------------------------
  // The walk

  /** The index, the BitSet being marked, the next ordinal, and the exception
      that stopped the walk, if any. */
  datatype Built = Built(index: map<int32, int>, bits: set<int32>, next: int, failed: Option<Error>)

  /** One record: index.put(key, ordinal); when `mark`, BitSet.set(key), which
      throws for a negative key once the index has changed; then ordinal++. */
  function IndexStep(b: Built, key: int32, mark: bool): Built
  {
    var index := b.index[key := b.next];
    if mark && key < 0 then Built(index, b.bits, b.next, Some(NegativeBitIndex))
    else Built(index, if mark then b.bits + {key} else b.bits, b.next + 1, None)
  }

  /** The records in file order, one IndexStep each, stopping at an exception. */
  function IndexRecords(recs: seq<Record>, start: Built, mark: bool): Built
    decreases |recs|
  {
    if recs == [] then start
    else
      var b := IndexRecords(recs[..|recs| - 1], start, mark);
      if b.failed.Some? then b else IndexStep(b, recs[|recs| - 1].key, mark)
  }

  /** The same walk over the records of `f` below byte `hi`, read straight
      from the bytes as buildIndex's loops read them: only the key of each
      record is read. */
  function IndexBytes(f: Bytes, hi: nat, recordSize: nat, start: Built, mark: bool): Built
    requires KEY_SIZE <= recordSize && hi <= |f|
    decreases hi
  {
    if hi < recordSize then start
    else
      var b := IndexBytes(f, hi - recordSize, recordSize, start, mark);
      if b.failed.Some? then b else IndexStep(b, GetInt(f[hi - recordSize..hi - recordSize + KEY_SIZE]), mark)
  }

  // ---------------------------------------------------------------------
  // The reference

  /** The position of the last record with key `k`. */
  function Latest(recs: seq<Record>, k: int32): (r: Option<nat>)
    ensures r.None? <==> k !in Keys(recs)
    ensures r.Some? ==> r.value < |recs| && recs[r.value].key == k
    ensures r.Some? ==> forall j :: r.value < j < |recs| ==> recs[j].key != k
    decreases |recs|
  {
    if recs == [] then None
    else if recs[|recs| - 1].key == k then Some(|recs| - 1)
    else
      var r := Latest(recs[..|recs| - 1], k);
      assert Keys(recs) == Keys(recs[..|recs| - 1]) + {recs[|recs| - 1].key} by {
        KeysSnoc(recs);
      }
      r
  }

  /** What `index.get(k)` returns once `recs` have been indexed from ordinal
      `next` on top of `index`: the ordinal of k's last record, or what the
      index held before when no record has key k. */
  function Placed(recs: seq<Record>, k: int32, index: map<int32, int>, next: int): int
  {
    match Latest(recs, k)
    case Some(i) => next + i
    case None => Get(index, k)
  }

  /** A walk that went through all of `recs` without an exception. */
  ghost predicate Indexed(b: Built, start: Built, recs: seq<Record>, mark: bool)
  {
    && b.failed.None?
    && b.next == start.next + |recs|
    && b.bits == (if mark then start.bits + Keys(recs) else start.bits)
    && forall k :: Get(b.index, k) == Placed(recs, k, start.index, start.next)
  }

  /** The walk fails exactly when it marks and meets a negative key; when it
      does not fail, every key maps to the ordinal of its last record, only
      a marking walk marks, and keys without a record keep their mapping. */
  lemma {:induction false} IndexRecordsSpec(recs: seq<Record>, start: Built, mark: bool)
    requires start.failed.None?
    ensures var b := IndexRecords(recs, start, mark);
      && (b.failed.None? <==> !mark || NonNegative(recs))
      && (b.failed.Some? ==> b.failed == Some(NegativeBitIndex))
      && (b.failed.None? ==> Indexed(b, start, recs, mark))
    decreases |recs|
  {
    if recs == [] {
      assert Keys(recs) == {};
      forall k ensures Get(start.index, k) == Placed(recs, k, start.index, start.next) {
        assert Latest(recs, k).None?;
      }
    } else {
      var init, last := recs[..|recs| - 1], recs[|recs| - 1];
      IndexRecordsSpec(init, start, mark);
      assert recs == init + [last];
      NonNegativeAppend(init, [last]);
      var b := IndexRecords(init, start, mark);
      if b.failed.None? {
        IndexedStep(b, start, init, last, mark);
      }
    }
  }

  /** One more record keeps a walk Indexed, unless it fails. */
  lemma IndexedStep(b: Built, start: Built, init: seq<Record>, last: Record, mark: bool)
    requires Indexed(b, start, init, mark)
    ensures var b' := IndexStep(b, last.key, mark);
      && (b'.failed.None? <==> !mark || last.key >= 0)
      && (b'.failed.Some? ==> b'.failed == Some(NegativeBitIndex))
      && (b'.failed.None? ==> Indexed(b', start, init + [last], mark))
  {
    var recs := init + [last];
    assert recs[..|recs| - 1] == init;
    KeysSnoc(recs);
    var b' := IndexStep(b, last.key, mark);
    assert b'.index == b.index[last.key := b.next];
    if b'.failed.None? {
      forall k ensures Get(b'.index, k) == Placed(recs, k, start.index, start.next) {
        if k != last.key {
          assert Latest(recs, k) == Latest(init, k);
          assert Get(b'.index, k) == Get(b.index, k);
        } else {
          assert Latest(recs, k) == Some(|init|);
        }
      }
    }
  }

  /** Indexing two runs of records is indexing the first, then the second
      from where the first stopped, unless the first threw. */
  lemma {:induction false} IndexRecordsAppend(a: seq<Record>, b: seq<Record>, start: Built, mark: bool)
    ensures IndexRecords(a + b, start, mark)
      == if IndexRecords(a, start, mark).failed.Some? then IndexRecords(a, start, mark)
         else IndexRecords(b, IndexRecords(a, start, mark), mark)
    decreases |b|
  {
    if b == [] {
      assert a + b == a;
    } else {
      var init := b[..|b| - 1];
      IndexRecordsAppend(a, init, start, mark);
      assert (a + b)[..|a + b| - 1] == a + init;
      assert (a + b)[|a + b| - 1] == b[|b| - 1];
    }
  }

  /** One more record at the end of a run. */
  lemma IndexRecordsSnoc(recs: seq<Record>, rec: Record, start: Built, mark: bool)
    ensures IndexRecords(recs + [rec], start, mark)
      == if IndexRecords(recs, start, mark).failed.Some? then IndexRecords(recs, start, mark)
         else IndexStep(IndexRecords(recs, start, mark), rec.key, mark)
  {
    assert (recs + [rec])[..|recs|] == recs;
  }

  /** Walking the bytes is walking the records they hold. */
  lemma {:induction false} IndexBytesRecords(f: Bytes, hi: nat, recordSize: nat, start: Built, mark: bool)
    requires KEY_SIZE <= recordSize && hi <= |f|
    ensures IndexBytes(f, hi, recordSize, start, mark) == IndexRecords(RecordsIn(f, 0, hi, recordSize), start, mark)
    decreases hi
  {
    if hi >= recordSize {
      IndexBytesRecords(f, hi - recordSize, recordSize, start, mark);
      RecordsInUnfold(f, 0, hi, recordSize);
      IndexRecordsSnoc(RecordsIn(f, 0, hi - recordSize, recordSize), RecordAt(f, hi - recordSize, recordSize), start, mark);
    }
  }

  /** The walk of no bytes is where it starts. */
  lemma IndexBytesNone(f: Bytes, recordSize: nat, start: Built, mark: bool)
    requires KEY_SIZE <= recordSize
    ensures IndexBytes(f, 0, recordSize, start, mark) == start
  {
  }

  /** A walk that throws below `mid` throws, unchanged, for every whole
      number of records more. */
  lemma {:induction false} IndexBytesStops(f: Bytes, mid: nat, hi: nat, recordSize: nat, start: Built, mark: bool)
    requires KEY_SIZE <= recordSize && mid <= hi <= |f| && Multiple(hi - mid, recordSize)
    requires IndexBytes(f, mid, recordSize, start, mark).failed.Some?
    ensures IndexBytes(f, hi, recordSize, start, mark) == IndexBytes(f, mid, recordSize, start, mark)
    decreases hi
  {
    if hi > mid {
      MultipleStep(hi - mid, recordSize);
      IndexBytesStops(f, mid, hi - recordSize, recordSize, start, mark);
    }
  }

  /** Where buildIndex's walk ends over `f`: at the last whole record, or at
      a whole number of records where it threw; either way it is the walk
      of the records buildIndex parses. */
  lemma IndexBytesParsed(f: Bytes, at: nat, recordSize: nat, start: Built, mark: bool)
    requires KEY_SIZE <= recordSize && at <= |f| && Multiple(at, recordSize)
    requires at == AlignDown(|f|, recordSize) || IndexBytes(f, at, recordSize, start, mark).failed.Some?
    ensures IndexRecords(Parsed(f, recordSize), start, mark) == IndexBytes(f, at, recordSize, start, mark)
  {
    var hi := AlignDown(|f|, recordSize);
    AlignDownAbove(|f|, at, recordSize);
    AlignDownFacts(|f|, recordSize);
    MultipleSub(hi, at, recordSize);
    if at != hi {
      IndexBytesStops(f, at, hi, recordSize, start, mark);
    }
    IndexBytesRecords(f, hi, recordSize, start, mark);
  }

  lemma KeysSnoc(recs: seq<Record>)
    requires recs != []
    ensures Keys(recs) == Keys(recs[..|recs| - 1]) + {recs[|recs| - 1].key}
  {
    assert recs == recs[..|recs| - 1] + [recs[|recs| - 1]];
    KeysAppend(recs[..|recs| - 1], [recs[|recs| - 1]]);
    assert Keys([recs[|recs| - 1]]) == {recs[|recs| - 1].key};
  }

  /** The constructor indexes the data file and then the WAL, each from
      ordinal 0: a key with a record in the WAL maps to its last WAL ordinal,
      any other key to its last data ordinal, and only the WAL's keys are
      marked as being in the WAL. */
  lemma WalOverridesData(dataRecs: seq<Record>, walRecs: seq<Record>, index: map<int32, int>, walBits: set<int32>)
    ensures var d := IndexRecords(dataRecs, Built(index, walBits, 0, None), false);
      d.failed.None? && d.bits == walBits
    ensures var d := IndexRecords(dataRecs, Built(index, walBits, 0, None), false);
      var w := IndexRecords(walRecs, Built(d.index, d.bits, 0, None), true);
      && (w.failed.None? <==> NonNegative(walRecs))
      && (w.failed.None? ==> w.bits == walBits + Keys(walRecs))
      && (w.failed.None? ==> forall k :: Get(w.index, k) == WalThenData(walRecs, dataRecs, k, index))
  {
    var d := IndexRecords(dataRecs, Built(index, walBits, 0, None), false);
    IndexRecordsSpec(dataRecs, Built(index, walBits, 0, None), false);
    var w := IndexRecords(walRecs, Built(d.index, d.bits, 0, None), true);
    IndexRecordsSpec(walRecs, Built(d.index, d.bits, 0, None), true);
  }

  /** The ordinal a key gets from its last WAL record, else from its last
      data record, else what the index held. */
  function WalThenData(walRecs: seq<Record>, dataRecs: seq<Record>, k: int32, index: map<int32, int>): int
  {
    match Latest(walRecs, k)
    case Some(i) => i
    case None => Placed(dataRecs, k, index, 0)
  }

  // ---------------------------------------------------------------------
  // Reading the file in blocks

  /** The block buildIndex reads at a time, as written: the largest multiple
      of the record size within 4096 bytes, which is none at all once a
      record is longer than 4096 bytes. */
  function BlockSizeAsWritten(recordSize: nat): nat
    requires recordSize > 0
  {
    (4096 / recordSize) * recordSize
  }

  /** The block size with at least one record in it; the model reads with it. */
  function BlockSize(recordSize: nat): (n: nat)
    requires recordSize > 0
    ensures n >= recordSize && Multiple(n, recordSize)
  {
    MultipleOfProduct(Max(1, 4096 / recordSize), recordSize);
    MulAtLeast(Max(1, 4096 / recordSize), recordSize);
    Max(1, 4096 / recordSize) * recordSize
  }

  /** The two agree for every record of at most 4096 bytes. */
  lemma BlockSizeAgrees(recordSize: nat)
    requires 0 < recordSize <= 4096
    ensures BlockSize(recordSize) == BlockSizeAsWritten(recordSize)
  {
    assert 4096 / recordSize >= 1;
  }

  /** What `in.read(buf.array())` returns for a buffer of `len` bytes once
      `pos` bytes of `f` have been read: a zero-length buffer reads nothing,
      even at the end of the file; otherwise -1 at the end, else as many
      bytes as fit (the buffered stream fills the array while the file has
      bytes left). */
  function ReadLimit(f: Bytes, pos: nat, len: nat): (n: int)
    requires pos <= |f|
    ensures len == 0 ==> n == 0
    ensures len > 0 && pos == |f| ==> n == -1
    ensures len > 0 && pos < |f| ==> 0 < n <= len && pos + n <= |f|
    ensures len > 0 && pos < |f| ==> (n == len || pos + n == |f|)
  {
    if len == 0 then 0 else if pos == |f| then -1 else Min(len, |f| - pos)
  }

  /** As written, a record longer than 4096 bytes gives buildIndex an empty
      block: every read returns 0, so `limit == -1` never holds, no record is
      parsed and the file position never moves; the loop does not end. */
  lemma BuildIndexStallsAsWritten(f: Bytes, pos: nat, recordSize: nat)
    requires recordSize > 4096 && pos <= |f|
    ensures BlockSizeAsWritten(recordSize) == 0
    ensures ReadLimit(f, pos, BlockSizeAsWritten(recordSize)) == 0
  {
  }

  /** With at least one record per block every read that is not at the end of
      the file moves the position forward, and only the end returns -1. */
  lemma BlockSizeProgress(f: Bytes, pos: nat, recordSize: nat)
    requires recordSize > 0 && pos <= |f|
    ensures pos < |f| ==> ReadLimit(f, pos, BlockSize(recordSize)) > 0
    ensures ReadLimit(f, pos, BlockSize(recordSize)) == -1 <==> pos == |f|
  {
  }

  /** The end of the last whole record of a file of `n` bytes. */
  function AlignDown(n: nat, recordSize: nat): nat
    requires recordSize > 0
  {
    n - n % recordSize
  }

  /** The records buildIndex parses from `f`: one every recordSize bytes from
      the start, a trailing partial record dropped. */
  function Parsed(f: Bytes, recordSize: nat): seq<Record>
    requires KEY_SIZE <= recordSize
  {
    RecordsIn(f, 0, AlignDown(|f|, recordSize), recordSize)
  }

  /** A whole number of records that leaves less than a record of `n` is AlignDown(n). */
  lemma AlignDownUnique(n: nat, x: nat, recordSize: nat)
    requires x <= n && Multiple(x, recordSize) && n - x < recordSize
    ensures x == AlignDown(n, recordSize)
  {
    DivModUnique(x, recordSize, x / recordSize, 0);
    DivModUnique(n, recordSize, x / recordSize, n - x);
  }

  /** A WAL in which a sync record sits at a record boundary: its key -1 is
      among the records buildIndex parses, so marking it in the WAL BitSet
      throws. */
  lemma ParsedSyncKey(f: Bytes, at: nat, valueSize: nat)
    requires at + valueSize + KEY_SIZE <= |f| && Multiple(at, valueSize + KEY_SIZE)
    requires f[at..at + valueSize + KEY_SIZE] == RecordBytes(SyncRecord(valueSize))
    ensures !NonNegative(Parsed(f, valueSize + KEY_SIZE))
  {
    RecordAtSync(f, at, valueSize);
    ParsedHolds(f, at, valueSize + KEY_SIZE);
  }

  /** buildIndex parses the record at every record boundary that a whole
      record follows. */
  lemma ParsedHolds(f: Bytes, at: nat, rs: nat)
    requires KEY_SIZE <= rs && at + rs <= |f| && Multiple(at, rs)
    ensures RecordAt(f, at, rs) in Parsed(f, rs)
  {
    var hi := AlignDown(|f|, rs);
    assert at + rs <= hi by {
      MultipleBase(rs);
      MultipleAdd(at, rs, rs);
      AlignDownAbove(|f|, at + rs, rs);
    }
    assert Multiple(hi - at, rs) by {
      AlignDownFacts(|f|, rs);
      MultipleSub(hi, at, rs);
    }
    var r := RecordAt(f, at, rs);
    RecordsInHead(f, at, hi, rs);
    assert r in RecordsIn(f, at, hi, rs);
    assert Parsed(f, rs) == RecordsIn(f, 0, at, rs) + RecordsIn(f, at, hi, rs) by {
      RecordsInSplit(f, 0, at, hi, rs);
    }
  }

  /** Where buildIndex meets the first sync record of a WAL written by a
      flush. The CRC ahead of it puts the sync record at byte 128 * rs + 4,
      off the record grid, and the record parsed at 128 * rs takes the CRC
      as its key. The record parsed at 129 * rs takes its key from the sync
      record's last four bytes, all 0xFF: once the WAL reaches 130 * rs bytes
      it parses into key -1, and buildIndex(true) throws. A WAL of a single
      flushed block is not a whole number of records. */
  lemma FlushedWalKeys(f: Bytes, valueSize: nat)
    requires var rs := valueSize + KEY_SIZE;
      var at := RECORDS_PER_BLOCK * rs + CRC_SIZE;
      at + rs <= |f| && f[at..at + rs] == RecordBytes(SyncRecord(valueSize))
    ensures var rs := valueSize + KEY_SIZE;
      (RECORDS_PER_BLOCK + 2) * rs <= |f| ==>
        RecordAt(f, (RECORDS_PER_BLOCK + 1) * rs, rs).key == RESERVED_KEY_MARKER && !NonNegative(Parsed(f, rs))
    ensures var rs := valueSize + KEY_SIZE;
      |f| == (RECORDS_PER_BLOCK + 1) * rs + CRC_SIZE && valueSize > 0 ==> !Multiple(|f|, rs)
  {
    var rs := valueSize + KEY_SIZE;
    if (RECORDS_PER_BLOCK + 2) * rs <= |f| {
      var s := RECORDS_PER_BLOCK * rs + CRC_SIZE;
      var at := (RECORDS_PER_BLOCK + 1) * rs;
      assert at == s + valueSize;
      assert f[at..at + KEY_SIZE] == f[s..s + rs][valueSize..valueSize + KEY_SIZE];
      SyncAllOnes(valueSize);
      MultipleOfProduct(RECORDS_PER_BLOCK + 1, rs);
      ParsedHolds(f, at, rs);
    }
    if |f| == (RECORDS_PER_BLOCK + 1) * rs + CRC_SIZE && valueSize > 0 {
      DivModUnique(|f|, rs, RECORDS_PER_BLOCK + 1, CRC_SIZE);
    }
  }

  /** Every byte of a sync record is 0xFF, the key -1 included, so any four
      of them read as -1. */
  lemma SyncAllOnes(valueSize: nat)
    ensures var sync := RecordBytes(SyncRecord(valueSize));
      sync[valueSize..valueSize + KEY_SIZE] == [0xFF, 0xFF, 0xFF, 0xFF]
      && GetInt([0xFF, 0xFF, 0xFF, 0xFF]) == RESERVED_KEY_MARKER
  {
    var sync := RecordBytes(SyncRecord(valueSize));
    assert RESERVED_KEY_MARKER as int % 0x1_0000_0000 == 0xFFFF_FFFF;
    assert sync == [0xFF, 0xFF, 0xFF, 0xFF] + seq(valueSize, _ => 0xFF);
    assert forall j :: 0 <= j < |sync| ==> sync[j] == 0xFF;
  }

  /** The record read where a sync record was written has the reserved key. */
  lemma RecordAtSync(f: Bytes, at: nat, valueSize: nat)
    requires at + valueSize + KEY_SIZE <= |f|
    requires f[at..at + valueSize + KEY_SIZE] == RecordBytes(SyncRecord(valueSize))
    ensures RecordAt(f, at, valueSize + KEY_SIZE).key == RESERVED_KEY_MARKER
  {
    var rs := valueSize + KEY_SIZE;
    SyncRecordLayout(valueSize);
    assert f[at..at + KEY_SIZE] == f[at..at + rs][..KEY_SIZE];
    GetIntPrefix(f[at..at + KEY_SIZE], RecordBytes(SyncRecord(valueSize)));
  }

  lemma AlignDownFacts(n: nat, recordSize: nat)
    requires recordSize > 0
    ensures AlignDown(n, recordSize) <= n && Multiple(AlignDown(n, recordSize), recordSize)
    ensures n - AlignDown(n, recordSize) < recordSize
  {
    var q := n / recordSize;
    assert AlignDown(n, recordSize) == q * recordSize;
    MultipleOfProduct(q, recordSize);
  }

  /** Every whole number of records up to n is at most AlignDown(n). */
  lemma AlignDownAbove(n: nat, x: nat, recordSize: nat)
    requires x <= n && Multiple(x, recordSize)
    ensures x <= AlignDown(n, recordSize)
  {
    AlignDownFacts(n, recordSize);
    if x > AlignDown(n, recordSize) {
      MultipleGap(AlignDown(n, recordSize), x, recordSize);
    }
  }

  /** The first record of a whole number of records from `lo`. */
  lemma {:induction false} RecordsInHead(b: Bytes, lo: nat, hi: nat, recordSize: nat)
    requires KEY_SIZE <= recordSize && lo + recordSize <= hi <= |b| && Multiple(hi - lo, recordSize)
    ensures RecordsIn(b, lo, hi, recordSize) != [] && RecordsIn(b, lo, hi, recordSize)[0] == RecordAt(b, lo, recordSize)
  {
    MultipleBase(recordSize);
    MultipleStep(hi - lo, recordSize);
    assert hi - (lo + recordSize) == hi - lo - recordSize;
    RecordsInSplit(b, lo, lo + recordSize, hi, recordSize);
    RecordsInUnfold(b, lo, lo + recordSize, recordSize);
    var head := RecordsIn(b, lo, lo + recordSize, recordSize);
    assert RecordsIn(b, lo, lo, recordSize) == [];
    assert head == [RecordAt(b, lo, recordSize)];
    assert (head + RecordsIn(b, lo + recordSize, hi, recordSize))[0] == head[0];
  }
}
