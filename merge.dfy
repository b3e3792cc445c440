/** Step 2 of compact, as a reference: iterate over wal.next, wal and data
    feeds a staging buffer of about 4 MiB; every full buffer is appended to
    data.next by flushNext, which puts each of its keys into the index with
    the next ordinal of data.next and marks the key in dataInNextFile. When
    iterate throws, the records staged since the last full buffer are lost. */
module Merging {
  import opened Common
  import opened WriteBuffers
  import opened Scans
  import opened Indexing

  /** How many records the staging buffer holds: (FOUR_MB / recordSize) * recordSize bytes. */
  function Batch(recordSize: nat): (n: nat)
    requires 0 < recordSize <= FOUR_MB
    ensures n >= 1 && n * recordSize == IterateWindow(recordSize)
  {
    FOUR_MB / recordSize
  }

  /** The scan, the records that reached data.next, and what flushNext made
      of the index and of dataInNextFile. */
  datatype Merged = Merged(scan: Scan, kept: seq<Record>, built: Built)

  /** What step 2 of compact computes from the files iterate reads, starting
      from the index and an empty dataInNextFile. */
  function MergeOf(files: seq<Bytes>, valueSize: nat, index: map<int32, int>, bits: set<int32>): Merged
    requires valueSize <= MAX_VALUE_SIZE
  {
    var rs := valueSize + KEY_SIZE;
    IterateWindowWhole(rs);
    var s := ScanFiles(files, IterateWindow(rs), rs, [], {});
    var n := if s.failed.Some? then Kept(|s.out|, Batch(rs)) else |s.out|;
    Merged(s, s.out[..n], IndexRecords(s.out[..n], Built(index, bits, 0, None), true))
  }

  /** The records of whole staging buffers among the first n. */
  function Kept(n: nat, batch: nat): (k: nat)
    requires batch > 0
    ensures k <= n && k % batch == 0 && n - k < batch
  {
    MultipleOfProduct(n / batch, batch);
    assert n == (n / batch) * batch + n % batch;
    (n / batch) * batch
  }

  /** The whole buffers among `done + rest` records, given whole buffers in `done`. */
  lemma KeptUnique(n: nat, done: nat, batch: nat)
    requires batch > 0 && done <= n && done % batch == 0 && n - done < batch
    ensures Kept(n, batch) == done
  {
    DivModUnique(done, batch, done / batch, 0);
    DivModUnique(n, batch, done / batch, n - done);
  }

  /** Every record flushNext sees has a key BitSet accepts, so it never throws. */
  lemma MergeNeverThrowsInFlushNext(files: seq<Bytes>, valueSize: nat, index: map<int32, int>, bits: set<int32>)
    requires valueSize <= MAX_VALUE_SIZE
    ensures Emitted(MergeOf(files, valueSize, index, bits).kept, valueSize)
    ensures Indexed(MergeOf(files, valueSize, index, bits).built, Built(index, bits, 0, None),
                    MergeOf(files, valueSize, index, bits).kept, true)
  {
    var rs := valueSize + KEY_SIZE;
    IterateWindowWhole(rs);
    var m := MergeOf(files, valueSize, index, bits);
    ScanFilesEmits(files, IterateWindow(rs), valueSize, [], {});
    assert m.kept == m.scan.out[..|m.kept|];
    EmittedPrefix(m.scan.out, |m.kept|, valueSize);
    IndexRecordsSpec(m.kept, Built(index, bits, 0, None), true);
  }

  lemma EmittedPrefix(recs: seq<Record>, n: nat, valueSize: nat)
    requires n <= |recs| && Emitted(recs, valueSize)
    ensures Emitted(recs[..n], valueSize)
  {
    assert forall r :: r in recs[..n] ==> r in recs;
  }

  /** When every file is whole records, compaction keeps exactly the newest
      record of every key (the first iterate meets), each once; data.next
      then reads back as those records, and the index maps every kept key to
      its ordinal in data.next. It fails exactly when some record has a key
      BitSet refuses. */
  lemma MergeKeepsNewest(files: seq<Bytes>, valueSize: nat, index: map<int32, int>, bits: set<int32>)
    requires valueSize <= MAX_VALUE_SIZE && Aligned(files, valueSize + KEY_SIZE)
    ensures var m := MergeOf(files, valueSize, index, bits);
      && (m.scan.failed.None? <==> NonNegative(Visit(files, valueSize + KEY_SIZE)))
      && (m.scan.failed.Some? ==> m.scan.failed == Some(NegativeBitIndex))
    ensures var m := MergeOf(files, valueSize, index, bits);
      m.scan.failed.None? ==>
        && m.kept == Dedup(Visit(files, valueSize + KEY_SIZE), {})
        && Records(RecordsBytes(m.kept), valueSize + KEY_SIZE) == m.kept
        && m.built.bits == bits + Keys(Visit(files, valueSize + KEY_SIZE))
        && (forall i :: 0 <= i < |m.kept| ==> Get(m.built.index, m.kept[i].key) == i)
  {
    var rs := valueSize + KEY_SIZE;
    IterateWindowWhole(rs);
    var m := MergeOf(files, valueSize, index, bits);
    ScanFilesRecords(files, IterateWindow(rs), rs, [], {});
    MergeNeverThrowsInFlushNext(files, valueSize, index, bits);
    if m.scan.failed.None? {
      KeepsNewest(m, Visit(files, rs), valueSize, Built(index, bits, 0, None));
    }
  }

  /** The success case of MergeKeepsNewest, for the scan of records `visit`. */
  lemma KeepsNewest(m: Merged, visit: seq<Record>, valueSize: nat, start: Built)
    requires m.scan.failed.None? && Scanned(m.scan, [], {}, visit) && m.kept == m.scan.out
    requires Emitted(m.kept, valueSize) && Indexed(m.built, start, m.kept, true)
    ensures && m.kept == Dedup(visit, {})
            && Records(RecordsBytes(m.kept), valueSize + KEY_SIZE) == m.kept
            && m.built.bits == start.bits + Keys(visit)
            && (forall i :: 0 <= i < |m.kept| ==> Get(m.built.index, m.kept[i].key) == start.next + i)
  {
    assert [] + Dedup(visit, {}) == Dedup(visit, {});
    RecordsOfBytes(m.kept, valueSize);
    DedupKeys(visit, {});
    DedupDistinct(visit, {});
    DistinctIndexed(m.kept, m.built, start, true);
  }

  /** A walk over records with distinct keys maps each key to the ordinal of
      its record. */
  lemma DistinctIndexed(recs: seq<Record>, b: Built, start: Built, mark: bool)
    requires Indexed(b, start, recs, mark)
    requires forall a, c :: 0 <= a < c < |recs| ==> recs[a].key != recs[c].key
    ensures forall i :: 0 <= i < |recs| ==> Get(b.index, recs[i].key) == start.next + i
  {
    forall i | 0 <= i < |recs| ensures Get(b.index, recs[i].key) == start.next + i {
      DistinctLatest(recs, i);
    }
  }

  /** Reopening after a recovery: buildIndex over the data file compaction
      wrote, from any index and an empty BitSet, maps every kept key to its
      ordinal in data again and marks nothing. */
  lemma ReindexKept(kept: seq<Record>, valueSize: nat, index: map<int32, int>)
    requires Sized(kept, valueSize)
    requires forall a, c :: 0 <= a < c < |kept| ==> kept[a].key != kept[c].key
    ensures var d := IndexRecords(Parsed(RecordsBytes(kept), valueSize + KEY_SIZE), Built(index, {}, 0, None), false);
      && d.failed.None? && d.bits == {}
      && forall i :: 0 <= i < |kept| ==> Get(d.index, kept[i].key) == i
  {
    var rs := valueSize + KEY_SIZE;
    RecordsOfBytes(kept, valueSize);
    AlignDownFacts(|RecordsBytes(kept)|, rs);
    assert Parsed(RecordsBytes(kept), rs) == kept;
    var start := Built(index, {}, 0, None);
    IndexRecordsSpec(kept, start, false);
    DistinctIndexed(kept, IndexRecords(kept, start, false), start, false);
  }

  /** Reopening a database whose compaction was interrupted: when the files
      recovery compacts are whole records and the compaction goes through,
      data holds the newest record of every key, and the index buildIndex
      rebuilds from it maps every such key to that record's ordinal. */
  lemma RecoveryKeepsNewest(files: seq<Bytes>, valueSize: nat)
    requires valueSize <= MAX_VALUE_SIZE && Aligned(files, valueSize + KEY_SIZE)
    ensures var m := MergeOf(files, valueSize, map[], {});
      m.scan.failed.None? ==>
        var d := IndexRecords(Parsed(RecordsBytes(m.kept), valueSize + KEY_SIZE), Built(m.built.index, {}, 0, None), false);
        && m.kept == Dedup(Visit(files, valueSize + KEY_SIZE), {})
        && d.failed.None? && d.bits == {}
        && forall i :: 0 <= i < |m.kept| ==> Get(d.index, m.kept[i].key) == i
  {
    var m := MergeOf(files, valueSize, map[], {});
    MergeKeepsNewest(files, valueSize, map[], {});
    MergeNeverThrowsInFlushNext(files, valueSize, map[], {});
    if m.scan.failed.None? {
      DedupDistinct(Visit(files, valueSize + KEY_SIZE), {});
      ReindexKept(m.kept, valueSize, m.built.index);
    }
  }

  // ---------------------------------------------------------------------
  // The staging buffer of step 2

  /** How many of the first n records iterate hands over have reached
      data.next: the consumer hands the staging buffer to flushNext each
      time it holds `batch` records. */
  function Handed(n: nat, batch: nat): (k: nat)
    requires batch > 0
    ensures k <= n && n - k < batch
  {
    if n == 0 then 0
    else
      var p := Handed(n - 1, batch);
      if n - p == batch then n else p
  }

  /** What reaches data.next is the whole buffers among the records. */
  lemma {:induction false} HandedIsKept(n: nat, batch: nat)
    requires batch > 0
    ensures Handed(n, batch) == Kept(n, batch)
  {
    MultipleBase(batch);
    if n > 0 {
      var p := Handed(n - 1, batch);
      HandedIsKept(n - 1, batch);
      if n - p == batch {
        MultipleAdd(p, batch, batch);
        KeptUnique(n, n, batch);
      } else {
        KeptUnique(n, p, batch);
      }
    } else {
      KeptUnique(0, 0, batch);
    }
  }

  /** Step 2 in the terms of its consumer: what reaches data.next is every
      record iterate handed over when it returned normally, and otherwise
      the records `batch` at a time flushNext took before iterate threw. */
  lemma MergeOfHanded(files: seq<Bytes>, valueSize: nat, index: map<int32, int>, bits: set<int32>, s: Scan)
    requires valueSize <= MAX_VALUE_SIZE
    requires s == ScanFiles(files, IterateWindow(valueSize + KEY_SIZE), valueSize + KEY_SIZE, [], {})
    ensures Emitted(s.out, valueSize)
    ensures var n := if s.failed.Some? then Handed(|s.out|, Batch(valueSize + KEY_SIZE)) else |s.out|;
      MergeOf(files, valueSize, index, bits) == Merged(s, s.out[..n], IndexRecords(s.out[..n], Built(index, bits, 0, None), true))
  {
    IterateWindowWhole(valueSize + KEY_SIZE);
    ScanFilesEmits(files, IterateWindow(valueSize + KEY_SIZE), valueSize, [], {});
    HandedIsKept(|s.out|, Batch(valueSize + KEY_SIZE));
  }

  /** The records out[k..i] staged after the walk of out[..k]: their walk
      from there is the walk of out[..i], and their bytes follow those of
      out[..k]. */
  lemma StagedFlush(out: seq<Record>, k: nat, i: nat, valueSize: nat, start: Built)
    requires k <= i <= |out| && Emitted(out, valueSize)
    ensures Sized(out[k..i], valueSize) && NonNegative(out[k..i])
    ensures IndexRecords(out[..k], start, true).failed.None? ==>
      IndexRecords(out[k..i], IndexRecords(out[..k], start, true), true) == IndexRecords(out[..i], start, true)
    ensures RecordsBytes(out[..i]) == RecordsBytes(out[..k]) + RecordsBytes(out[k..i])
  {
    SizedSlice(out, valueSize, k, i);
    assert forall r :: r in out[k..i] ==> r in out;
    IndexRecordsAppend(out[..k], out[k..i], start, true);
    FlushedRecords(out, k, i);
    assert out[..k] + out[k..i] == out[..i];
  }

  /** flushNext's walk over the staged bytes of `recs`, ended where its
      loop stops (at a throw or past the last whole record), is the walk of
      `recs`; it throws exactly when some record has a negative key. */
  lemma StagedIndex(recs: seq<Record>, valueSize: nat, q: nat, start: Built, b: Built)
    requires Sized(recs, valueSize) && start.failed.None?
    requires q <= |RecordsBytes(recs)| && Multiple(q, valueSize + KEY_SIZE)
    requires b == IndexBytes(RecordsBytes(recs), q, valueSize + KEY_SIZE, start, true)
    requires b.failed.None? ==> |RecordsBytes(recs)| - q < valueSize + KEY_SIZE
    ensures b == IndexRecords(recs, start, true)
    ensures b.failed.None? <==> NonNegative(recs)
    ensures b.failed.Some? ==> b.failed == Some(NegativeBitIndex)
  {
    var f, rs := RecordsBytes(recs), valueSize + KEY_SIZE;
    RecordsOfBytes(recs, valueSize);
    if b.failed.Some? {
      MultipleSub(|f|, q, rs);
      IndexBytesStops(f, q, |f|, rs, start, true);
    } else if q < |f| {
      MultipleGap(q, |f|, rs);
    }
    IndexBytesRecords(f, |f|, rs, start, true);
    IndexRecordsSpec(recs, start, true);
  }

  /** What data.next holds after one more flushNext. */
  lemma FlushedRecords(out: seq<Record>, k: nat, i: nat)
    requires k <= i <= |out|
    ensures RecordsBytes(out[..i]) == RecordsBytes(out[..k]) + RecordsBytes(out[k..i])
  {
    RecordsBytesAppend(out[..k], out[k..i]);
    assert out[..k] + out[k..i] == out[..i];
  }

  /** Record i of records written one after another starts at byte
      i * recordSize. */
  lemma RecordsBytesAt(recs: seq<Record>, i: nat, valueSize: nat)
    requires i < |recs| && Sized(recs, valueSize)
    ensures 0 <= i * (valueSize + KEY_SIZE) && i * (valueSize + KEY_SIZE) + valueSize + KEY_SIZE <= |RecordsBytes(recs)|
    ensures RecordAt(RecordsBytes(recs), i * (valueSize + KEY_SIZE), valueSize + KEY_SIZE) == recs[i]
  {
    var rs := valueSize + KEY_SIZE;
    SizedSlice(recs, valueSize, 0, i);
    SizedSlice(recs, valueSize, 0, i + 1);
    RecordsBytesLength(recs[..i], valueSize);
    RecordsBytesLength(recs[..i + 1], valueSize);
    var head := RecordsBytes(recs[..i + 1]);
    assert recs[..i + 1][..i] == recs[..i];
    assert head == RecordsBytes(recs[..i]) + RecordBytes(recs[i]);
    RecordAtOfBytes(RecordsBytes(recs[..i]), recs[i]);
    FlushedRecords(recs, i + 1, |recs|);
    assert recs[..|recs|] == recs;
    MulPred(i + 1, rs);
    RecordAtPrefix(head, RecordsBytes(recs[i + 1..]), i * rs, rs);
  }

  /** In records with distinct keys the last record of a key is its only one. */
  lemma DistinctLatest(recs: seq<Record>, i: nat)
    requires i < |recs| && forall a, b :: 0 <= a < b < |recs| ==> recs[a].key != recs[b].key
    ensures Latest(recs, recs[i].key) == Some(i)
  {
    var l := Latest(recs, recs[i].key);
    assert recs[i] in recs;
    assert recs[i].key in Keys(recs);
  }
}
