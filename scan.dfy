/** The two scans StormDB makes over its files: iterate's backward,
    de-duplicating walk (newest record of every key first) and buildIndex's
    forward walk (the last record of a key wins). Each is given twice: once
    as the code walks the bytes (windows, cursors, the exceptions it can
    raise) and once as a reference over the file's records, with lemmas that
    connect the two. */
module Scans {
  import opened Common
  import opened WriteBuffers

  // ---------------------------------------------------------------------
  // Files as records

  /** The record whose first byte is at `q`. */
  function RecordAt(b: Bytes, q: nat, recordSize: nat): Record
    requires KEY_SIZE <= recordSize && q + recordSize <= |b|
  {
    Record(GetInt(b[q..q + KEY_SIZE]), b[q + KEY_SIZE..q + recordSize])
  }

  /** `n` is a whole number of records of `recordSize` bytes. */
  ghost predicate Multiple(n: nat, recordSize: nat)
  {
    recordSize > 0 && n % recordSize == 0
  }

  /** The same, counted out one record at a time; the lemmas about Multiple
      are proved through it. */
  ghost predicate Whole(n: nat, recordSize: nat)
    decreases n
  {
    n == 0 || (0 < recordSize <= n && Whole(n - recordSize, recordSize))
  }

  /** The records of `b` between the byte offsets `lo` and `hi`, in file
      order, counted back from `hi`; when `hi - lo` is a whole number of
      records, all of them. */
  function RecordsIn(b: Bytes, lo: nat, hi: nat, recordSize: nat): seq<Record>
    requires KEY_SIZE <= recordSize && lo <= hi <= |b|
    decreases hi
  {
    if hi - lo < recordSize then []
    else RecordsIn(b, lo, hi - recordSize, recordSize) + [RecordAt(b, hi - recordSize, recordSize)]
  }

  /** The records of a whole file. */
  function Records(b: Bytes, recordSize: nat): seq<Record>
    requires KEY_SIZE <= recordSize
  {
    RecordsIn(b, 0, |b|, recordSize)
  }

  function Keys(recs: seq<Record>): set<int32>
  {
    set r | r in recs :: r.key
  }

  /** No record uses a key that java.util.BitSet would refuse. */
  predicate NonNegative(recs: seq<Record>)
  {
    forall r :: r in recs ==> r.key >= 0
  }

  function Reversed<T>(s: seq<T>): (r: seq<T>)
    ensures |r| == |s|
  {
    if s == [] then [] else Reversed(s[1..]) + [s[0]]
  }

  /** A reference for iterate: the records of `s` whose key was not met
      before, in order, each key once (the first copy wins). */
  function Dedup(s: seq<Record>, seen: set<int32>): seq<Record>
  {
    if s == [] then [] else New(s[0], seen) + Dedup(s[1..], seen + {s[0].key})
  }

  // ---------------------------------------------------------------------
  // iterate, as the code walks the bytes

  /** The window iterate reads at a time: the largest multiple of the record
      size within 4 MiB. */
  function IterateWindow(recordSize: nat): nat
    requires recordSize > 0
  {
    (FOUR_MB / recordSize) * recordSize
  }

  /** What a scan has produced: the records handed to the consumer, the keys
      met (keysRead), and the exception that stopped it, if any. */
  datatype Scan = Scan(out: seq<Record>, seen: set<int32>, failed: Option<Error>)

  /** The inner loop: the window `w` is walked back from byte `p`, one record
      at a time; a key not met before goes to the consumer. A cursor that
      would go below zero, or a negative key given to the BitSet, throws. */
  function WalkBack(w: Bytes, p: nat, recordSize: nat, out: seq<Record>, seen: set<int32>): Scan
    requires KEY_SIZE <= recordSize && p <= |w|
    decreases p
  {
    if p == 0 then Scan(out, seen, None)
    else if p < recordSize then Scan(out, seen, Some(NegativePosition))
    else
      var rec := RecordAt(w, p - recordSize, recordSize);
      if rec.key < 0 then Scan(out, seen, Some(NegativeBitIndex))
      else WalkBack(w, p - recordSize, recordSize, out + New(rec, seen), seen + {rec.key})
  }

  /** The record, if its key was not met before. */
  function New(rec: Record, seen: set<int32>): seq<Record>
  {
    if rec.key in seen then [] else [rec]
  }

  /** The start of the window read below file pointer `fp`. */
  function WindowStart(fp: nat, window: nat): nat
  {
    if fp > window then fp - window else 0
  }

  /** The middle loop: while the file pointer is not zero, seek back one
      window (not below zero), read up to a window of bytes and walk them
      back. Near the head the read can reach past the old file pointer, so
      the head of the file is walked twice. */
  function ScanFile(f: Bytes, fp: nat, window: nat, recordSize: nat, out: seq<Record>, seen: set<int32>): Scan
    requires fp <= |f| && window > 0 && KEY_SIZE <= recordSize
    decreases fp
  {
    if fp == 0 then Scan(out, seen, None)
    else
      var pos := WindowStart(fp, window);
      var end := Min(pos + window, |f|);
      var s := WalkBack(f[pos..end], end - pos, recordSize, out, seen);
      if s.failed.Some? then s else ScanFile(f, pos, window, recordSize, s.out, s.seen)
  }

  /** The outer loop: the files in turn, from their ends, sharing keysRead. */
  function ScanFiles(files: seq<Bytes>, window: nat, recordSize: nat, out: seq<Record>, seen: set<int32>): Scan
    requires window > 0 && KEY_SIZE <= recordSize
    decreases |files|
  {
    if files == [] then Scan(out, seen, None)
    else
      var s := ScanFile(files[0], |files[0]|, window, recordSize, out, seen);
      if s.failed.Some? then s else ScanFiles(files[1..], window, recordSize, s.out, s.seen)
  }

  /** What is left of a file once the walk `s` of one window is done: the
      file below `fp`, unless `s` threw. */
  function ThenFile(s: Scan, f: Bytes, fp: nat, window: nat, recordSize: nat): Scan
    requires fp <= |f| && window > 0 && KEY_SIZE <= recordSize
  {
    if s.failed.Some? then s else ScanFile(f, fp, window, recordSize, s.out, s.seen)
  }

  // ---------------------------------------------------------------------
  // iterate, as a reference over records

  /** Every file is made of whole records. */
  ghost predicate Aligned(files: seq<Bytes>, recordSize: nat)
  {
    forall i :: 0 <= i < |files| ==> Multiple(|files[i]|, recordSize)
  }

  /** The records in the order iterate meets them: each file from its end. */
  function Visit(files: seq<Bytes>, recordSize: nat): seq<Record>
    requires KEY_SIZE <= recordSize
    decreases |files|
  {
    if files == [] then []
    else Reversed(Records(files[0], recordSize)) + Visit(files[1..], recordSize)
  }

  // ---------------------------------------------------------------------
  // Lemmas about records

  /** Decoding undoes RecordsBytes: the records come back from their bytes. */
  lemma {:induction false} RecordsOfBytes(recs: seq<Record>, valueSize: nat)
    requires Sized(recs, valueSize)
    ensures Multiple(|RecordsBytes(recs)|, valueSize + KEY_SIZE)
    ensures Records(RecordsBytes(recs), valueSize + KEY_SIZE) == recs
    decreases |recs|
  {
    var rs := valueSize + KEY_SIZE;
    MultipleBase(rs);
    if recs != [] {
      var init, last := recs[..|recs| - 1], recs[|recs| - 1];
      SizedSlice(recs, valueSize, 0, |recs| - 1);
      RecordsOfBytes(init, valueSize);
      assert RecordsBytes(recs) == RecordsBytes(init) + RecordBytes(last);
      assert recs == init + [last];
      RecordsOfBytesStep(RecordsBytes(init), init, last, rs);
    }
  }

  /** The inductive step of RecordsOfBytes: one more record's bytes, one more record. */
  lemma RecordsOfBytesStep(a: Bytes, init: seq<Record>, last: Record, recordSize: nat)
    requires recordSize == |last.value| + KEY_SIZE
    requires Multiple(|a|, recordSize) && Records(a, recordSize) == init
    ensures Multiple(|a + RecordBytes(last)|, recordSize)
    ensures Records(a + RecordBytes(last), recordSize) == init + [last]
  {
    var b := a + RecordBytes(last);
    assert |RecordBytes(last)| == recordSize;
    RecordsInUnfold(b, 0, |b|, recordSize);
    RecordsInPrefix(a, RecordBytes(last), 0, |a|, recordSize);
    RecordAtOfBytes(a, last);
    MultipleBase(recordSize);
    MultipleAdd(|a|, recordSize, recordSize);
  }

  lemma RecordAtOfBytes(prefix: Bytes, r: Record)
    ensures RecordAt(prefix + RecordBytes(r), |prefix|, |r.value| + KEY_SIZE) == r
  {
    var b := prefix + RecordBytes(r);
    var rs := |r.value| + KEY_SIZE;
    assert b[|prefix|..|prefix| + KEY_SIZE] == Int32Bytes(r.key);
    assert b[|prefix| + KEY_SIZE..|prefix| + rs] == r.value;
    GetIntOfInt32Bytes(r.key);
  }

  /** One step of RecordsIn: the last record, after the records before it. */
  lemma RecordsInUnfold(b: Bytes, lo: nat, hi: nat, recordSize: nat)
    requires KEY_SIZE <= recordSize && lo + recordSize <= hi <= |b|
    ensures RecordsIn(b, lo, hi, recordSize)
      == RecordsIn(b, lo, hi - recordSize, recordSize) + [RecordAt(b, hi - recordSize, recordSize)]
  {
  }

  /** The records from lo to hi: those from lo to mid, then those from mid to hi. */
  lemma {:induction false} RecordsInSplit(b: Bytes, lo: nat, mid: nat, hi: nat, recordSize: nat)
    requires KEY_SIZE <= recordSize && lo <= mid <= hi <= |b|
    requires Multiple(mid - lo, recordSize) && Multiple(hi - mid, recordSize)
    ensures RecordsIn(b, lo, hi, recordSize) == RecordsIn(b, lo, mid, recordSize) + RecordsIn(b, mid, hi, recordSize)
    decreases hi
  {
    if hi == mid {
      assert RecordsIn(b, mid, hi, recordSize) == [];
      assert RecordsIn(b, lo, mid, recordSize) + [] == RecordsIn(b, lo, mid, recordSize);
    } else {
      MultipleStep(hi - mid, recordSize);
      var last := RecordAt(b, hi - recordSize, recordSize);
      RecordsInSplit(b, lo, mid, hi - recordSize, recordSize);
      RecordsInUnfold(b, lo, hi, recordSize);
      RecordsInUnfold(b, mid, hi, recordSize);
      SeqAssoc(RecordsIn(b, lo, mid, recordSize), RecordsIn(b, mid, hi - recordSize, recordSize), [last]);
    }
  }

  /** A record read from a window of `f` is the record of `f` at the same place. */
  lemma RecordAtWindow(f: Bytes, pos: nat, end: nat, q: nat, recordSize: nat)
    requires KEY_SIZE <= recordSize && pos + q + recordSize <= end <= |f|
    ensures RecordAt(f[pos..end], q, recordSize) == RecordAt(f, pos + q, recordSize)
  {
    SliceOfSlice(f, pos, end, q, q + KEY_SIZE);
    SliceOfSlice(f, pos, end, q + KEY_SIZE, q + recordSize);
  }

  lemma SliceOfSlice<T>(s: seq<T>, a: nat, b: nat, i: nat, j: nat)
    requires a <= b <= |s| && i <= j <= b - a
    ensures s[a..b][i..j] == s[a + i..a + j]
  {
    assert |s[a..b][i..j]| == |s[a + i..a + j]|;
    forall k | 0 <= k < j - i ensures s[a..b][i..j][k] == s[a + i..a + j][k] {
    }
  }

  /** The records of a window of `f` are the records of `f` at the same place. */
  lemma {:induction false} RecordsInWindow(f: Bytes, pos: nat, end: nat, hi: nat, recordSize: nat)
    requires KEY_SIZE <= recordSize && pos + hi <= end <= |f|
    ensures RecordsIn(f[pos..end], 0, hi, recordSize) == RecordsIn(f, pos, pos + hi, recordSize)
    decreases hi
  {
    if hi >= recordSize {
      RecordsInWindow(f, pos, end, hi - recordSize, recordSize);
      RecordsInUnfold(f[pos..end], 0, hi, recordSize);
      RecordsInUnfold(f, pos, pos + hi, recordSize);
      RecordAtWindow(f, pos, end, hi - recordSize, recordSize);
    }
  }

  /** A record is unchanged by bytes appended after it. */
  lemma RecordAtPrefix(b: Bytes, x: Bytes, q: nat, recordSize: nat)
    requires KEY_SIZE <= recordSize && q + recordSize <= |b|
    ensures RecordAt(b + x, q, recordSize) == RecordAt(b, q, recordSize)
  {
    assert (b + x)[q..q + KEY_SIZE] == b[q..q + KEY_SIZE];
    assert (b + x)[q + KEY_SIZE..q + recordSize] == b[q + KEY_SIZE..q + recordSize];
  }

  /** Records are unchanged by bytes appended after them. */
  lemma {:induction false} RecordsInPrefix(b: Bytes, x: Bytes, lo: nat, hi: nat, recordSize: nat)
    requires KEY_SIZE <= recordSize && lo <= hi <= |b|
    ensures RecordsIn(b + x, lo, hi, recordSize) == RecordsIn(b, lo, hi, recordSize)
    decreases hi
  {
    if hi - lo >= recordSize {
      RecordsInPrefix(b, x, lo, hi - recordSize, recordSize);
      RecordsInUnfold(b + x, lo, hi, recordSize);
      RecordsInUnfold(b, lo, hi, recordSize);
      RecordAtPrefix(b, x, hi - recordSize, recordSize);
    }
  }

  lemma {:induction false} WholeSub(a: nat, b: nat, recordSize: nat)
    requires Whole(a, recordSize) && Whole(b, recordSize) && b <= a
    ensures Whole(a - b, recordSize)
    decreases b
  {
    if b > 0 {
      WholeSub(a - recordSize, b - recordSize, recordSize);
    }
  }

  lemma {:induction false} WholeAdd(a: nat, b: nat, recordSize: nat)
    requires Whole(a, recordSize) && Whole(b, recordSize)
    ensures Whole(a + b, recordSize)
    decreases b
  {
    if b > 0 {
      WholeAdd(a, b - recordSize, recordSize);
    }
  }

  lemma {:induction false} WholeOfProduct(q: nat, recordSize: nat)
    requires recordSize > 0
    ensures Whole(q * recordSize, recordSize)
    decreases q
  {
    if q > 0 {
      WholeOfProduct(q - 1, recordSize);
      assert q * recordSize - recordSize == (q - 1) * recordSize;
    }
  }

  /** Counting out records agrees with the `%` test. */
  lemma {:induction false} WholeIsMultiple(n: nat, recordSize: nat)
    requires recordSize > 0
    ensures Whole(n, recordSize) <==> Multiple(n, recordSize)
    decreases n
  {
    if n >= recordSize {
      WholeIsMultiple(n - recordSize, recordSize);
      assert n % recordSize == (n - recordSize) % recordSize by {
        ModStep(n, recordSize);
      }
    } else if n > 0 {
      assert n % recordSize == n;
    }
  }

  lemma MultipleSub(a: nat, b: nat, recordSize: nat)
    requires Multiple(a, recordSize) && Multiple(b, recordSize) && b <= a
    ensures Multiple(a - b, recordSize)
  {
    WholeIsMultiple(a, recordSize);
    WholeIsMultiple(b, recordSize);
    WholeSub(a, b, recordSize);
    WholeIsMultiple(a - b, recordSize);
  }

  lemma MultipleAdd(a: nat, b: nat, recordSize: nat)
    requires Multiple(a, recordSize) && Multiple(b, recordSize)
    ensures Multiple(a + b, recordSize)
  {
    WholeIsMultiple(a, recordSize);
    WholeIsMultiple(b, recordSize);
    WholeAdd(a, b, recordSize);
    WholeIsMultiple(a + b, recordSize);
  }

  /** A whole number of records that is not zero holds at least one record. */
  lemma MultipleStep(n: nat, recordSize: nat)
    requires Multiple(n, recordSize) && n > 0
    ensures recordSize <= n && Multiple(n - recordSize, recordSize)
  {
    WholeIsMultiple(n, recordSize);
    assert recordSize <= n;
    WholeIsMultiple(n - recordSize, recordSize);
  }

  /** None and one record are whole numbers of records. */
  lemma MultipleBase(recordSize: nat)
    requires recordSize > 0
    ensures Multiple(0, recordSize) && Multiple(recordSize, recordSize)
  {
    WholeIsMultiple(0, recordSize);
    WholeIsMultiple(recordSize, recordSize);
    assert Whole(recordSize - recordSize, recordSize);
  }

  /** Two different whole numbers of records differ by at least one record. */
  lemma MultipleGap(x: nat, y: nat, recordSize: nat)
    requires Multiple(x, recordSize) && Multiple(y, recordSize) && x < y
    ensures x + recordSize <= y
  {
    MultipleSub(y, x, recordSize);
    MultipleStep(y - x, recordSize);
  }

  lemma MultipleOfProduct(q: nat, recordSize: nat)
    requires recordSize > 0
    ensures Multiple(q * recordSize, recordSize)
  {
    WholeOfProduct(q, recordSize);
    WholeIsMultiple(q * recordSize, recordSize);
  }

  lemma ModStep(n: nat, m: nat)
    requires 0 < m <= n
    ensures n % m == (n - m) % m
  {
    var q, r := (n - m) / m, (n - m) % m;
    assert n - m == q * m + r;
    assert n == (q + 1) * m + r;
    DivModUnique(n, m, q + 1, r);
  }

  /** The iterate window holds whole records. */
  lemma IterateWindowWhole(recordSize: nat)
    requires 0 < recordSize <= FOUR_MB
    ensures IterateWindow(recordSize) >= recordSize
    ensures Multiple(IterateWindow(recordSize), recordSize)
  {
    MultipleOfProduct(FOUR_MB / recordSize, recordSize);
    MulAtLeast(FOUR_MB / recordSize, recordSize);
  }

  // ---------------------------------------------------------------------
  // Lemmas about Reversed, Keys and Dedup

  lemma ReversedAppend<T>(a: seq<T>, b: seq<T>)
    ensures Reversed(a + b) == Reversed(b) + Reversed(a)
    decreases |a|
  {
    if a == [] {
      assert a + b == b;
    } else {
      assert (a + b)[1..] == a[1..] + b;
      ReversedAppend(a[1..], b);
    }
  }

  lemma ReversedMembers<T>(s: seq<T>)
    ensures forall x :: x in Reversed(s) <==> x in s
    decreases |s|
  {
    if s != [] {
      ReversedMembers(s[1..]);
      assert forall x :: x in s <==> x == s[0] || x in s[1..];
    }
  }

  lemma KeysAppend(a: seq<Record>, b: seq<Record>)
    ensures Keys(a + b) == Keys(a) + Keys(b)
  {
    forall k | k in Keys(a + b) ensures k in Keys(a) + Keys(b) {
      var r :| r in a + b && r.key == k;
      if r in a {} else {}
    }
    forall k | k in Keys(a) + Keys(b) ensures k in Keys(a + b) {
      if k in Keys(a) {
        var r :| r in a && r.key == k;
        assert r in a + b;
      } else {
        var r :| r in b && r.key == k;
        assert r in a + b;
      }
    }
  }

  lemma KeysReversed(s: seq<Record>)
    ensures Keys(Reversed(s)) == Keys(s)
    ensures NonNegative(Reversed(s)) <==> NonNegative(s)
  {
    ReversedMembers(s);
  }

  lemma NonNegativeAppend(a: seq<Record>, b: seq<Record>)
    ensures NonNegative(a + b) <==> NonNegative(a) && NonNegative(b)
  {
    assert forall r :: r in a + b <==> r in a || r in b;
  }

  /** Scanning a + b with a dedup is scanning a, then b with a's keys met. */
  lemma {:induction false} DedupAppend(a: seq<Record>, b: seq<Record>, seen: set<int32>)
    ensures Dedup(a + b, seen) == Dedup(a, seen) + Dedup(b, seen + Keys(a))
    decreases |a|
  {
    if a == [] {
      assert a + b == b;
      assert Keys(a) == {};
      assert seen + Keys(a) == seen;
    } else {
      var seen' := seen + {a[0].key};
      assert (a + b)[0] == a[0];
      assert (a + b)[1..] == a[1..] + b;
      DedupAppend(a[1..], b, seen');
      KeysCons(a);
      assert Dedup(a + b, seen) == New(a[0], seen) + Dedup(a[1..] + b, seen');
      assert seen' + Keys(a[1..]) == seen + Keys(a);
      SeqAssoc(New(a[0], seen), Dedup(a[1..], seen'), Dedup(b, seen' + Keys(a[1..])));
    }
  }

  lemma KeysCons(s: seq<Record>)
    requires s != []
    ensures Keys(s) == {s[0].key} + Keys(s[1..])
    ensures NonNegative(s) <==> s[0].key >= 0 && NonNegative(s[1..])
  {
    assert s == [s[0]] + s[1..];
    KeysAppend([s[0]], s[1..]);
    NonNegativeAppend([s[0]], s[1..]);
    assert Keys([s[0]]) == {s[0].key};
  }

  lemma NewFacts(r: Record, seen: set<int32>)
    ensures r.key in seen ==> New(r, seen) == [] && seen + {r.key} == seen
    ensures r.key !in seen ==> New(r, seen) == [r]
    ensures Keys(New(r, seen)) <= {r.key} && seen + Keys(New(r, seen)) == seen + {r.key}
  {
    if r.key !in seen {
      assert Keys([r]) == {r.key};
    } else {
      assert Keys([]) == {};
    }
  }

  /** Records whose keys were all met already add nothing. */
  lemma {:induction false} DedupSeen(s: seq<Record>, seen: set<int32>)
    requires Keys(s) <= seen
    ensures Dedup(s, seen) == []
    decreases |s|
  {
    if s != [] {
      KeysCons(s);
      NewFacts(s[0], seen);
      DedupSeen(s[1..], seen);
    }
  }

  /** Each key reaches the consumer at most once, and never one met before. */
  lemma {:induction false} DedupDistinct(s: seq<Record>, seen: set<int32>)
    ensures forall i, j :: 0 <= i < j < |Dedup(s, seen)| ==> Dedup(s, seen)[i].key != Dedup(s, seen)[j].key
    ensures forall i :: 0 <= i < |Dedup(s, seen)| ==> Dedup(s, seen)[i].key !in seen
    decreases |s|
  {
    if s != [] {
      DedupDistinct(s[1..], seen + {s[0].key});
      DistinctCons(s[0], seen, Dedup(s[1..], seen + {s[0].key}));
    }
  }

  /** The inductive step of DedupDistinct. */
  lemma DistinctCons(r: Record, seen: set<int32>, t: seq<Record>)
    requires forall i, j :: 0 <= i < j < |t| ==> t[i].key != t[j].key
    requires forall i :: 0 <= i < |t| ==> t[i].key !in seen + {r.key}
    ensures forall i, j :: 0 <= i < j < |New(r, seen) + t| ==> (New(r, seen) + t)[i].key != (New(r, seen) + t)[j].key
    ensures forall i :: 0 <= i < |New(r, seen) + t| ==> (New(r, seen) + t)[i].key !in seen
  {
    NewFacts(r, seen);
    var d := New(r, seen) + t;
    if r.key in seen {
      assert d == t;
    } else {
      assert d == [r] + t;
      forall i | 0 <= i < |d| ensures d[i].key !in seen {
        if i > 0 {
          assert d[i] == t[i - 1];
        }
      }
      forall i, j | 0 <= i < j < |d| ensures d[i].key != d[j].key {
        assert d[j] == t[j - 1];
        if i > 0 {
          assert d[i] == t[i - 1];
        }
      }
    }
  }

  /** The first record of `s` with key `k`. */
  function FirstWith(s: seq<Record>, k: int32): Option<Record>
  {
    if s == [] then None else if s[0].key == k then Some(s[0]) else FirstWith(s[1..], k)
  }

  /** What reaches the consumer is, for its key, the first copy in `s`. */
  lemma {:induction false} DedupFirst(s: seq<Record>, seen: set<int32>)
    ensures forall r :: r in Dedup(s, seen) ==> r in s && r.key !in seen && FirstWith(s, r.key) == Some(r)
    decreases |s|
  {
    if s != [] {
      var seen' := seen + {s[0].key};
      DedupFirst(s[1..], seen');
      var d := Dedup(s, seen);
      var t := Dedup(s[1..], seen');
      NewFacts(s[0], seen);
      assert d == New(s[0], seen) + t;
      forall r | r in d ensures r in s && r.key !in seen && FirstWith(s, r.key) == Some(r) {
        if r in t {
          assert r in s[1..];
        } else {
          assert r == s[0];
        }
      }
    }
  }

  /** The keys that reach the consumer are the keys met for the first time. */
  lemma DedupKeys(s: seq<Record>, seen: set<int32>)
    ensures seen + Keys(Dedup(s, seen)) == seen + Keys(s)
    ensures Keys(Dedup(s, seen)) == Keys(s) - seen
    ensures NonNegative(s) ==> NonNegative(Dedup(s, seen))
  {
    DedupKeysUnion(s, seen);
    DedupDistinct(s, seen);
    forall k | k in Keys(Dedup(s, seen)) ensures k !in seen {
      var i :| 0 <= i < |Dedup(s, seen)| && Dedup(s, seen)[i].key == k;
    }
  }

  lemma {:induction false} DedupKeysUnion(s: seq<Record>, seen: set<int32>)
    ensures seen + Keys(Dedup(s, seen)) == seen + Keys(s)
    ensures NonNegative(s) ==> NonNegative(Dedup(s, seen))
    decreases |s|
  {
    if s != [] {
      var seen' := seen + {s[0].key};
      var t := Dedup(s[1..], seen');
      DedupKeysUnion(s[1..], seen');
      KeysCons(s);
      NewFacts(s[0], seen);
      KeysAppend(New(s[0], seen), t);
      NonNegativeAppend(New(s[0], seen), t);
      assert NonNegative(s) ==> NonNegative(New(s[0], seen));
    }
  }

  // ---------------------------------------------------------------------
  // iterate: the code against the reference

  /** `s` is what iterate gives when it meets the records `recs`, in that
      order, after `out` was handed over and the keys `seen` were met: it
      fails, with the BitSet's exception, exactly when one of them has a
      negative key, and otherwise hands over the first copy of every key not
      met before and has met their keys too. */
  ghost predicate Scanned(s: Scan, out: seq<Record>, seen: set<int32>, recs: seq<Record>)
  {
    && (s.failed.Some? <==> !NonNegative(recs))
    && (s.failed.Some? ==> s.failed == Some(NegativeBitIndex))
    && (s.failed.None? ==> s.out == out + Dedup(recs, seen) && s.seen == seen + Keys(recs))
  }

  /** `s1`, or when it did not fail, `s2`: a scan followed by another. */
  function AndThen(s1: Scan, s2: Scan): Scan
  {
    if s1.failed.Some? then s1 else s2
  }

  /** Scanning `top` and then `low` is scanning `top + low`. */
  lemma ScanCombine(s1: Scan, s2: Scan, out: seq<Record>, seen: set<int32>, top: seq<Record>, low: seq<Record>)
    requires Scanned(s1, out, seen, top)
    requires s1.failed.None? ==> Scanned(s2, s1.out, s1.seen, low)
    ensures Scanned(AndThen(s1, s2), out, seen, top + low)
  {
    NonNegativeAppend(top, low);
    if s1.failed.None? {
      DedupAppend(top, low, seen);
      KeysAppend(top, low);
      SeqAssoc(out, Dedup(top, seen), Dedup(low, seen + Keys(top)));
    }
  }

  /** Records whose keys were all met, and are therefore not negative, change
      nothing in a scan. */
  lemma ScanMet(s: Scan, out: seq<Record>, seen: set<int32>, top: seq<Record>, low: seq<Record>)
    requires forall k :: k in seen ==> k >= 0
    requires Keys(top) <= seen
    requires Scanned(s, out, seen, top + low)
    ensures Scanned(s, out, seen, low)
  {
    assert NonNegative(top) by {
      forall r | r in top ensures r.key >= 0 {
        assert r.key in Keys(top);
      }
    }
    NonNegativeAppend(top, low);
    DedupAppend(top, low, seen);
    DedupSeen(top, seen);
    KeysAppend(top, low);
    assert seen + Keys(top) == seen;
    assert [] + Dedup(low, seen) == Dedup(low, seen);
  }

  /** After a scan that did not fail, every key met is still not negative. */
  lemma ScannedSeen(s: Scan, out: seq<Record>, seen: set<int32>, recs: seq<Record>)
    requires forall k :: k in seen ==> k >= 0
    requires Scanned(s, out, seen, recs) && s.failed.None?
    ensures forall k :: k in s.seen ==> k >= 0
  {
    forall k | k in s.seen ensures k >= 0 {
      if k !in seen {
        var r :| r in recs && r.key == k;
      }
    }
  }

  /** Walking back a window made of whole records visits its records from
      the last one. */
  lemma {:induction false} WalkBackRecords(w: Bytes, p: nat, recordSize: nat, out: seq<Record>, seen: set<int32>)
    requires KEY_SIZE <= recordSize && p <= |w| && Multiple(p, recordSize)
    ensures Scanned(WalkBack(w, p, recordSize, out, seen), out, seen, Reversed(RecordsIn(w, 0, p, recordSize)))
    decreases p
  {
    if p == 0 {
      assert Keys([]) == {};
    } else {
      MultipleStep(p, recordSize);
      var q := p - recordSize;
      var rec := RecordAt(w, q, recordSize);
      WindowRecords(w, p, recordSize);
      var rest := Reversed(RecordsIn(w, 0, q, recordSize));
      WalkBackStep(w, p, recordSize, out, seen, rec);
      if rec.key >= 0 {
        WalkBackRecords(w, q, recordSize, out + New(rec, seen), seen + {rec.key});
        ScannedCons(WalkBack(w, q, recordSize, out + New(rec, seen), seen + {rec.key}), out, seen, rec, rest);
      } else {
        KeysCons([rec] + rest);
      }
    }
  }

  /** One step of the inner loop, at the record `rec` just below p. */
  lemma WalkBackStep(w: Bytes, p: nat, recordSize: nat, out: seq<Record>, seen: set<int32>, rec: Record)
    requires KEY_SIZE <= recordSize <= p <= |w| && rec == RecordAt(w, p - recordSize, recordSize)
    ensures WalkBack(w, p, recordSize, out, seen)
      == if rec.key < 0 then Scan(out, seen, Some(NegativeBitIndex))
         else WalkBack(w, p - recordSize, recordSize, out + New(rec, seen), seen + {rec.key})
  {
  }

  /** A record with a key that is not negative, followed by more. */
  lemma ScannedCons(s: Scan, out: seq<Record>, seen: set<int32>, rec: Record, rest: seq<Record>)
    requires rec.key >= 0
    requires Scanned(s, out + New(rec, seen), seen + {rec.key}, rest)
    ensures Scanned(s, out, seen, [rec] + rest)
  {
    var recs := [rec] + rest;
    KeysCons(recs);
    assert recs[0] == rec && recs[1..] == rest;
    var d := Dedup(rest, seen + {rec.key});
    assert Dedup(recs, seen) == New(rec, seen) + d;
    SeqAssoc(out, New(rec, seen), d);
    assert seen + {rec.key} + Keys(rest) == seen + Keys(recs);
  }

  /** The records below p, read back to front, start with the one just below p. */
  lemma WindowRecords(w: Bytes, p: nat, recordSize: nat)
    requires KEY_SIZE <= recordSize <= p <= |w|
    ensures Reversed(RecordsIn(w, 0, p, recordSize))
      == [RecordAt(w, p - recordSize, recordSize)] + Reversed(RecordsIn(w, 0, p - recordSize, recordSize))
  {
    var rec := RecordAt(w, p - recordSize, recordSize);
    RecordsInUnfold(w, 0, p, recordSize);
    ReversedAppend(RecordsIn(w, 0, p - recordSize, recordSize), [rec]);
    assert Reversed([rec]) == [rec];
  }

  /** The records below b, back to front: those from a to b, then those below a. */
  lemma WindowSplit(f: Bytes, a: nat, b: nat, recordSize: nat)
    requires KEY_SIZE <= recordSize && a <= b <= |f| && Multiple(a, recordSize) && Multiple(b - a, recordSize)
    ensures Reversed(RecordsIn(f, 0, b, recordSize))
      == Reversed(RecordsIn(f, a, b, recordSize)) + Reversed(RecordsIn(f, 0, a, recordSize))
  {
    RecordsInSplit(f, 0, a, b, recordSize);
    ReversedAppend(RecordsIn(f, 0, a, recordSize), RecordsIn(f, a, b, recordSize));
  }

  /** The keys of the records from a on: those from a to b, then those from b on. */
  lemma KeysSplit(f: Bytes, a: nat, b: nat, recordSize: nat)
    requires KEY_SIZE <= recordSize && a <= b <= |f|
    requires Multiple(b - a, recordSize) && Multiple(|f| - b, recordSize)
    ensures Keys(RecordsIn(f, a, |f|, recordSize)) == Keys(RecordsIn(f, a, b, recordSize)) + Keys(RecordsIn(f, b, |f|, recordSize))
  {
    RecordsInSplit(f, a, b, |f|, recordSize);
    KeysAppend(RecordsIn(f, a, b, recordSize), RecordsIn(f, b, |f|, recordSize));
  }

  /** One step of the middle loop, with the walk's result `s` named: the
      scan from fp is the walk of the window [pos, end) below fp, followed by
      the file below pos unless the walk threw. */
  lemma ScanFileThen(f: Bytes, fp: nat, window: nat, recordSize: nat, out: seq<Record>, seen: set<int32>, pos: nat, end: nat, s: Scan)
    requires 0 < fp <= |f| && window > 0 && KEY_SIZE <= recordSize
    requires pos == WindowStart(fp, window) && end == Min(pos + window, |f|)
    requires s == WalkBack(f[pos..end], |f[pos..end]|, recordSize, out, seen)
    ensures pos < fp
    ensures ScanFile(f, fp, window, recordSize, out, seen) == ThenFile(s, f, pos, window, recordSize)
  {
  }

  /** The walk of the window [pos, end) of `f` visits the records of `f` there. */
  lemma WindowWalk(f: Bytes, pos: nat, end: nat, recordSize: nat, out: seq<Record>, seen: set<int32>)
    requires KEY_SIZE <= recordSize && pos <= end <= |f| && Multiple(end - pos, recordSize)
    ensures Scanned(WalkBack(f[pos..end], end - pos, recordSize, out, seen), out, seen,
                    Reversed(RecordsIn(f, pos, end, recordSize)))
  {
    WalkBackRecords(f[pos..end], end - pos, recordSize, out, seen);
    RecordsInWindow(f, pos, end, end - pos, recordSize);
  }

  /** Scanning a file of whole records from file pointer `fp`, when every
      record above `fp` has been met already: the head is walked twice but
      adds nothing the second time. */
  lemma {:induction false} ScanFileRecords(f: Bytes, fp: nat, window: nat, recordSize: nat, out: seq<Record>, seen: set<int32>)
    requires KEY_SIZE <= recordSize && window > 0 && Multiple(window, recordSize)
    requires fp <= |f| && Multiple(fp, recordSize) && Multiple(|f| - fp, recordSize)
    requires forall k :: k in seen ==> k >= 0
    requires Keys(RecordsIn(f, fp, |f|, recordSize)) <= seen
    ensures Scanned(ScanFile(f, fp, window, recordSize, out, seen), out, seen, Reversed(RecordsIn(f, 0, fp, recordSize)))
    decreases fp
  {
    if fp == 0 {
      assert Keys([]) == {};
    } else if fp > window {
      ScanFileWindow(f, fp, window, recordSize, out, seen);
    } else {
      ScanFileHead(f, fp, window, recordSize, out, seen);
    }
  }

  /** One full window below fp, then the rest of the file. */
  lemma {:induction false} ScanFileWindow(f: Bytes, fp: nat, window: nat, recordSize: nat, out: seq<Record>, seen: set<int32>)
    requires KEY_SIZE <= recordSize && window > 0 && Multiple(window, recordSize)
    requires window < fp <= |f| && Multiple(fp, recordSize) && Multiple(|f| - fp, recordSize)
    requires forall k :: k in seen ==> k >= 0
    requires Keys(RecordsIn(f, fp, |f|, recordSize)) <= seen
    ensures Scanned(ScanFile(f, fp, window, recordSize, out, seen), out, seen, Reversed(RecordsIn(f, 0, fp, recordSize)))
    decreases fp, 1
  {
    var pos := fp - window;
    MultipleSub(fp, window, recordSize);
    var s1 := WalkBack(f[pos..fp], window, recordSize, out, seen);
    var s2 := ScanFile(f, pos, window, recordSize, s1.out, s1.seen);
    ScanFileThen(f, fp, window, recordSize, out, seen, pos, fp, s1);
    var top := Reversed(RecordsIn(f, pos, fp, recordSize));
    var low := Reversed(RecordsIn(f, 0, pos, recordSize));
    WindowWalk(f, pos, fp, recordSize, out, seen);
    WindowSplit(f, pos, fp, recordSize);
    if s1.failed.None? {
      ScannedSeen(s1, out, seen, top);
      KeysReversed(RecordsIn(f, pos, fp, recordSize));
      ScanFileBelow(f, fp, window, recordSize, s1, seen);
    }
    ScanCombine(s1, s2, out, seen, top, low);
  }

  /** The rest of the file, once the window below fp has been walked. */
  lemma {:induction false} ScanFileBelow(f: Bytes, fp: nat, window: nat, recordSize: nat, s1: Scan, seen: set<int32>)
    requires KEY_SIZE <= recordSize && window > 0 && Multiple(window, recordSize)
    requires window < fp <= |f| && Multiple(fp, recordSize) && Multiple(|f| - fp, recordSize)
    requires forall k :: k in s1.seen ==> k >= 0
    requires Keys(RecordsIn(f, fp, |f|, recordSize)) <= seen
    requires s1.seen == seen + Keys(RecordsIn(f, fp - window, fp, recordSize))
    ensures Scanned(ScanFile(f, fp - window, window, recordSize, s1.out, s1.seen), s1.out, s1.seen,
                    Reversed(RecordsIn(f, 0, fp - window, recordSize)))
    decreases fp, 0
  {
    var pos := fp - window;
    MultipleSub(fp, window, recordSize);
    MultipleAdd(|f| - fp, window, recordSize);
    assert |f| - fp + window == |f| - pos;
    KeysSplit(f, pos, fp, recordSize);
    ScanFileRecords(f, pos, window, recordSize, s1.out, s1.seen);
  }

  /** The last window starts at 0 and can reach past fp: its top part was met already. */
  lemma {:induction false} ScanFileHead(f: Bytes, fp: nat, window: nat, recordSize: nat, out: seq<Record>, seen: set<int32>)
    requires KEY_SIZE <= recordSize && window > 0 && Multiple(window, recordSize)
    requires 0 < fp <= window && fp <= |f| && Multiple(fp, recordSize) && Multiple(|f| - fp, recordSize)
    requires forall k :: k in seen ==> k >= 0
    requires Keys(RecordsIn(f, fp, |f|, recordSize)) <= seen
    ensures Scanned(ScanFile(f, fp, window, recordSize, out, seen), out, seen, Reversed(RecordsIn(f, 0, fp, recordSize)))
  {
    var end := Min(window, |f|);
    MultipleAdd(fp, |f| - fp, recordSize);
    assert Multiple(end, recordSize);
    var s1 := WalkBack(f[0..end], end, recordSize, out, seen);
    ScanFileHeadWalk(f, fp, window, recordSize, out, seen, end);
    WindowWalk(f, 0, end, recordSize, out, seen);
    MultipleSub(end, fp, recordSize);
    WindowSplit(f, fp, end, recordSize);
    var top := Reversed(RecordsIn(f, fp, end, recordSize));
    var low := Reversed(RecordsIn(f, 0, fp, recordSize));
    MultipleSub(|f|, end, recordSize);
    KeysSplit(f, fp, end, recordSize);
    KeysReversed(RecordsIn(f, fp, end, recordSize));
    ScanMet(s1, out, seen, top, low);
  }

  /** Below one window, the middle loop makes its last step: one walk from 0. */
  lemma ScanFileHeadWalk(f: Bytes, fp: nat, window: nat, recordSize: nat, out: seq<Record>, seen: set<int32>, end: nat)
    requires KEY_SIZE <= recordSize && 0 < fp <= window && fp <= |f| && end == Min(window, |f|)
    ensures ScanFile(f, fp, window, recordSize, out, seen) == WalkBack(f[0..end], end, recordSize, out, seen)
  {
    var s1 := WalkBack(f[0..end], end, recordSize, out, seen);
    ScanFileThen(f, fp, window, recordSize, out, seen, 0, end, s1);
    assert ScanFile(f, 0, window, recordSize, s1.out, s1.seen) == Scan(s1.out, s1.seen, None);
    if s1.failed.None? {
      assert s1 == Scan(s1.out, s1.seen, None);
    }
  }

  /** iterate on files made of whole records: it fails exactly when a record
      has a negative key, and otherwise hands the consumer, once per key, the
      first copy in newest-first order (each file from its end, files in turn). */
  lemma {:induction false} ScanFilesRecords(files: seq<Bytes>, window: nat, recordSize: nat, out: seq<Record>, seen: set<int32>)
    requires KEY_SIZE <= recordSize && window > 0 && Multiple(window, recordSize)
    requires Aligned(files, recordSize)
    requires forall k :: k in seen ==> k >= 0
    ensures Scanned(ScanFiles(files, window, recordSize, out, seen), out, seen, Visit(files, recordSize))
    decreases |files|
  {
    if files == [] {
      assert Keys([]) == {};
    } else {
      var f := files[0];
      assert Multiple(|f|, recordSize);
      MultipleBase(recordSize);
      assert Keys(RecordsIn(f, |f|, |f|, recordSize)) == {};
      ScanFileRecords(f, |f|, window, recordSize, out, seen);
      var first := Reversed(Records(f, recordSize));
      var rest := Visit(files[1..], recordSize);
      var s1 := ScanFile(f, |f|, window, recordSize, out, seen);
      var s2 := ScanFiles(files[1..], window, recordSize, s1.out, s1.seen);
      assert ScanFiles(files, window, recordSize, out, seen) == AndThen(s1, s2);
      if s1.failed.None? {
        ScannedSeen(s1, out, seen, first);
        assert Aligned(files[1..], recordSize) by {
          forall i | 0 <= i < |files[1..]| ensures Multiple(|files[1..][i]|, recordSize) {
            assert files[1..][i] == files[i + 1];
          }
        }
        ScanFilesRecords(files[1..], window, recordSize, s1.out, s1.seen);
      }
      ScanCombine(s1, s2, out, seen, first, rest);
    }
  }

  /** A file whose last record has a negative key, such as the sync marker
      that ends every WAL the write buffer flushes, stops iterate at once. */
  lemma ScanFileStopsAtNegativeTail(f: Bytes, window: nat, recordSize: nat, out: seq<Record>, seen: set<int32>)
    requires KEY_SIZE <= recordSize && window > 0 && Multiple(window, recordSize) && |f| >= recordSize
    requires RecordAt(f, |f| - recordSize, recordSize).key < 0
    ensures ScanFile(f, |f|, window, recordSize, out, seen) == Scan(out, seen, Some(NegativeBitIndex))
  {
    MultipleStep(window, recordSize);
    var pos := WindowStart(|f|, window);
    var end := |f|;
    assert Min(pos + window, |f|) == end;
    var w := f[pos..end];
    var q := end - pos - recordSize;
    assert w == f[pos..];
    RecordAtWindow(f, pos, end, q, recordSize);
    WalkBackStep(w, end - pos, recordSize, out, seen, RecordAt(f, |f| - recordSize, recordSize));
    ScanFileThen(f, |f|, window, recordSize, out, seen, pos, end, WalkBack(w, end - pos, recordSize, out, seen));
  }

  /** The sync marker at the end of any of the files stops iterate with an
      exception, whatever the files before it hold. */
  lemma {:induction false} ScanFilesStopsAtNegativeTail(files: seq<Bytes>, j: nat, window: nat, recordSize: nat, out: seq<Record>, seen: set<int32>)
    requires KEY_SIZE <= recordSize && window > 0 && Multiple(window, recordSize)
    requires j < |files| && |files[j]| >= recordSize
    requires RecordAt(files[j], |files[j]| - recordSize, recordSize).key < 0
    ensures ScanFiles(files, window, recordSize, out, seen).failed.Some?
    decreases j
  {
    var s := ScanFile(files[0], |files[0]|, window, recordSize, out, seen);
    if j == 0 {
      ScanFileStopsAtNegativeTail(files[0], window, recordSize, out, seen);
    } else if s.failed.None? {
      assert files[1..][j - 1] == files[j];
      ScanFilesStopsAtNegativeTail(files[1..], j - 1, window, recordSize, s.out, s.seen);
    }
  }

  /** An empty file (the WAL a compaction has just opened) adds nothing to iterate. */
  lemma ScanFilesEmptyHead(rest: seq<Bytes>, window: nat, recordSize: nat, out: seq<Record>, seen: set<int32>)
    requires KEY_SIZE <= recordSize && window > 0
    ensures ScanFiles([[]] + rest, window, recordSize, out, seen) == ScanFiles(rest, window, recordSize, out, seen)
  {
    assert ([[]] + rest)[0] == [] && ([[]] + rest)[1..] == rest;
  }

  /** A well-formed output: what the consumer can be handed. */
  ghost predicate Emitted(recs: seq<Record>, valueSize: nat)
  {
    NonNegative(recs) && Sized(recs, valueSize)
  }

  lemma EmittedSnoc(recs: seq<Record>, rec: Record, valueSize: nat)
    requires Emitted(recs, valueSize) && rec.key >= 0 && |rec.value| == valueSize
    ensures Emitted(recs + [rec], valueSize)
  {
    var s := recs + [rec];
    assert forall i :: 0 <= i < |recs| ==> s[i] == recs[i];
    forall r | r in s ensures r.key >= 0 {
      if r != rec {
        assert r in recs;
      }
    }
  }

  /** Every record the inner loop hands out has a key BitSet accepts and a
      whole value. */
  lemma {:induction false} WalkBackEmits(w: Bytes, p: nat, valueSize: nat, out: seq<Record>, seen: set<int32>)
    requires p <= |w| && Emitted(out, valueSize)
    ensures Emitted(WalkBack(w, p, valueSize + KEY_SIZE, out, seen).out, valueSize)
    decreases p
  {
    var rs := valueSize + KEY_SIZE;
    if p >= rs && p > 0 {
      var rec := RecordAt(w, p - rs, rs);
      WalkBackStep(w, p, rs, out, seen, rec);
      if rec.key >= 0 {
        if rec.key !in seen {
          EmittedSnoc(out, rec, valueSize);
        } else {
          assert out + New(rec, seen) == out;
        }
        WalkBackEmits(w, p - rs, valueSize, out + New(rec, seen), seen + {rec.key});
      }
    }
  }

  lemma {:induction false} ScanFileEmits(f: Bytes, fp: nat, window: nat, valueSize: nat, out: seq<Record>, seen: set<int32>)
    requires fp <= |f| && window > 0 && Emitted(out, valueSize)
    ensures Emitted(ScanFile(f, fp, window, valueSize + KEY_SIZE, out, seen).out, valueSize)
    decreases fp
  {
    var rs := valueSize + KEY_SIZE;
    if fp > 0 {
      var pos := WindowStart(fp, window);
      var end := Min(pos + window, |f|);
      var s := WalkBack(f[pos..end], end - pos, rs, out, seen);
      ScanFileThen(f, fp, window, rs, out, seen, pos, end, s);
      WalkBackEmits(f[pos..end], end - pos, valueSize, out, seen);
      if s.failed.None? {
        ScanFileEmits(f, pos, window, valueSize, s.out, s.seen);
      }
    }
  }

  lemma {:induction false} ScanFilesEmits(files: seq<Bytes>, window: nat, valueSize: nat, out: seq<Record>, seen: set<int32>)
    requires window > 0 && Emitted(out, valueSize)
    ensures Emitted(ScanFiles(files, window, valueSize + KEY_SIZE, out, seen).out, valueSize)
    decreases |files|
  {
    if files != [] {
      var rs := valueSize + KEY_SIZE;
      var s := ScanFile(files[0], |files[0]|, window, rs, out, seen);
      ScanFileEmits(files[0], |files[0]|, window, valueSize, out, seen);
      if s.failed.None? {
        ScanFilesEmits(files[1..], window, valueSize, s.out, s.seen);
      }
    }
  }
}
