/** The in-memory write buffer of StormDB (WriteBuffer, exercised by
    WriteBufferTest.java): records are appended at a cursor in a fixed byte
    array; every 128 records close a block with a CRC-32 trailer and one
    sync-marker record; flush pads the open block and hands out the bytes. */
module WriteBuffers {
  import opened Common

  const RECORDS_PER_BLOCK: nat := 128
  const CRC_SIZE: nat := 4
  const FOUR_MB: nat := 4 * 1024 * 1024
  /** The largest value size a buffer accepts. */
  const MAX_VALUE_SIZE: nat := 512 * 1024

  /** One key-value pair as it is laid out in the buffer and in the files. */
  datatype Record = Record(key: int32, value: Bytes)

  function RecordBytes(r: Record): Bytes
  {
    Int32Bytes(r.key) + r.value
  }

  function RecordsBytes(recs: seq<Record>): Bytes
  {
    if recs == [] then [] else RecordsBytes(recs[..|recs| - 1]) + RecordBytes(recs[|recs| - 1])
  }

  /** Every value has the configured size. */
  ghost predicate Sized(recs: seq<Record>, valueSize: nat)
  {
    forall i :: 0 <= i < |recs| ==> |recs[i].value| == valueSize
  }

  /** No record uses the reserved key. */
  ghost predicate NoMarkers(recs: seq<Record>)
  {
    forall i :: 0 <= i < |recs| ==> recs[i].key != RESERVED_KEY_MARKER
  }

  /** The record that follows every CRC: reserved key, value of all 0xFF bytes. */
  function SyncRecord(valueSize: nat): Record
  {
    Record(RESERVED_KEY_MARKER, seq(valueSize, _ => 0xFF))
  }

  /** What closes a block of 128 records: the CRC of their raw bytes, then the sync record. */
  function Trailer(crc: Bytes -> uint32, block: seq<Record>, valueSize: nat): Bytes
  {
    Int32Bytes(crc(RecordsBytes(block))) + RecordBytes(SyncRecord(valueSize))
  }

  /** The bytes that holding `recs` puts in the buffer: the closed blocks, each
      followed by its trailer, then the records of the block still open. */
  function Framed(crc: Bytes -> uint32, recs: seq<Record>, valueSize: nat): Bytes
  {
    var c := OpenStart(|recs|);
    Closed(crc, recs[..c], valueSize) + RecordsBytes(recs[c..])
  }

  /** Index of the first record of the open block. */
  function OpenStart(n: nat): nat
  {
    n - n % RECORDS_PER_BLOCK
  }

  /** Whole blocks of 128 records, each written as its records and then its trailer. */
  function Closed(crc: Bytes -> uint32, recs: seq<Record>, valueSize: nat): Bytes
    decreases |recs|
  {
    if |recs| < RECORDS_PER_BLOCK then []
    else
      var block := recs[|recs| - RECORDS_PER_BLOCK..];
      Closed(crc, recs[..|recs| - RECORDS_PER_BLOCK], valueSize) + RecordsBytes(block) + Trailer(crc, block, valueSize)
  }

  /** Bytes taken by one closed block. */
  function BlockBytes(valueSize: nat): nat
  {
    RECORDS_PER_BLOCK * (valueSize + KEY_SIZE) + CRC_SIZE + (valueSize + KEY_SIZE)
  }

  /** Length of `Framed` for n records of `recordSize` bytes. */
  function FramedLength(n: nat, recordSize: nat): nat
  {
    n * recordSize + (n / RECORDS_PER_BLOCK) * (CRC_SIZE + recordSize)
  }

  /** Number of blocks the buffer holds: about 4 MiB of records, at least one block. */
  function Blocks(valueSize: nat): nat
  {
    Max(1, FOUR_MB / (valueSize + KEY_SIZE) / RECORDS_PER_BLOCK)
  }

  function MaxRecords(valueSize: nat): nat
  {
    Blocks(valueSize) * RECORDS_PER_BLOCK
  }

  /** Size of the backing array. */
  function Capacity(valueSize: nat): nat
  {
    Blocks(valueSize) * BlockBytes(valueSize)
  }

  /** Number of filler records flush adds to complete the open block. */
  function PadCount(n: nat): nat
  {
    (RECORDS_PER_BLOCK - n % RECORDS_PER_BLOCK) % RECORDS_PER_BLOCK
  }

  /** The records a flush of `recs` writes: the open block is completed with
      copies of the last record. */
  function Padded(recs: seq<Record>): seq<Record>
    requires recs != []
  {
    recs + seq(PadCount(|recs|), _ => recs[|recs| - 1])
  }

  /** The padded records fill whole blocks, start with the records, and
      repeat the last record after them. */
  lemma PaddedShape(recs: seq<Record>)
    requires recs != []
    ensures var p := Padded(recs);
      && |p| % RECORDS_PER_BLOCK == 0 && |recs| <= |p| < |recs| + RECORDS_PER_BLOCK
      && p[..|recs|] == recs
      && forall i :: |recs| <= i < |p| ==> p[i] == recs[|recs| - 1]
  {
    var n := |recs|;
    assert (n + PadCount(n)) % RECORDS_PER_BLOCK == 0;
  }

  // ---------------------------------------------------------------------
  // Sequences of records as bytes

  lemma {:induction false} RecordsBytesLength(recs: seq<Record>, valueSize: nat)
    requires Sized(recs, valueSize)
    ensures |RecordsBytes(recs)| == |recs| * (valueSize + KEY_SIZE)
  {
    if recs != [] {
      var init := recs[..|recs| - 1];
      assert Sized(init, valueSize) by {
        forall i | 0 <= i < |init| ensures |init[i].value| == valueSize {
          assert init[i] == recs[i];
        }
      }
      RecordsBytesLength(init, valueSize);
      var rs := valueSize + KEY_SIZE;
      assert |RecordBytes(recs[|recs| - 1])| == rs;
      MulPred(|recs|, rs);
    }
  }

  lemma MulPred(n: nat, rs: nat)
    requires n > 0
    ensures (n - 1) * rs + rs == n * rs
  {
  }

  lemma {:induction false} RecordsBytesAppend(a: seq<Record>, b: seq<Record>)
    ensures RecordsBytes(a + b) == RecordsBytes(a) + RecordsBytes(b)
    decreases |b|
  {
    if b == [] {
      assert a + b == a;
    } else {
      var ab, b' := a + b, b[..|b| - 1];
      assert ab[..|ab| - 1] == a + b' && ab[|ab| - 1] == b[|b| - 1];
      RecordsBytesAppend(a, b');
      assert RecordsBytes(ab) == RecordsBytes(a + b') + RecordBytes(b[|b| - 1]);
    }
  }

  lemma SizedSlice(recs: seq<Record>, valueSize: nat, i: nat, j: nat)
    requires Sized(recs, valueSize) && i <= j <= |recs|
    ensures Sized(recs[i..j], valueSize)
  {
    forall k | 0 <= k < j - i ensures |recs[i..j][k].value| == valueSize {
      assert recs[i..j][k] == recs[i + k];
    }
  }

  // ---------------------------------------------------------------------
  // Framing

  lemma TakeAppend<T>(s: seq<T>, t: seq<T>, c: nat)
    requires c <= |s|
    ensures (s + t)[..c] == s[..c]
  {
  }

  /** The bytes of `s[c..]` are those of its init followed by its last record. */
  lemma DropInit(s: seq<Record>, c: nat)
    requires c < |s|
    ensures RecordsBytes(s[c..]) == RecordsBytes(s[..|s| - 1][c..]) + RecordBytes(s[|s| - 1])
  {
    var open := s[c..];
    assert open[..|open| - 1] == s[..|s| - 1][c..];
  }

  lemma SeqAssoc<T>(a: seq<T>, b: seq<T>, c: seq<T>)
    ensures (a + b) + c == a + (b + c)
  {
  }

  /** Where the open block starts: on a block boundary, at most 127 records back. */
  lemma OpenStartFacts(n: nat)
    ensures OpenStart(n) <= n && n - OpenStart(n) == n % RECORDS_PER_BLOCK
    ensures OpenStart(n) % RECORDS_PER_BLOCK == 0 && OpenStart(n) / RECORDS_PER_BLOCK == n / RECORDS_PER_BLOCK
  {
    DivModUnique(OpenStart(n), RECORDS_PER_BLOCK, n / RECORDS_PER_BLOCK, 0);
  }

  /** Removing the last block of a whole number of blocks. */
  lemma DropBlock(n: nat)
    requires n % RECORDS_PER_BLOCK == 0 && n >= RECORDS_PER_BLOCK
    ensures (n - RECORDS_PER_BLOCK) % RECORDS_PER_BLOCK == 0
    ensures (n - RECORDS_PER_BLOCK) / RECORDS_PER_BLOCK == n / RECORDS_PER_BLOCK - 1
  {
    DivModUnique(n - RECORDS_PER_BLOCK, RECORDS_PER_BLOCK, n / RECORDS_PER_BLOCK - 1, 0);
  }

  /** Bytes taken by q closed blocks. */
  function BlocksLength(q: nat, valueSize: nat): nat
  {
    if q == 0 then 0 else BlocksLength(q - 1, valueSize) + BlockBytes(valueSize)
  }

  lemma {:induction false} BlocksLengthIs(q: nat, valueSize: nat)
    ensures BlocksLength(q, valueSize) == q * BlockBytes(valueSize)
  {
    if q > 0 {
      BlocksLengthIs(q - 1, valueSize);
      MulPred(q, BlockBytes(valueSize));
    }
  }

  lemma {:induction false} ClosedLength(crc: Bytes -> uint32, recs: seq<Record>, valueSize: nat)
    requires Sized(recs, valueSize) && |recs| % RECORDS_PER_BLOCK == 0
    ensures |Closed(crc, recs, valueSize)| == (|recs| / RECORDS_PER_BLOCK) * BlockBytes(valueSize)
  {
    ClosedBlocksLength(crc, recs, valueSize);
    BlocksLengthIs(|recs| / RECORDS_PER_BLOCK, valueSize);
  }

  lemma {:induction false} ClosedBlocksLength(crc: Bytes -> uint32, recs: seq<Record>, valueSize: nat)
    requires Sized(recs, valueSize) && |recs| % RECORDS_PER_BLOCK == 0
    ensures |Closed(crc, recs, valueSize)| == BlocksLength(|recs| / RECORDS_PER_BLOCK, valueSize)
    decreases |recs|
  {
    var n := |recs|;
    if n >= RECORDS_PER_BLOCK {
      SizedSlice(recs, valueSize, 0, n - RECORDS_PER_BLOCK);
      DropBlock(n);
      ClosedBlocksLength(crc, recs[..n - RECORDS_PER_BLOCK], valueSize);
      ClosedLengthStep(crc, recs, valueSize);
      var q := n / RECORDS_PER_BLOCK;
      assert q >= 1;
      assert BlocksLength(q, valueSize) == BlocksLength(q - 1, valueSize) + BlockBytes(valueSize);
    } else {
      assert n == 0;
    }
  }

  /** One more block adds BlockBytes bytes to the closed part. */
  lemma ClosedLengthStep(crc: Bytes -> uint32, recs: seq<Record>, valueSize: nat)
    requires Sized(recs, valueSize) && |recs| >= RECORDS_PER_BLOCK
    ensures |Closed(crc, recs, valueSize)|
      == |Closed(crc, recs[..|recs| - RECORDS_PER_BLOCK], valueSize)| + BlockBytes(valueSize)
  {
    var n := |recs|;
    SizedSlice(recs, valueSize, n - RECORDS_PER_BLOCK, n);
    BlockLength(crc, recs[n - RECORDS_PER_BLOCK..], valueSize);
  }

  /** One closed block takes BlockBytes bytes. */
  lemma BlockLength(crc: Bytes -> uint32, block: seq<Record>, valueSize: nat)
    requires Sized(block, valueSize) && |block| == RECORDS_PER_BLOCK
    ensures |RecordsBytes(block) + Trailer(crc, block, valueSize)| == BlockBytes(valueSize)
  {
    RecordsBytesLength(block, valueSize);
  }

  lemma FramedLengthOf(crc: Bytes -> uint32, recs: seq<Record>, valueSize: nat)
    requires Sized(recs, valueSize)
    ensures |Framed(crc, recs, valueSize)| == FramedLength(|recs|, valueSize + KEY_SIZE)
  {
    var n, c := |recs|, OpenStart(|recs|);
    OpenStartFacts(n);
    SizedSlice(recs, valueSize, 0, c);
    SizedSlice(recs, valueSize, c, n);
    ClosedLength(crc, recs[..c], valueSize);
    RecordsBytesLength(recs[c..], valueSize);
    FramedLengthSum(n, valueSize, |Closed(crc, recs[..c], valueSize)|, |RecordsBytes(recs[c..])|);
  }

  lemma FramedLengthSum(n: nat, valueSize: nat, closed: nat, open: nat)
    requires closed == (n / RECORDS_PER_BLOCK) * BlockBytes(valueSize)
    requires open == (n - OpenStart(n)) * (valueSize + KEY_SIZE)
    ensures closed + open == FramedLength(n, valueSize + KEY_SIZE)
  {
    OpenStartFacts(n);
    FramedLengthSplit(n, valueSize + KEY_SIZE);
  }

  /** On a block boundary the framing is the closed blocks alone. */
  lemma FramedWhole(crc: Bytes -> uint32, recs: seq<Record>, valueSize: nat)
    requires |recs| % RECORDS_PER_BLOCK == 0
    ensures Framed(crc, recs, valueSize) == Closed(crc, recs, valueSize)
  {
    assert recs[..|recs|] == recs;
    assert recs[|recs|..] == [];
  }

  lemma FramedLengthStep(n: nat, rs: nat)
    requires n > 0
    ensures FramedLength(n, rs) == FramedLength(n - 1, rs) + rs
      + if n % RECORDS_PER_BLOCK == 0 then CRC_SIZE + rs else 0
  {
    var q := (n - 1) / RECORDS_PER_BLOCK;
    assert n / RECORDS_PER_BLOCK == q + if n % RECORDS_PER_BLOCK == 0 then 1 else 0;
    MulPred(n, rs);
    if n % RECORDS_PER_BLOCK == 0 {
      assert (q + 1) * (CRC_SIZE + rs) == q * (CRC_SIZE + rs) + (CRC_SIZE + rs);
    }
  }

  /** The cursor splits into whole blocks plus the records of the open block. */
  lemma FramedLengthSplit(n: nat, rs: nat)
    ensures FramedLength(n, rs) == (n / RECORDS_PER_BLOCK) * (RECORDS_PER_BLOCK * rs + CRC_SIZE + rs)
                                   + (n % RECORDS_PER_BLOCK) * rs
  {
    var q, m := n / RECORDS_PER_BLOCK, n % RECORDS_PER_BLOCK;
    assert n == q * RECORDS_PER_BLOCK + m;
    calc {
      FramedLength(n, rs);
      (q * RECORDS_PER_BLOCK + m) * rs + q * (CRC_SIZE + rs);
      q * (RECORDS_PER_BLOCK * rs) + m * rs + q * (CRC_SIZE + rs);
      q * (RECORDS_PER_BLOCK * rs + CRC_SIZE + rs) + m * rs;
    }
  }

  /** The cursor modulo the block size tells how many records the open block holds. */
  lemma CursorInBlock(n: nat, rs: nat)
    requires rs > 0
    ensures FramedLength(n, rs) % (RECORDS_PER_BLOCK * rs + CRC_SIZE + rs) == (n % RECORDS_PER_BLOCK) * rs
  {
    var b := RECORDS_PER_BLOCK * rs + CRC_SIZE + rs;
    var q, m := n / RECORDS_PER_BLOCK, n % RECORDS_PER_BLOCK;
    FramedLengthSplit(n, rs);
    MulLe(m, RECORDS_PER_BLOCK - 1, rs);
    DivModUnique(FramedLength(n, rs), b, q, m * rs);
  }

  lemma DivModUnique(x: nat, b: nat, q: nat, r: nat)
    requires b > 0 && r < b && x == q * b + r
    ensures x % b == r && x / b == q
  {
    var q', r' := x / b, x % b;
    assert q' * b + r' == q * b + r;
    if q' < q {
      MulDiff(q, q', b);
      MulAtLeast(q - q', b);
    } else if q' > q {
      MulDiff(q', q, b);
      MulAtLeast(q' - q, b);
    }
  }

  lemma MulDiff(a: int, c: int, b: int)
    ensures a * b - c * b == (a - c) * b
  {
  }

  lemma MulAtLeast(d: int, b: nat)
    requires d >= 1
    ensures d * b >= b
  {
  }

  lemma MulLe(a: nat, b: nat, c: nat)
    requires a <= b
    ensures a * c <= b * c
  {
  }

  lemma FramedLengthMonotonic(n: nat, m: nat, rs: nat)
    requires n <= m
    ensures FramedLength(n, rs) <= FramedLength(m, rs)
  {
    assert n / RECORDS_PER_BLOCK <= m / RECORDS_PER_BLOCK;
    assert n * rs <= m * rs;
    assert (n / RECORDS_PER_BLOCK) * (CRC_SIZE + rs) <= (m / RECORDS_PER_BLOCK) * (CRC_SIZE + rs);
  }

  /** A full buffer is exactly the whole array. */
  lemma CapacityIsFramedLength(valueSize: nat)
    ensures FramedLength(MaxRecords(valueSize), valueSize + KEY_SIZE) == Capacity(valueSize)
  {
    var b := Blocks(valueSize);
    FramedLengthSplit(MaxRecords(valueSize), valueSize + KEY_SIZE);
    assert MaxRecords(valueSize) / RECORDS_PER_BLOCK == b;
    assert MaxRecords(valueSize) % RECORDS_PER_BLOCK == 0;
  }

  /** Fewer than one record of space is left exactly when maxRecords records are held. */
  lemma FullExactlyAtMax(n: nat, valueSize: nat)
    requires n <= MaxRecords(valueSize)
    ensures Capacity(valueSize) - FramedLength(n, valueSize + KEY_SIZE) < valueSize + KEY_SIZE
            <==> n == MaxRecords(valueSize)
  {
    var rs := valueSize + KEY_SIZE;
    var b := Blocks(valueSize);
    var bb := RECORDS_PER_BLOCK * rs + CRC_SIZE + rs;
    CapacityIsFramedLength(valueSize);
    if n < MaxRecords(valueSize) {
      var q, m := n / RECORDS_PER_BLOCK, n % RECORDS_PER_BLOCK;
      FramedLengthSplit(n, rs);
      assert q < b;
      assert Capacity(valueSize) == b * bb;
      MulDiff(b, q, bb);
      MulAtLeast(b - q, bb);
      MulLe(m, RECORDS_PER_BLOCK - 1, rs);
    }
  }

  /** Capacity is a whole number of blocks, at least one. */
  lemma CapacityIsWholeBlocks(valueSize: nat)
    ensures Capacity(valueSize) % BlockBytes(valueSize) == 0
    ensures Capacity(valueSize) >= BlockBytes(valueSize)
    ensures MaxRecords(valueSize) % RECORDS_PER_BLOCK == 0 && MaxRecords(valueSize) >= RECORDS_PER_BLOCK
  {
    DivModUnique(Capacity(valueSize), BlockBytes(valueSize), Blocks(valueSize), 0);
  }

  /** The eight buffer sizes the tests assert. */
  lemma WriteBufferSizes()
    ensures Capacity(10) == 4235400
    ensures Capacity(1) == 4252897
    ensures Capacity(36) == 4229316
    ensures Capacity(1024) == 4111096
    ensures Capacity(16 * 1024) == 2114056
    ensures Capacity(128 * 1024) == 16908808
    ensures Capacity(256 * 1024) == 33817096
    ensures Capacity(512 * 1024) == 67633672
  {
  }

  /** A full block of 128 records is written as the records, the CRC of their
      raw bytes, one sync record, and nothing further. */
  lemma FullBlockLayout(crc: Bytes -> uint32, recs: seq<Record>, valueSize: nat)
    requires |recs| == RECORDS_PER_BLOCK && Sized(recs, valueSize)
    ensures var w := Framed(crc, recs, valueSize);
      var rs := valueSize + KEY_SIZE;
      && |w| == RECORDS_PER_BLOCK * rs + CRC_SIZE + rs
      && w[..RECORDS_PER_BLOCK * rs] == RecordsBytes(recs)
      && w[RECORDS_PER_BLOCK * rs..RECORDS_PER_BLOCK * rs + CRC_SIZE] == Int32Bytes(crc(RecordsBytes(recs)))
      && GetInt(w[RECORDS_PER_BLOCK * rs + CRC_SIZE..]) == RESERVED_KEY_MARKER
      && w[RECORDS_PER_BLOCK * rs + CRC_SIZE + KEY_SIZE..] == seq(valueSize, _ => 0xFF)
  {
    var rs := valueSize + KEY_SIZE;
    RecordsBytesLength(recs, valueSize);
    var w := Framed(crc, recs, valueSize);
    var p, q, r := RecordsBytes(recs), Int32Bytes(crc(RecordsBytes(recs))), RecordBytes(SyncRecord(valueSize));
    FullBlockBytes(crc, recs, valueSize);
    Parts3(p, q, r);
    assert w[RECORDS_PER_BLOCK * rs + CRC_SIZE..] == r;
    SyncRecordLayout(valueSize);
  }

  /** Written out, a full block is its records, their CRC and the sync record. */
  lemma FullBlockBytes(crc: Bytes -> uint32, recs: seq<Record>, valueSize: nat)
    requires |recs| == RECORDS_PER_BLOCK
    ensures Framed(crc, recs, valueSize)
      == RecordsBytes(recs) + Int32Bytes(crc(RecordsBytes(recs))) + RecordBytes(SyncRecord(valueSize))
  {
    FramedWhole(crc, recs, valueSize);
    assert recs[0..] == recs;
    assert Closed(crc, recs[..0], valueSize) == [];
    SeqAssoc(RecordsBytes(recs), Int32Bytes(crc(RecordsBytes(recs))), RecordBytes(SyncRecord(valueSize)));
  }

  /** The sync record reads back as the reserved key followed by 0xFF bytes. */
  lemma SyncRecordLayout(valueSize: nat)
    ensures var r := RecordBytes(SyncRecord(valueSize));
      GetInt(r) == RESERVED_KEY_MARKER && r[KEY_SIZE..] == seq(valueSize, _ => 0xFF)
  {
    var r := RecordBytes(SyncRecord(valueSize));
    GetIntPrefix(r, Int32Bytes(RESERVED_KEY_MARKER));
    GetIntOfInt32Bytes(RESERVED_KEY_MARKER);
  }

  lemma Parts3<T>(p: seq<T>, q: seq<T>, r: seq<T>)
    ensures var x := p + q + r;
      && x[..|p|] == p && x[|p|..|p| + |q|] == q && x[|p| + |q|..] == r
  {
  }

  lemma SuffixOf<T>(a: seq<T>, l: seq<T>)
    ensures (a + l)[|a|..] == l
  {
  }

  /** The last record of the buffer sits in the last recordSize bytes before the cursor. */
  lemma LastRecordBytes(crc: Bytes -> uint32, recs: seq<Record>, valueSize: nat)
    requires Sized(recs, valueSize) && |recs| % RECORDS_PER_BLOCK != 0
    ensures var w := Framed(crc, recs, valueSize);
      |w| >= valueSize + KEY_SIZE && w[|w| - (valueSize + KEY_SIZE)..] == RecordBytes(recs[|recs| - 1])
  {
    var c := OpenStart(|recs|);
    OpenStartFacts(|recs|);
    DropInit(recs, c);
    var a, b, l := Closed(crc, recs[..c], valueSize), RecordsBytes(recs[..|recs| - 1][c..]), RecordBytes(recs[|recs| - 1]);
    SeqAssoc(a, b, l);
    SuffixOf(a + b, l);
    assert |l| == valueSize + KEY_SIZE;
  }

  /** The key and the value of a record that ends a byte sequence. */
  lemma TailRecordParts(w: Bytes, r: Record, rs: nat)
    requires |r.value| + KEY_SIZE == rs && |w| >= rs && w[|w| - rs..] == RecordBytes(r)
    ensures GetInt(w[|w| - rs..|w| - rs + KEY_SIZE]) == r.key && w[|w| - rs + KEY_SIZE..] == r.value
  {
    var t := w[|w| - rs..];
    assert w[|w| - rs..|w| - rs + KEY_SIZE] == t[..KEY_SIZE];
    assert w[|w| - rs + KEY_SIZE..] == t[KEY_SIZE..];
    LastRecordFields(t[..KEY_SIZE], t[KEY_SIZE..], r);
  }

  lemma AppendOpen(recs: seq<Record>, r: Record, c: nat)
    requires c <= |recs|
    ensures RecordsBytes((recs + [r])[c..]) == RecordsBytes(recs[c..]) + RecordBytes(r)
  {
    var s := recs + [r];
    DropInit(s, c);
    assert s[..|s| - 1] == recs;
  }

  /** What appending one more record to `before` does to the cursor: the record
      fits, and when it closes a block so do the CRC and the sync record. */
  lemma AppendRoom(crc: Bytes -> uint32, before: seq<Record>, rec: Record, valueSize: nat)
    requires Sized(before, valueSize) && NoMarkers(before) && |before| < MaxRecords(valueSize)
    requires |rec.value| == valueSize && rec.key != RESERVED_KEY_MARKER
    ensures var after := before + [rec];
      && Sized(after, valueSize) && NoMarkers(after) && |after| <= MaxRecords(valueSize)
      && |after| % RECORDS_PER_BLOCK
         == if |before| % RECORDS_PER_BLOCK == RECORDS_PER_BLOCK - 1 then 0 else |before| % RECORDS_PER_BLOCK + 1
    ensures var rs := valueSize + KEY_SIZE;
      var p := |Framed(crc, before, valueSize)|;
      && (|before| % RECORDS_PER_BLOCK != RECORDS_PER_BLOCK - 1 ==> p + rs <= Capacity(valueSize))
      && (|before| % RECORDS_PER_BLOCK == RECORDS_PER_BLOCK - 1 ==>
            p + rs >= RECORDS_PER_BLOCK * rs && p + rs + CRC_SIZE + rs <= Capacity(valueSize))
  {
    var after := before + [rec];
    assert Sized(after, valueSize) && NoMarkers(after) by {
      assert forall i :: 0 <= i < |before| ==> after[i] == before[i];
    }
    SuccMod(|before|);
    FramedLengthOf(crc, before, valueSize);
    AppendFits(|before|, valueSize);
  }

  /** Room for one more record below maxRecords, in cursor arithmetic. */
  lemma AppendFits(n: nat, valueSize: nat)
    requires n < MaxRecords(valueSize)
    ensures var rs := valueSize + KEY_SIZE;
      var p := FramedLength(n, rs);
      && (n % RECORDS_PER_BLOCK != RECORDS_PER_BLOCK - 1 ==> p + rs <= Capacity(valueSize))
      && (n % RECORDS_PER_BLOCK == RECORDS_PER_BLOCK - 1 ==>
            p + rs >= RECORDS_PER_BLOCK * rs && p + rs + CRC_SIZE + rs <= Capacity(valueSize))
  {
    var rs := valueSize + KEY_SIZE;
    FramedLengthStep(n + 1, rs);
    FramedLengthMonotonic(n + 1, MaxRecords(valueSize), rs);
    CapacityIsFramedLength(valueSize);
    CloseCondition(n, rs);
    SuccMod(n);
  }

  /** The record after the n-th lands on the end of a block's record area exactly
      when it is the block's 128th record. */
  lemma CloseCondition(n: nat, rs: nat)
    requires rs > 0
    ensures var p := FramedLength(n, rs);
      var bb := RECORDS_PER_BLOCK * rs + CRC_SIZE + rs;
      && ((p + rs) % bb == RECORDS_PER_BLOCK * rs <==> (n + 1) % RECORDS_PER_BLOCK == 0)
      && ((n + 1) % RECORDS_PER_BLOCK == 0 ==> p + rs >= RECORDS_PER_BLOCK * rs)
  {
    var bb := RECORDS_PER_BLOCK * rs + CRC_SIZE + rs;
    var q, m := n / RECORDS_PER_BLOCK, n % RECORDS_PER_BLOCK;
    FramedLengthSplit(n, rs);
    var p := FramedLength(n, rs);
    assert p + rs == q * bb + (m + 1) * rs;
    MulLe(m + 1, RECORDS_PER_BLOCK, rs);
    DivModUnique(p + rs, bb, q, (m + 1) * rs);
    MulCancel(m + 1, RECORDS_PER_BLOCK, rs);
    SuccMod(n);
    if m + 1 == RECORDS_PER_BLOCK {
      assert q * bb >= 0;
    }
  }

  lemma MulCancel(a: nat, b: nat, c: nat)
    requires c > 0
    ensures a * c == b * c <==> a == b
  {
    if a < b {
      MulDiff(b, a, c);
      MulAtLeast(b - a, c);
    } else if a > b {
      MulDiff(a, b, c);
      MulAtLeast(a - b, c);
    }
  }

  lemma SuccMod(n: nat)
    ensures (n + 1) % RECORDS_PER_BLOCK == 0 <==> n % RECORDS_PER_BLOCK == RECORDS_PER_BLOCK - 1
    ensures (n + 1) % RECORDS_PER_BLOCK
      == if n % RECORDS_PER_BLOCK == RECORDS_PER_BLOCK - 1 then 0 else n % RECORDS_PER_BLOCK + 1
  {
    var q, m := n / RECORDS_PER_BLOCK, n % RECORDS_PER_BLOCK;
    if m == RECORDS_PER_BLOCK - 1 {
      DivModUnique(n + 1, RECORDS_PER_BLOCK, q + 1, 0);
    } else {
      DivModUnique(n + 1, RECORDS_PER_BLOCK, q, m + 1);
    }
  }

  /** A record that does not close a block adds just its own bytes to the framing. */
  lemma AppendOpenBytes(crc: Bytes -> uint32, before: seq<Record>, rec: Record, valueSize: nat)
    requires (|before| + 1) % RECORDS_PER_BLOCK != 0
    ensures Framed(crc, before + [rec], valueSize) == Framed(crc, before, valueSize) + RecordBytes(rec)
  {
    var c := OpenStart(|before|);
    SuccMod(|before|);
    assert OpenStart(|before| + 1) == c;
    OpenStartFacts(|before|);
    TakeAppend(before, [rec], c);
    AppendOpen(before, rec, c);
    SeqAssoc(Closed(crc, before[..c], valueSize), RecordsBytes(before[c..]), RecordBytes(rec));
  }

  /** A record that closes a block adds its bytes, the CRC of the block's last 128
      records as they sit in the buffer, and the sync record. */
  lemma AppendClosingBytes(crc: Bytes -> uint32, before: seq<Record>, rec: Record, valueSize: nat)
    requires Sized(before + [rec], valueSize) && (|before| + 1) % RECORDS_PER_BLOCK == 0
    ensures var w := Framed(crc, before, valueSize) + RecordBytes(rec);
      var k := RECORDS_PER_BLOCK * (valueSize + KEY_SIZE);
      && |w| >= k
      && Framed(crc, before + [rec], valueSize)
         == w + Int32Bytes(crc(w[|w| - k..])) + RecordBytes(SyncRecord(valueSize))
  {
    var after := before + [rec];
    var c := OpenStart(|before|);
    SuccMod(|before|);
    OpenStartFacts(|before|);
    assert c == |after| - RECORDS_PER_BLOCK;
    var block := after[c..];
    FramedWhole(crc, after, valueSize);
    TakeAppend(before, [rec], c);
    AppendOpen(before, rec, c);
    var a, b, l := Closed(crc, before[..c], valueSize), RecordsBytes(before[c..]), RecordBytes(rec);
    SeqAssoc(a, b, l);
    SizedSlice(after, valueSize, c, |after|);
    RecordsBytesLength(block, valueSize);
    SuffixOf(a, b + l);
    var w := a + b + l;
    SeqAssoc(w, Int32Bytes(crc(RecordsBytes(block))), RecordBytes(SyncRecord(valueSize)));
  }

  // ---------------------------------------------------------------------
  // The buffer

  class WriteBuffer {
    const valueSize: nat
    const recordSize: nat
    const maxRecords: nat
    /** CRC-32 (IEEE 802.3) of a byte string, as java.util.zip.CRC32 computes it. */
    const crc: Bytes -> uint32
    const buffer: array<byte>
    /** The write cursor. */
    var position: nat
    var dirty: bool
    /** Records in the block that is still open. */
    var blockRecords: nat

    /** The caller's records since the last flush (filler copies included). */
    ghost var pending: seq<Record>
    /** Calls of add with a caller's key, and with the reserved key, since construction. */
    ghost var recordsAdded: nat
    ghost var syncMarkersAdded: nat

    ghost predicate Valid()
      reads this, buffer
    {
      && valueSize <= MAX_VALUE_SIZE
      && recordSize == valueSize + KEY_SIZE
      && maxRecords == MaxRecords(valueSize)
      && buffer.Length == Capacity(valueSize)
      && Sized(pending, valueSize)
      && NoMarkers(pending)
      && |pending| <= maxRecords
      && position <= buffer.Length
      && buffer[..position] == Framed(crc, pending, valueSize)
      && dirty == (pending != [])
      && blockRecords == |pending| % RECORDS_PER_BLOCK
    }

    constructor (valueSize: nat, crc: Bytes -> uint32)
      requires valueSize <= MAX_VALUE_SIZE
      ensures Valid() && fresh(buffer)
      ensures this.valueSize == valueSize && this.crc == crc
      ensures pending == [] && recordsAdded == 0 && syncMarkersAdded == 0
    {
      this.valueSize := valueSize;
      this.crc := crc;
      recordSize := valueSize + KEY_SIZE;
      maxRecords := MaxRecords(valueSize);
      buffer := new byte[Capacity(valueSize)];
      position := 0;
      dirty := false;
      blockRecords := 0;
      pending := [];
      recordsAdded := 0;
      syncMarkersAdded := 0;
    }

    function GetMaxRecords(): (n: nat)
      reads this, buffer
      requires Valid()
      ensures n == MaxRecords(valueSize)
      ensures n % RECORDS_PER_BLOCK == 0 && n >= RECORDS_PER_BLOCK
      ensures FramedLength(n, recordSize) == buffer.Length
    {
      CapacityIsWholeBlocks(valueSize);
      CapacityIsFramedLength(valueSize);
      maxRecords
    }

    function GetWriteBufferSize(): (n: nat)
      reads this, buffer
      requires Valid()
      ensures n == Capacity(valueSize)
      ensures n % BlockBytes(valueSize) == 0 && n >= BlockBytes(valueSize)
    {
      CapacityIsWholeBlocks(valueSize);
      buffer.Length
    }

    /** The backing storage, for reading records that are not flushed yet. */
    function Array(): (a: array<byte>)
      reads this, buffer
      requires Valid()
      ensures a.Length == Capacity(valueSize)
      ensures a[..position] == Framed(crc, pending, valueSize)
    {
      buffer
    }

    predicate IsDirty()
      reads this, buffer
      requires Valid()
      ensures IsDirty() <==> pending != []
    {
      dirty
    }

    predicate IsFull()
      reads this, buffer
      requires Valid()
      ensures IsFull() <==> |pending| == maxRecords
    {
      FramedLengthOf(crc, pending, valueSize);
      FullExactlyAtMax(|pending|, valueSize);
      buffer.Length - position < recordSize
    }

    /** Writes `bytes` at the cursor and advances it. */
    method Put(bytes: Bytes)
      requires position + |bytes| <= buffer.Length
      modifies this`position, buffer
      ensures position == old(position) + |bytes|
      ensures buffer[..position] == old(buffer[..position]) + bytes
    {
      forall i | 0 <= i < |bytes| {
        buffer[position + i] := bytes[i];
      }
      assert buffer[..position] == old(buffer[..position]);
      assert buffer[position..position + |bytes|] == bytes;
      assert buffer[..position + |bytes|] == buffer[..position] + buffer[position..position + |bytes|];
      position := position + |bytes|;
    }

    /** Writes the CRC of the block's 128 records, which end at the cursor, and the sync record. */
    method CloseBlock(ghost w: Bytes)
      requires position <= buffer.Length && buffer[..position] == w && recordSize == valueSize + KEY_SIZE
      requires |w| >= RECORDS_PER_BLOCK * recordSize && |w| + CRC_SIZE + recordSize <= buffer.Length
      modifies this`position, buffer
      ensures position == old(position) + CRC_SIZE + recordSize && position <= buffer.Length
      ensures buffer[..position]
        == w + Int32Bytes(crc(w[|w| - RECORDS_PER_BLOCK * recordSize..])) + RecordBytes(SyncRecord(valueSize))
    {
      var blockStart := position - RECORDS_PER_BLOCK * recordSize;
      assert buffer[blockStart..position] == w[|w| - RECORDS_PER_BLOCK * recordSize..];
      var sum := crc(buffer[blockStart..position]);
      Put(Int32Bytes(sum));
      // add(RESERVED_KEY_MARKER, all-0xFF value, 0)
      Put(RecordBytes(SyncRecord(valueSize)));
    }

    /** Appends one record and returns the offset of its first byte; the 128th
        record of a block also writes the block's CRC and the sync record. */
    method Add(key: int32, value: Bytes, valueOffset: nat) returns (address: nat)
      requires Valid() && !IsFull()
      requires key != RESERVED_KEY_MARKER
      requires valueOffset + valueSize <= |value|
      modifies this, buffer
      ensures Valid()
      ensures pending == old(pending) + [Record(key, value[valueOffset..valueOffset + valueSize])]
      ensures address == old(position)
      ensures address + recordSize <= position
      ensures buffer[address..address + recordSize] == RecordBytes(Record(key, value[valueOffset..valueOffset + valueSize]))
      ensures recordsAdded == old(recordsAdded) + 1
      ensures syncMarkersAdded == old(syncMarkersAdded) + if |pending| % RECORDS_PER_BLOCK == 0 then 1 else 0
      ensures blockRecords == if old(blockRecords) == RECORDS_PER_BLOCK - 1 then 0 else old(blockRecords) + 1
    {
      var rec := Record(key, value[valueOffset..valueOffset + valueSize]);
      if blockRecords == RECORDS_PER_BLOCK - 1 {
        address := AddClosing(rec);
      } else {
        address := AddOpen(rec);
      }
    }

    /** Add for a record that leaves its block open. */
    method AddOpen(rec: Record) returns (address: nat)
      requires Valid() && |pending| < maxRecords && blockRecords != RECORDS_PER_BLOCK - 1
      requires rec.key != RESERVED_KEY_MARKER && |rec.value| == valueSize
      modifies this, buffer
      ensures Valid() && pending == old(pending) + [rec]
      ensures address == old(position) && address + recordSize == position
      ensures buffer[address..address + recordSize] == RecordBytes(rec)
      ensures recordsAdded == old(recordsAdded) + 1 && syncMarkersAdded == old(syncMarkersAdded)
      ensures blockRecords == old(blockRecords) + 1
    {
      address := position;
      ghost var before := pending;
      AppendRoom(crc, before, rec, valueSize);
      AppendOpenBytes(crc, before, rec, valueSize);
      Put(RecordBytes(rec));
      PrefixSlice(buffer[..position], Framed(crc, before, valueSize), RecordBytes(rec));
      pending := before + [rec];
      dirty := true;
      recordsAdded := recordsAdded + 1;
      blockRecords := blockRecords + 1;
      assert buffer[..position] == Framed(crc, pending, valueSize);
    }

    /** Add for the 128th record of a block: the block's CRC and the sync
        record follow it. */
    method AddClosing(rec: Record) returns (address: nat)
      requires Valid() && |pending| < maxRecords && blockRecords == RECORDS_PER_BLOCK - 1
      requires rec.key != RESERVED_KEY_MARKER && |rec.value| == valueSize
      modifies this, buffer
      ensures Valid() && pending == old(pending) + [rec]
      ensures address == old(position) && address + recordSize <= position
      ensures buffer[address..address + recordSize] == RecordBytes(rec)
      ensures recordsAdded == old(recordsAdded) + 1 && syncMarkersAdded == old(syncMarkersAdded) + 1
      ensures blockRecords == 0
    {
      AppendRoom(crc, pending, rec, valueSize);
      address := WriteClosing(rec);
      pending := pending + [rec];
      dirty := true;
      recordsAdded := recordsAdded + 1;
      blockRecords := 0;
      syncMarkersAdded := syncMarkersAdded + 1;
    }

    /** The bytes AddClosing writes at the cursor: the record, then the
        block's CRC and the sync record. */
    method WriteClosing(rec: Record) returns (address: nat)
      requires recordSize == valueSize + KEY_SIZE && position <= buffer.Length
      requires buffer[..position] == Framed(crc, pending, valueSize)
      requires |rec.value| == valueSize && Sized(pending + [rec], valueSize)
      requires (|pending| + 1) % RECORDS_PER_BLOCK == 0
      requires position + recordSize >= RECORDS_PER_BLOCK * recordSize
      requires position + recordSize + CRC_SIZE + recordSize <= buffer.Length
      modifies this`position, buffer
      ensures address == old(position) && address + recordSize <= position <= buffer.Length
      ensures buffer[address..address + recordSize] == RecordBytes(rec)
      ensures buffer[..position] == Framed(crc, pending + [rec], valueSize)
    {
      address := position;
      ghost var f := Framed(crc, pending, valueSize);
      assert |f| == address;
      ghost var w := f + RecordBytes(rec);
      Put(RecordBytes(rec));
      CloseBlock(w);
      ClosingPlacement(crc, pending, rec, valueSize, recordSize, buffer[..position]);
      ArraySlice(buffer, position, address, address + recordSize);
    }

    /** Reads back the record just before the cursor. */
    method LastRecord() returns (key: int32, value: Bytes)
      requires Valid() && blockRecords != 0
      ensures pending != [] && key == pending[|pending| - 1].key && value == pending[|pending| - 1].value
    {
      ghost var w := buffer[..position];
      LastRecordBytes(crc, pending, valueSize);
      TailRecordParts(w, pending[|pending| - 1], recordSize);
      var recStart := position - recordSize;
      key := GetInt(buffer[recStart..recStart + KEY_SIZE]);
      value := buffer[recStart + KEY_SIZE..position];
      assert buffer[recStart..recStart + KEY_SIZE] == w[recStart..recStart + KEY_SIZE];
      assert value == w[recStart + KEY_SIZE..];
    }

    /** Appends a copy of the last record, read back from the buffer. */
    method RepeatLast()
      requires Valid() && blockRecords != 0
      modifies this, buffer
      ensures Valid()
      ensures pending == old(pending) + [old(pending)[|old(pending)| - 1]]
      ensures recordsAdded == old(recordsAdded) + 1
      ensures syncMarkersAdded == old(syncMarkersAdded) + if blockRecords == 0 then 1 else 0
      ensures blockRecords == if old(blockRecords) == RECORDS_PER_BLOCK - 1 then 0 else old(blockRecords) + 1
    {
      ghost var last := pending[|pending| - 1];
      PadRoom(pending, valueSize);
      var key, value := LastRecord();
      assert key != RESERVED_KEY_MARKER;
      var _ := Add(key, value, 0);
      assert value[0..valueSize] == value;
    }

    /** Completes the open block with copies of its last record. */
    method Pad()
      requires Valid() && blockRecords != 0
      modifies this, buffer
      ensures Valid() && blockRecords == 0
      ensures pending == Padded(old(pending))
      ensures recordsAdded == old(recordsAdded) + PadCount(|old(pending)|)
      ensures syncMarkersAdded == old(syncMarkersAdded) + 1
    {
      ghost var start := pending;
      ghost var last := start[|start| - 1];
      ghost var m0 := blockRecords;
      ghost var k := 0;
      assert pending == start + seq(0, _ => last);
      while blockRecords != 0
        invariant Valid()
        invariant pending == start + seq(k, _ => last)
        invariant if blockRecords == 0 then m0 + k == RECORDS_PER_BLOCK else blockRecords == m0 + k
        invariant recordsAdded == old(recordsAdded) + k
        invariant syncMarkersAdded == old(syncMarkersAdded) + if blockRecords == 0 then 1 else 0
        decreases if blockRecords == 0 then 0 else RECORDS_PER_BLOCK - blockRecords
      {
        assert pending[|pending| - 1] == last;
        RepeatLast();
        k := k + 1;
        PadExtend(start, k, last);
      }
      PadDone(start, m0, k, last);
    }

    /** Pads the open block with copies of its last record, hands out the
        buffered bytes and empties the buffer. An empty buffer writes nothing. */
    method Flush() returns (written: Bytes)
      requires Valid()
      modifies this, buffer
      ensures Valid() && pending == [] && !dirty
      ensures old(pending) == [] ==> written == []
      ensures old(pending) != [] ==> written == Framed(crc, Padded(old(pending)), valueSize)
      ensures old(pending) != [] ==> |written| % BlockBytes(valueSize) == 0
      ensures recordsAdded == old(recordsAdded) + if old(pending) == [] then 0 else PadCount(|old(pending)|)
      ensures syncMarkersAdded == old(syncMarkersAdded)
        + if old(pending) == [] || |old(pending)| % RECORDS_PER_BLOCK == 0 then 0 else 1
    {
      if !dirty {
        return [];
      }
      if blockRecords != 0 {
        Pad();
      } else {
        PaddedWhole(pending);
      }
      written := buffer[..position];
      WholeBlocksLength(crc, pending, valueSize);
      position := 0;
      dirty := false;
      pending := [];
    }
  }

  /** The bytes a closing add leaves in the buffer: the framing of the records
      with the new one appended, the new record sitting where the cursor was. */
  lemma ClosingPlacement(crc: Bytes -> uint32, before: seq<Record>, rec: Record, valueSize: nat, rs: nat, s: Bytes)
    requires Sized(before + [rec], valueSize) && (|before| + 1) % RECORDS_PER_BLOCK == 0
    requires |rec.value| == valueSize && rs == valueSize + KEY_SIZE
    requires var w := Framed(crc, before, valueSize) + RecordBytes(rec);
      |w| >= RECORDS_PER_BLOCK * rs
      && s == w + Int32Bytes(crc(w[|w| - RECORDS_PER_BLOCK * rs..])) + RecordBytes(SyncRecord(valueSize))
    ensures s == Framed(crc, before + [rec], valueSize)
    ensures var p := |Framed(crc, before, valueSize)|;
      p + rs <= |s| && s[p..p + rs] == RecordBytes(rec)
  {
    AppendClosingBytes(crc, before, rec, valueSize);
    var f, r := Framed(crc, before, valueSize), RecordBytes(rec);
    var w := f + r;
    Parts3(w, Int32Bytes(crc(w[|w| - RECORDS_PER_BLOCK * rs..])), RecordBytes(SyncRecord(valueSize)));
    PrefixSlice(w, f, r);
    assert s[|f|..|f| + |r|] == s[..|w|][|f|..|f| + |r|];
  }

  /** A slice of an array is that slice of any prefix holding it. */
  lemma ArraySlice(a: array<byte>, p: nat, i: nat, j: nat)
    requires i <= j <= p <= a.Length
    ensures a[i..j] == a[..p][i..j]
  {
  }

  lemma PrefixSlice(s: Bytes, a: Bytes, b: Bytes)
    requires s == a + b
    ensures s[|a|..|a| + |b|] == b
  {
  }

  /** Whole blocks fill a whole number of block lengths. */
  lemma WholeBlocksLength(crc: Bytes -> uint32, recs: seq<Record>, valueSize: nat)
    requires Sized(recs, valueSize) && |recs| % RECORDS_PER_BLOCK == 0
    ensures |Framed(crc, recs, valueSize)| % BlockBytes(valueSize) == 0
  {
    FramedLengthOf(crc, recs, valueSize);
    WholeBlocksArith(|recs|, valueSize);
  }

  lemma WholeBlocksArith(n: nat, valueSize: nat)
    requires n % RECORDS_PER_BLOCK == 0
    ensures FramedLength(n, valueSize + KEY_SIZE) % BlockBytes(valueSize) == 0
  {
    var rs := valueSize + KEY_SIZE;
    FramedLengthSplit(n, rs);
    DivModUnique(FramedLength(n, rs), BlockBytes(valueSize), n / RECORDS_PER_BLOCK, 0);
  }

  /** A buffer whose open block is not empty is not full. */
  lemma PadRoom(recs: seq<Record>, valueSize: nat)
    requires |recs| % RECORDS_PER_BLOCK != 0 && |recs| <= MaxRecords(valueSize)
    ensures |recs| < MaxRecords(valueSize)
  {
    CapacityIsWholeBlocks(valueSize);
  }

  /** The key and the value read back from a record's bytes. */
  lemma LastRecordFields(keyBytes: Bytes, valueBytes: Bytes, r: Record)
    requires |keyBytes| == KEY_SIZE && keyBytes + valueBytes == RecordBytes(r)
    ensures GetInt(keyBytes) == r.key && valueBytes == r.value
  {
    assert keyBytes == (keyBytes + valueBytes)[..KEY_SIZE];
    assert valueBytes == (keyBytes + valueBytes)[KEY_SIZE..];
    GetIntOfInt32Bytes(r.key);
  }

  lemma PadExtend(start: seq<Record>, k: nat, last: Record)
    requires k >= 1
    ensures (start + seq(k - 1, _ => last)) + [last] == start + seq(k, _ => last)
  {
    assert seq(k - 1, _ => last) + [last] == seq(k, _ => last);
  }

  /** When the open block is complete, the records are the padded ones. */
  lemma PadDone(start: seq<Record>, m0: nat, k: nat, last: Record)
    requires start != [] && last == start[|start| - 1] && m0 == |start| % RECORDS_PER_BLOCK
    requires (m0 == 0 && k == 0) || (m0 != 0 && m0 + k == RECORDS_PER_BLOCK)
    ensures start + seq(k, _ => last) == Padded(start)
    ensures k == PadCount(|start|)
  {
    PaddedShape(start);
    var p := Padded(start);
    var q := start + seq(k, _ => last);
    assert |p| == |q|;
    forall i | 0 <= i < |p| ensures p[i] == q[i] {
      if i < |start| {
        assert p[i] == p[..|start|][i];
      }
    }
  }

  /** A buffer that ends on a block boundary needs no padding. */
  lemma PaddedWhole(recs: seq<Record>)
    requires recs != [] && |recs| % RECORDS_PER_BLOCK == 0
    ensures Padded(recs) == recs
  {
    assert PadCount(|recs|) == 0;
    assert seq(0, _ => recs[|recs| - 1]) == [];
  }

  /** `new WriteBuffer(valueSize)`: value sizes above 512 KiB are refused. */
  method NewWriteBuffer(valueSize: nat, crc: Bytes -> uint32) returns (r: Result<WriteBuffer>)
    ensures r.Err? <==> valueSize > MAX_VALUE_SIZE
    ensures r.Err? ==> r.error == ValueSizeTooLarge
    ensures r.Ok? ==> fresh(r.value) && fresh(r.value.buffer) && r.value.Valid()
    ensures r.Ok? ==> r.value.valueSize == valueSize && r.value.crc == crc && r.value.pending == []
  {
    if valueSize > MAX_VALUE_SIZE {
      return Err(ValueSizeTooLarge);
    }
    var b := new WriteBuffer(valueSize, crc);
    return Ok(b);
  }
}
