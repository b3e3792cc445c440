/** The StormDB object: the index from key to record ordinal, the BitSets
    that say which file holds a key's record, the bytes of the files, the
    write buffer, and the operations put, get, iterate, compact, recovery
    and the constructor that reopens a database. Files are byte strings
    held in fields; a file that does not exist is None. */
module Engine {
  import opened Common
  import opened WriteBuffers
  import opened Scans
  import opened Indexing
  import opened Merging

  /** RecordUtil (not part of this model): `addressToIndex(recordSize,
      address, inWal)` turns a byte address into the int the index stores,
      and `indexToAddress` turns it back. */
  datatype Codec = Codec(addressToIndex: (nat, int, bool) -> int, indexToAddress: (nat, int, bool) -> int)

  /** `RecordUtil.addressToIndex`. */
  function AddressToIndex(codec: Codec, recordSize: nat, address: int, inWal: bool): int
  {
    codec.addressToIndex(recordSize, address, inWal)
  }

  /** `RecordUtil.indexToAddress`. */
  function IndexToAddress(codec: Codec, recordSize: nat, recordIndex: int, inWal: bool): int
  {
    codec.indexToAddress(recordSize, recordIndex, inWal)
  }

  /** The codec gives back every WAL address it encodes, and never encodes
      one as NO_MAPPING_FOUND. */
  ghost predicate WalRoundTrip(codec: Codec, recordSize: nat)
  {
    forall a: int :: a >= 0 ==>
      && IndexToAddress(codec, recordSize, AddressToIndex(codec, recordSize, a, true), true) == a
      && AddressToIndex(codec, recordSize, a, true) != NO_MAPPING_FOUND
  }

  /** Ordinal i in the data file is the record that starts at byte i * recordSize. */
  ghost predicate DataOrdinals(codec: Codec, recordSize: nat)
  {
    forall i: int :: IndexToAddress(codec, recordSize, i, false) == i * recordSize
  }

  /** The files in the database directory when it is opened; `walNext` and
      `dataNext` are wal.next and data.next, left behind by a compaction
      that did not finish. */
  datatype Disk = Disk(meta: Option<Bytes>, data: Option<Bytes>, wal: Option<Bytes>,
                       walNext: Option<Bytes>, dataNext: Option<Bytes>)

  /** The bytes of a file; a missing file reads as empty. */
  function Contents(file: Option<Bytes>): Bytes
  {
    if file.Some? then file.value else []
  }

  /** An existing file as a list of one file, a missing one as no file. */
  function Present(file: Option<Bytes>): seq<Bytes>
  {
    if file.Some? then [file.value] else []
  }

  /** The file after appending `w` to it; FileOutputStream creates a missing file. */
  function AppendTo(file: Option<Bytes>, w: Bytes): Option<Bytes>
  {
    if w == [] then file else Some(Contents(file) + w)
  }

  /** The WAL BitSets after BitSet.set(key) on the one in use: the BitSet of
      wal.next while a compaction runs, else that of wal; a negative key
      throws and changes neither. */
  function Marked(key: int32, inWal: set<int32>, inNextWal: Option<set<int32>>): (set<int32>, Option<set<int32>>)
  {
    if key < 0 then (inWal, inNextWal)
    else if inNextWal.Some? then (inWal, Some(inNextWal.value + {key}))
    else (inWal + {key}, inNextWal)
  }

  /** wal, wal.next and bytesInWalFile, the length of the WAL file walOut
      appends to. */
  datatype WalState = WalState(wal: Option<Bytes>, nextWal: Option<Bytes>, bytesInWalFile: int)

  /** The WAL files after walOut writes `written`: to wal.next while a
      compaction runs, else to wal. */
  function Flushed(s: WalState, written: Bytes): (t: WalState)
    ensures t.bytesInWalFile == s.bytesInWalFile + |written|
    ensures s.nextWal.Some? ==> t.wal == s.wal && Contents(t.nextWal) == Contents(s.nextWal) + written
    ensures s.nextWal.None? ==> t.nextWal == s.nextWal && Contents(t.wal) == Contents(s.wal) + written
  {
    if s.nextWal.Some? then WalState(s.wal, AppendTo(s.nextWal, written), s.bytesInWalFile + |written|)
    else WalState(AppendTo(s.wal, written), s.nextWal, s.bytesInWalFile + |written|)
  }

  // ---------------------------------------------------------------------
  // Reading one value

  /** The write-buffer path of randomGet as written: System.arraycopy from
      `offset`, the first byte of the record, which is its key. */
  function BufferReadAsWritten(buffer: Bytes, offset: int, valueSize: nat): Result<Option<Bytes>>
  {
    if offset < 0 || offset + valueSize > |buffer| then Err(ArrayBounds)
    else Ok(Some(buffer[offset..offset + valueSize]))
  }

  /** The write-buffer path as intended: the value after the record's key. */
  function BufferRead(buffer: Bytes, offset: int, valueSize: nat): Result<Option<Bytes>>
  {
    if offset < 0 || offset + KEY_SIZE + valueSize > |buffer| then Err(ArrayBounds)
    else Ok(Some(buffer[offset + KEY_SIZE..offset + KEY_SIZE + valueSize]))
  }

  /** Where a record's bytes sit in the buffer, BufferRead gives back its value. */
  lemma BufferReadRecord(buffer: Bytes, offset: nat, rec: Record)
    requires offset + KEY_SIZE + |rec.value| <= |buffer|
    requires buffer[offset..offset + KEY_SIZE + |rec.value|] == RecordBytes(rec)
    ensures BufferRead(buffer, offset, |rec.value|) == Ok(Some(rec.value))
  {
    var n := |rec.value|;
    assert buffer[offset + KEY_SIZE..offset + KEY_SIZE + n]
      == buffer[offset..offset + KEY_SIZE + n][KEY_SIZE..];
  }

  /** The bytes of `rec` sit in `buffer` from `offset` on. */
  predicate HoldsRecord(buffer: Bytes, offset: int, rec: Record)
  {
    0 <= offset && offset + KEY_SIZE + |rec.value| <= |buffer|
    && buffer[offset..offset + KEY_SIZE + |rec.value|] == RecordBytes(rec)
  }

  /** Where a record's bytes sit in the buffer, the source's copy gives back
      the first valueSize bytes of the record, starting with its key. */
  lemma BufferReadAsWrittenRecord(buffer: Bytes, offset: nat, rec: Record)
    requires HoldsRecord(buffer, offset, rec)
    ensures BufferReadAsWritten(buffer, offset, |rec.value|) == Ok(Some(RecordBytes(rec)[..|rec.value|]))
  {
    var n := |rec.value|;
    assert buffer[offset..offset + n] == buffer[offset..offset + KEY_SIZE + n][..n];
  }

  /** As written, the same record gives back its key bytes and the start of its value. */
  lemma BufferReadAsWrittenGivesKey(buffer: Bytes, offset: nat, rec: Record)
    requires KEY_SIZE <= |rec.value| && offset + KEY_SIZE + |rec.value| <= |buffer|
    requires buffer[offset..offset + KEY_SIZE + |rec.value|] == RecordBytes(rec)
    ensures BufferReadAsWritten(buffer, offset, |rec.value|)
      == Ok(Some(Int32Bytes(rec.key) + rec.value[..|rec.value| - KEY_SIZE]))
  {
    var n := |rec.value|;
    assert buffer[offset..offset + n] == buffer[offset..offset + KEY_SIZE + n][..n];
    assert RecordBytes(rec)[..n] == Int32Bytes(rec.key) + rec.value[..n - KEY_SIZE];
  }

  /** The smallest case: key 0 with value [1, 2, 3, 4] reads back as [0, 0, 0, 0]. */
  lemma BufferReadAsWrittenCounterexample()
    ensures var rec := Record(0, [1, 2, 3, 4]);
      && BufferReadAsWritten(RecordBytes(rec), 0, 4) == Ok(Some([0, 0, 0, 0]))
      && BufferRead(RecordBytes(rec), 0, 4) == Ok(Some(rec.value))
  {
    var rec := Record(0, [1, 2, 3, 4]);
    BufferReadAsWrittenGivesKey(RecordBytes(rec), 0, rec);
    BufferReadRecord(RecordBytes(rec), 0, rec);
  }

  /** The file path of randomGet: seek(address), readInt, compare it with
      the key, then read valueSize bytes. A missing file, a negative seek
      and a readInt past the end throw; a short value read is corruption. */
  function FileRead(file: Option<Bytes>, address: int, key: int32, valueSize: nat): Result<Option<Bytes>>
  {
    if file.None? then Err(IOFailure(FileMissing))
    else if address < 0 then Err(IOFailure(NegativeSeek))
    else if address + KEY_SIZE > |file.value| then Err(IOFailure(EndOfFile))
    else if GetInt(file.value[address..address + KEY_SIZE]) != key then Err(InconsistentData)
    else if address + KEY_SIZE + valueSize > |file.value| then Err(Corruption)
    else Ok(Some(file.value[address + KEY_SIZE..address + KEY_SIZE + valueSize]))
  }

  /** Reading at the first byte of a record of the file gives back its value. */
  lemma FileReadRecord(f: Bytes, address: nat, rec: Record)
    requires address + KEY_SIZE + |rec.value| <= |f|
    requires RecordAt(f, address, KEY_SIZE + |rec.value|) == rec
    ensures FileRead(Some(f), address, rec.key, |rec.value|) == Ok(Some(rec.value))
  {
  }

  /** The file path refuses a record whose stored key is another one
      (InconsistentDataException), and one whose key matches but whose value
      is cut short by the end of the file (a short read). */
  lemma FileReadErrors(f: Bytes, address: nat, stored: int32, key: int32, valueSize: nat)
    requires address + KEY_SIZE <= |f| && f[address..address + KEY_SIZE] == Int32Bytes(stored)
    ensures stored != key ==> FileRead(Some(f), address, key, valueSize) == Err(InconsistentData)
    ensures stored == key && |f| < address + KEY_SIZE + valueSize ==>
      FileRead(Some(f), address, key, valueSize) == Err(Corruption)
  {
    GetIntOfInt32Bytes(stored);
  }

  /** Record i of a data file written by compaction is read back at byte
      i * recordSize. */
  lemma DataRecordRead(kept: seq<Record>, i: nat, valueSize: nat)
    requires i < |kept| && Sized(kept, valueSize)
    ensures FileRead(Some(RecordsBytes(kept)), i * (valueSize + KEY_SIZE), kept[i].key, valueSize) == Ok(Some(kept[i].value))
  {
    var rs := valueSize + KEY_SIZE;
    RecordsBytesAt(kept, i, valueSize);
    FileReadRecord(RecordsBytes(kept), i * rs, kept[i]);
  }

  // ---------------------------------------------------------------------
  // The database

  class StormDB {
    const valueSize: nat
    const recordSize: nat
    /** The block buildIndex reads at a time. */
    const blockSize: nat
    const codec: Codec
    const writeBuffer: WriteBuffer

    var index: map<int32, int>
    var dataInWalFile: set<int32>
    /** Present from the start of a compaction to its end. */
    var dataInNextFile: Option<set<int32>>
    var dataInNextWalFile: Option<set<int32>>
    var bytesInWalFile: int
    /** walOut is open; it writes to wal.next while a compaction runs, else to wal. */
    var walOpen: bool
    var meta: Option<Bytes>
    var data: Option<Bytes>
    var wal: Option<Bytes>
    var nextWal: Option<Bytes>
    var nextData: Option<Bytes>
    /** A wal.next found on disk when the database was opened, which no
        field names: nothing reads it, and the next seal truncates it. */
    var leftoverWalNext: Option<Bytes>

    ghost predicate Ready()
      reads this`walOpen, this`wal, this`nextWal, writeBuffer, writeBuffer.buffer
    {
      && writeBuffer.Valid()
      && writeBuffer.valueSize == valueSize
      && Sizes()
      && (walOpen ==> nextWal.Some? || wal.Some?)
    }

    /** The sizes the constructor fixes; buildIndex reads in blocks of
        blockSize bytes. */
    ghost predicate Dimensions()
    {
      Sizes() && blockSize == BlockSize(recordSize)
    }

    /** The record sizes alone. */
    ghost predicate Sizes()
    {
      valueSize <= MAX_VALUE_SIZE && recordSize == valueSize + KEY_SIZE
    }

    /** An open database, as the constructor leaves it. */
    ghost predicate Valid()
      reads this`walOpen, this`wal, this`nextWal, this`bytesInWalFile, writeBuffer, writeBuffer.buffer
    {
      Ready() && walOpen && bytesInWalFile >= 0
    }

    constructor (valueSize: nat, writeBuffer: WriteBuffer, codec: Codec, disk: Disk)
      requires writeBuffer.Valid() && writeBuffer.valueSize == valueSize
      ensures Ready() && Dimensions() && !walOpen
      ensures this.valueSize == valueSize && this.writeBuffer == writeBuffer && this.codec == codec
      ensures index == map[] && dataInWalFile == {} && dataInNextFile.None? && dataInNextWalFile.None?
      ensures bytesInWalFile == -1
      ensures meta == disk.meta && data == disk.data && wal == disk.wal && nextWal.None? && nextData.None?
      ensures leftoverWalNext == disk.walNext
    {
      this.valueSize := valueSize;
      this.writeBuffer := writeBuffer;
      this.codec := codec;
      recordSize := valueSize + KEY_SIZE;
      blockSize := BlockSize(valueSize + KEY_SIZE);
      index := map[];
      dataInWalFile := {};
      dataInNextFile := None;
      dataInNextWalFile := None;
      bytesInWalFile := -1;
      walOpen := false;
      meta := disk.meta;
      data := disk.data;
      wal := disk.wal;
      nextWal := None;
      nextData := None;
      leftoverWalNext := disk.walNext;
    }

    /** The files iterate reads, newest first: wal.next while a compaction
        runs, then wal and data when they exist. */
    function Files(): seq<Bytes>
      reads this`nextWal, this`wal, this`data
    {
      Present(nextWal) + Present(wal) + Present(data)
    }

    /** What flush writes now: the buffered blocks, padded, when walOut is
        open and the buffer is dirty. */
    ghost function Pending(): Bytes
      reads this`walOpen, writeBuffer
    {
      if walOpen && writeBuffer.pending != [] then Framed(writeBuffer.crc, Padded(writeBuffer.pending), valueSize)
      else []
    }

    /** The WAL files and the length of the one walOut writes to. */
    function WalFiles(): WalState
      reads this`wal, this`nextWal, this`bytesInWalFile
    {
      WalState(wal, nextWal, bytesInWalFile)
    }

    /** randomGet. A key without a mapping reads as no value; a negative
        key with a mapping makes BitSet.get throw. A key marked in one of
        the WAL BitSets whose address is past the flushed bytes is read
        from the write buffer; otherwise the file is chosen in the order
        wal.next, data.next, wal, data. `corrected` picks the write-buffer
        path: false is the source's copy from the record's first byte
        (BufferReadAsWritten), true the corrected copy of its value
        (BufferRead). */
    function RandomGet(key: int32, corrected: bool): (r: Result<Option<Bytes>>)
      requires Sizes()
      reads this, writeBuffer, writeBuffer.buffer
      ensures Get(index, key) == NO_MAPPING_FOUND ==> r == Ok(None)
      ensures r.Ok? && r.value.Some? ==> |r.value.value| == valueSize
      ensures Get(index, key) != NO_MAPPING_FOUND && key < 0 ==> r == Err(NegativeBitIndex)
    {
      var recordIndex := Get(index, key);
      if recordIndex == NO_MAPPING_FOUND then Ok(None)
      else if key < 0 then Err(NegativeBitIndex)
      else
        var inNextWal := dataInNextWalFile.Some? && key in dataInNextWalFile.value;
        var inWal := inNextWal || key in dataInWalFile;
        var address := IndexToAddress(codec, recordSize, recordIndex, inWal);
        if inWal && address >= bytesInWalFile then
          if corrected then BufferRead(writeBuffer.buffer[..], address - bytesInWalFile, valueSize)
          else BufferReadAsWritten(writeBuffer.buffer[..], address - bytesInWalFile, valueSize)
        else
          var file :=
            if inNextWal then nextWal
            else if dataInNextFile.Some? && key in dataInNextFile.value then nextData
            else if key in dataInWalFile then wal
            else data;
          FileRead(file, address, key, valueSize)
    }

    /** put. The reserved key is refused before anything changes. A full
        buffer is flushed first; the record is added to the buffer, the
        index maps the key to its WAL address, and the key is marked in
        dataInNextWalFile during a compaction, else in dataInWalFile, where
        a negative key makes the BitSet throw after the index has changed.
        Before a flush, randomGet reads a put that returned normally from
        the write buffer: as written it gets the record's first valueSize
        bytes, the key and then the value cut short by four bytes; with the
        copy corrected it gets the value. */
    method Put(key: int32, value: Bytes, valueOffset: nat) returns (r: Result<()>, addressInBuffer: nat)
      requires Valid() && valueOffset + valueSize <= |value|
      modifies this`wal, this`nextWal, this`bytesInWalFile, this`index, this`dataInWalFile, this`dataInNextWalFile,
               writeBuffer, writeBuffer.buffer
      ensures Valid()
      ensures key == RESERVED_KEY_MARKER ==>
        r == Err(ReservedKey) && unchanged(this) && unchanged(writeBuffer) && writeBuffer.buffer[..] == old(writeBuffer.buffer[..])
      ensures key != RESERVED_KEY_MARKER ==> (r.Ok? <==> key >= 0) && (r.Err? ==> r.error == NegativeBitIndex)
      ensures key != RESERVED_KEY_MARKER ==>
        var full := |old(writeBuffer.pending)| == writeBuffer.maxRecords;
        && writeBuffer.pending == (if full then [] else old(writeBuffer.pending)) + [Record(key, value[valueOffset..valueOffset + valueSize])]
        && WalFiles() == (if full then Flushed(old(WalFiles()), old(Pending())) else old(WalFiles()))
        && index == old(index)[key := AddressToIndex(codec, recordSize, bytesInWalFile + addressInBuffer, true)]
        && (dataInWalFile, dataInNextWalFile) == Marked(key, old(dataInWalFile), old(dataInNextWalFile))
      ensures r.Ok? && WalRoundTrip(codec, recordSize) ==>
        && RandomGet(key, true) == Ok(Some(value[valueOffset..valueOffset + valueSize]))
        && RandomGet(key, false) == Ok(Some(RecordBytes(Record(key, value[valueOffset..valueOffset + valueSize]))[..valueSize]))
    {
      if key == RESERVED_KEY_MARKER {
        return Err(ReservedKey), 0;
      }
      r, addressInBuffer := PutRecord(key, value, valueOffset);
    }

    /** put past its reserved-key check: the buffer part, then the index part. */
    method PutRecord(key: int32, value: Bytes, valueOffset: nat) returns (r: Result<()>, addressInBuffer: nat)
      requires Valid() && key != RESERVED_KEY_MARKER && valueOffset + valueSize <= |value|
      modifies this`wal, this`nextWal, this`bytesInWalFile, this`index, this`dataInWalFile, this`dataInNextWalFile,
               writeBuffer, writeBuffer.buffer
      ensures Valid()
      ensures key != RESERVED_KEY_MARKER ==> (r.Ok? <==> key >= 0) && (r.Err? ==> r.error == NegativeBitIndex)
      ensures key != RESERVED_KEY_MARKER ==>
        var full := |old(writeBuffer.pending)| == writeBuffer.maxRecords;
        && writeBuffer.pending == (if full then [] else old(writeBuffer.pending)) + [Record(key, value[valueOffset..valueOffset + valueSize])]
        && WalFiles() == (if full then Flushed(old(WalFiles()), old(Pending())) else old(WalFiles()))
        && index == old(index)[key := AddressToIndex(codec, recordSize, bytesInWalFile + addressInBuffer, true)]
        && (dataInWalFile, dataInNextWalFile) == Marked(key, old(dataInWalFile), old(dataInNextWalFile))
      ensures r.Ok? && WalRoundTrip(codec, recordSize) ==>
        && RandomGet(key, true) == Ok(Some(value[valueOffset..valueOffset + valueSize]))
        && RandomGet(key, false) == Ok(Some(RecordBytes(Record(key, value[valueOffset..valueOffset + valueSize]))[..valueSize]))
    {
      addressInBuffer := AddToBuffer(key, value, valueOffset);
      r := IndexAndMark(key, addressInBuffer, Record(key, value[valueOffset..valueOffset + valueSize]));
    }

    /** The buffer part of put: flush when the buffer is full, then add the record. */
    method AddToBuffer(key: int32, value: Bytes, valueOffset: nat) returns (addressInBuffer: nat)
      requires Valid() && key != RESERVED_KEY_MARKER && valueOffset + valueSize <= |value|
      modifies this`wal, this`nextWal, this`bytesInWalFile, writeBuffer, writeBuffer.buffer
      ensures Valid() && unchanged(this`index, this`dataInWalFile, this`dataInNextWalFile)
      ensures var full := |old(writeBuffer.pending)| == writeBuffer.maxRecords;
        && writeBuffer.pending == (if full then [] else old(writeBuffer.pending)) + [Record(key, value[valueOffset..valueOffset + valueSize])]
        && WalFiles() == (if full then Flushed(old(WalFiles()), old(Pending())) else old(WalFiles()))
      ensures HoldsRecord(writeBuffer.buffer[..], addressInBuffer, Record(key, value[valueOffset..valueOffset + valueSize]))
    {
      if writeBuffer.IsFull() {
        Flush();
      }
      addressInBuffer := AppendRecord(key, value, valueOffset);
    }

    /** writeBuffer.add on a buffer with room: the record's bytes sit at the
        address it gives back. */
    method AppendRecord(key: int32, value: Bytes, valueOffset: nat) returns (addressInBuffer: nat)
      requires writeBuffer.Valid() && writeBuffer.valueSize == valueSize && Sizes()
      requires !writeBuffer.IsFull() && key != RESERVED_KEY_MARKER && valueOffset + valueSize <= |value|
      modifies writeBuffer, writeBuffer.buffer
      ensures writeBuffer.Valid()
      ensures writeBuffer.pending == old(writeBuffer.pending) + [Record(key, value[valueOffset..valueOffset + valueSize])]
      ensures HoldsRecord(writeBuffer.buffer[..], addressInBuffer, Record(key, value[valueOffset..valueOffset + valueSize]))
    {
      ghost var rec := Record(key, value[valueOffset..valueOffset + valueSize]);
      assert writeBuffer.valueSize == valueSize && writeBuffer.recordSize == recordSize;
      addressInBuffer := writeBuffer.Add(key, value, valueOffset);
      assert writeBuffer.pending == old(writeBuffer.pending) + [rec];
      assert writeBuffer.buffer[..][addressInBuffer..addressInBuffer + recordSize] == RecordBytes(rec);
    }

    /** The index part of put: index.put, then BitSet.set on the WAL BitSet in use. */
    method IndexAndMark(key: int32, addressInBuffer: nat, ghost rec: Record) returns (r: Result<()>)
      requires Valid() && rec.key == key && |rec.value| == valueSize && HoldsRecord(writeBuffer.buffer[..], addressInBuffer, rec)
      modifies this`index, this`dataInWalFile, this`dataInNextWalFile
      ensures Valid() && WalFiles() == old(WalFiles()) && writeBuffer.pending == old(writeBuffer.pending)
      ensures (r.Ok? <==> key >= 0) && (r.Err? ==> r.error == NegativeBitIndex)
      ensures index == old(index)[key := AddressToIndex(codec, recordSize, bytesInWalFile + addressInBuffer, true)]
      ensures (dataInWalFile, dataInNextWalFile) == Marked(key, old(dataInWalFile), old(dataInNextWalFile))
      ensures r.Ok? && WalRoundTrip(codec, recordSize) ==>
        RandomGet(key, true) == Ok(Some(rec.value)) && RandomGet(key, false) == Ok(Some(RecordBytes(rec)[..valueSize]))
    {
      var address := AddressToIndex(codec, recordSize, bytesInWalFile + addressInBuffer, true);
      index := index[key := address];
      if key < 0 {
        return Err(NegativeBitIndex);
      }
      if dataInNextWalFile.Some? {
        dataInNextWalFile := Some(dataInNextWalFile.value + {key});
      } else {
        dataInWalFile := dataInWalFile + {key};
      }
      r := Ok(());
      if WalRoundTrip(codec, recordSize) {
        ReadsBackFromBuffer(rec, addressInBuffer);
      }
    }

    /** A key marked in a WAL BitSet whose record sits unflushed in the
        write buffer is read from there: the corrected path gives back the
        record's value, the source's copy the record's first valueSize
        bytes, which start with the key. */
    lemma ReadsBackFromBuffer(rec: Record, addressInBuffer: nat)
      requires Sizes() && WalRoundTrip(codec, recordSize) && bytesInWalFile >= 0 && |rec.value| == valueSize
      requires rec.key >= 0 && (rec.key in dataInWalFile || (dataInNextWalFile.Some? && rec.key in dataInNextWalFile.value))
      requires Get(index, rec.key) == AddressToIndex(codec, recordSize, bytesInWalFile + addressInBuffer, true)
      requires HoldsRecord(writeBuffer.buffer[..], addressInBuffer, rec)
      ensures RandomGet(rec.key, true) == Ok(Some(rec.value))
      ensures RandomGet(rec.key, false) == Ok(Some(RecordBytes(rec)[..valueSize]))
    {
      BufferReadRecord(writeBuffer.buffer[..], addressInBuffer, rec);
      BufferReadAsWrittenRecord(writeBuffer.buffer[..], addressInBuffer, rec);
    }

    /** flush: when walOut is open and the buffer is dirty, the buffered
        blocks go to the end of wal.next during a compaction, else of wal,
        and bytesInWalFile grows by their length. */
    method Flush()
      requires Ready()
      modifies this`wal, this`nextWal, this`bytesInWalFile, writeBuffer, writeBuffer.buffer
      ensures Ready()
      ensures WalFiles() == Flushed(old(WalFiles()), old(Pending()))
      ensures old(walOpen) ==> writeBuffer.pending == []
      ensures !old(walOpen) || old(writeBuffer.pending) == [] ==>
        unchanged(writeBuffer) && writeBuffer.buffer[..] == old(writeBuffer.buffer[..])
    {
      if !walOpen || !writeBuffer.IsDirty() {
        return;
      }
      var written := writeBuffer.Flush();
      assert written == old(Pending());
      if nextWal.Some? {
        nextWal := Some(nextWal.value + written);
      } else {
        wal := Some(wal.value + written);
      }
      bytesInWalFile := bytesInWalFile + |written|;
    }

    /** iterate: the files newest first, each from its end in windows of
        IterateWindow bytes, each window walked back one record at a time; a
        key not met before (keysRead) goes to the consumer. The consumer's
        calls are the `out` of the result. */
    method Iterate() returns (s: Scan)
      requires Sizes()
      ensures s == ScanFiles(Files(), IterateWindow(recordSize), recordSize, [], {})
    {
      var files := Files();
      var window := (FOUR_MB / recordSize) * recordSize;
      IterateWindowWhole(recordSize);
      ghost var target := ScanFiles(files, window, recordSize, [], {});
      s := Scan([], {}, None);
      var i := 0;
      while i < |files|
        invariant i <= |files| && s.failed.None?
        invariant ScanFiles(files[i..], window, recordSize, s.out, s.seen) == target
      {
        assert files[i..][0] == files[i] && files[i..][1..] == files[i + 1..];
        s := ScanFileBack(files[i], window, recordSize, s.out, s.seen);
        if s.failed.Some? {
          return;
        }
        i := i + 1;
      }
    }

    /** buildIndex: the data file, or in a WAL context the WAL, is read from
        the start a block at a time; every whole record in a block puts its
        key into the index with the next ordinal (from 0 for this file) and,
        in a WAL context, marks the key in dataInWalFile, which throws for a
        negative key. A missing file changes nothing. */
    method BuildIndex(walContext: bool) returns (r: Result<()>)
      requires Dimensions()
      modifies this`index, this`dataInWalFile
      ensures var b := IndexRecords(Parsed(Contents(if walContext then wal else data), recordSize),
                                    Built(old(index), old(dataInWalFile), 0, None), walContext);
        && (index, dataInWalFile) == (b.index, b.bits)
        && (r.Err? <==> b.failed.Some?) && (r.Err? ==> r.error == NegativeBitIndex)
    {
      var file := if walContext then wal else data;
      ghost var start := Built(index, dataInWalFile, 0, None);
      if file.None? {
        assert Parsed([], recordSize) == [];
        return Ok(());
      }
      var f := file.value;
      var recordIndex := 0;
      var pos: nat := 0;
      ghost var done: nat := 0;
      MultipleBase(recordSize);
      while true
        invariant done <= pos <= |f| && Multiple(done, recordSize)
        invariant pos < |f| ==> done == pos
        invariant pos == |f| ==> done == AlignDown(|f|, recordSize)
        invariant Built(index, dataInWalFile, recordIndex, None) == IndexBytes(f, done, recordSize, start, walContext)
        decreases |f| - pos
      {
        var limit := ReadLimit(f, pos, blockSize);
        BlockSizeProgress(f, pos, recordSize);
        if limit == -1 {
          break;
        }
        var b, q := IndexBlock(f, pos, limit, recordSize, Built(index, dataInWalFile, recordIndex, None), walContext, start);
        index, dataInWalFile, recordIndex := b.index, b.bits, b.next;
        MultipleAdd(pos, q, recordSize);
        if b.failed.Some? {
          IndexBytesParsed(f, pos + q, recordSize, start, walContext);
          return Err(NegativeBitIndex);
        }
        BlockEnd(f, pos, limit, q, recordSize, blockSize);
        done := pos + q;
        pos := pos + limit;
      }
      IndexBytesParsed(f, done, recordSize, start, walContext);
      r := Ok(());
    }

    // -------------------------------------------------------------------
    // compact

    /** Step 1 of compact: flush; when nothing has reached the WAL since
        walOut was opened (bytesInWalFile == 0) compaction stops here.
        Otherwise the BitSets of the next generation start empty and walOut
        moves to a new, empty wal.next, with bytesInWalFile 0. */
    method Seal() returns (sealed: bool)
      requires Ready()
      modifies this`wal, this`nextWal, this`bytesInWalFile, this`walOpen, this`dataInNextFile, this`dataInNextWalFile,
               this`leftoverWalNext, writeBuffer, writeBuffer.buffer
      ensures Ready()
      ensures var w := Flushed(old(WalFiles()), old(Pending()));
        && (sealed <==> w.bytesInWalFile != 0)
        && (!sealed ==>
              && WalFiles() == w
              && (walOpen, dataInNextFile, dataInNextWalFile, leftoverWalNext) == old((walOpen, dataInNextFile, dataInNextWalFile, leftoverWalNext)))
        && (sealed ==>
              && WalFiles() == WalState(w.wal, Some([]), 0) && walOpen && leftoverWalNext.None?
              && (dataInNextFile, dataInNextWalFile) == (Some({}), Some({})))
      ensures old(walOpen) ==> writeBuffer.pending == []
      ensures !old(walOpen) || old(writeBuffer.pending) == [] ==>
        unchanged(writeBuffer) && writeBuffer.buffer[..] == old(writeBuffer.buffer[..])
    {
      Flush();
      if bytesInWalFile == 0 {
        return false;
      }
      dataInNextFile := Some({});
      dataInNextWalFile := Some({});
      nextWal := Some([]);
      leftoverWalNext := None;
      walOpen := true;
      bytesInWalFile := 0;
      sealed := true;
    }

    /** flushNext: the staged bytes, the records `recs`, go to the end of
        data.next; then, one record at a time, index.put(key,
        nextFileOffset++) and dataInNextFile.set(key), which throws for a
        negative key. It gives back the ordinal after the last record. The
        loop over the staged records is the one buildIndex runs over a
        block, marking. */
    method FlushNext(staged: Bytes, nextFileOffset: int, ghost recs: seq<Record>) returns (r: Result<int>)
      requires Sizes() && nextData.Some? && dataInNextFile.Some?
      requires staged == RecordsBytes(recs) && Sized(recs, valueSize)
      modifies this`nextData, this`index, this`dataInNextFile
      ensures nextData == Some(old(nextData.value) + staged)
      ensures var b := IndexRecords(recs, Built(old(index), old(dataInNextFile.value), nextFileOffset, None), true);
        && (index, dataInNextFile) == (b.index, Some(b.bits))
        && (r.Ok? <==> b.failed.None?) && (r.Ok? ==> r.value == b.next) && (r.Err? ==> r.error == NegativeBitIndex)
      ensures r.Ok? <==> NonNegative(recs)
    {
      nextData := Some(nextData.value + staged);
      var start := Built(index, dataInNextFile.value, nextFileOffset, None);
      IndexBytesNone(staged, recordSize, start, true);
      var b, q := IndexBlock(staged, 0, |staged|, recordSize, start, true, start);
      StagedIndex(recs, valueSize, q, start, b);
      index, dataInNextFile := b.index, Some(b.bits);
      if b.failed.Some? {
        return Err(NegativeBitIndex);
      }
      r := Ok(b.next);
    }

    /** Step 2 of compact: data.next is created empty; iterate hands every
        record to the consumer (Consume), and when iterate returns normally
        flushNext takes what is still staged. An exception from iterate
        loses what is staged and ends the step. */
    method Merge() returns (r: Result<()>)
      requires Sizes() && dataInNextFile.Some?
      modifies this`nextData, this`index, this`dataInNextFile
      ensures var m := MergeOf(old(Files()), valueSize, old(index), old(dataInNextFile.value));
        && (nextData, index, dataInNextFile) == (Some(RecordsBytes(m.kept)), m.built.index, Some(m.built.bits))
        && (r.Err? <==> m.scan.failed.Some?) && (r.Err? ==> r.error == m.scan.failed.value)
    {
      ghost var files := Files();
      ghost var m := MergeOf(files, valueSize, index, dataInNextFile.value);
      nextData := Some([]);
      var s := Iterate();
      MergeOfHanded(files, valueSize, index, dataInNextFile.value, s);
      ghost var n := if s.failed.Some? then Handed(|s.out|, Batch(recordSize)) else |s.out|;
      assert m.kept == s.out[..n];
      Consume(s.out, s.failed.None?, Batch(recordSize));
      assert [] + RecordsBytes(s.out[..n]) == RecordsBytes(m.kept);
      if s.failed.Some? {
        return Err(s.failed.value);
      }
      r := Ok(());
    }

    /** The consumer step 2 hands to iterate, applied to the records `out`
        iterate handed over: each record is staged (putInt(key), then the
        value) in a buffer that holds `batch` of them, and the buffer goes to
        flushNext whenever it is full; when iterate returned normally
        (`complete`) flushNext then takes what is left. flushNext does not
        throw, since iterate hands over no negative key. */
    method Consume(out: seq<Record>, complete: bool, batch: nat)
      requires Sizes() && nextData.Some? && dataInNextFile.Some? && Emitted(out, valueSize) && batch > 0
      modifies this`nextData, this`index, this`dataInNextFile
      ensures var n := if complete then |out| else Handed(|out|, batch);
        var b := IndexRecords(out[..n], Built(old(index), old(dataInNextFile.value), 0, None), true);
        (nextData, index, dataInNextFile) == (Some(old(nextData.value) + RecordsBytes(out[..n])), b.index, Some(b.bits))
    {
      ghost var start := Built(index, dataInNextFile.value, 0, None);
      ghost var before := nextData.value;
      var staged: seq<Record> := [];
      var nextFileOffset := 0;
      ghost var k: nat := 0;
      var i := 0;
      assert out[..0] == [] && RecordsBytes([]) == [] && before + [] == before;
      while i < |out|
        invariant k <= i <= |out| && k == Handed(i, batch) && staged == out[k..i]
        invariant Consumed(out, k, nextFileOffset, start, before)
      {
        assert out[k..i + 1] == staged + [out[i]];
        staged := staged + [out[i]];
        i := i + 1;
        if |staged| == batch {
          nextFileOffset := FlushStaged(out, k, i, staged, nextFileOffset, start, before);
          staged := [];
          k := i;
        }
      }
      if complete && |staged| != 0 {
        nextFileOffset := FlushStaged(out, k, i, staged, nextFileOffset, start, before);
        k := i;
      }
      assert out[..i] == out;
    }

    /** data.next, the index and dataInNextFile once the records out[..k]
        went through flushNext, starting from `start` and from data.next
        holding `before`; nextFileOffset is the next ordinal of data.next. */
    ghost predicate Consumed(out: seq<Record>, k: nat, nextFileOffset: int, start: Built, before: Bytes)
      reads this`nextData, this`index, this`dataInNextFile
      requires k <= |out|
    {
      var b := IndexRecords(out[..k], start, true);
      && (nextData, index, dataInNextFile, nextFileOffset) == (Some(before + RecordsBytes(out[..k])), b.index, Some(b.bits), b.next)
      && b.failed.None?
    }

    /** One flushNext of the staged records out[k..i] in Consume. */
    method FlushStaged(ghost out: seq<Record>, ghost k: nat, ghost i: nat, staged: seq<Record>, nextFileOffset: int,
                       ghost start: Built, ghost before: Bytes) returns (offset: int)
      requires Sizes() && Emitted(out, valueSize) && k <= i <= |out| && staged == out[k..i]
      requires Consumed(out, k, nextFileOffset, start, before)
      modifies this`nextData, this`index, this`dataInNextFile
      ensures Consumed(out, i, offset, start, before)
    {
      StagedFlush(out, k, i, valueSize, start);
      ghost var c := IndexRecords(out[..k], start, true);
      assert c == Built(index, dataInNextFile.value, nextFileOffset, None);
      ghost var done := RecordsBytes(out[..k]);
      var f := FlushNext(RecordsBytes(staged), nextFileOffset, staged);
      assert nextData.value == (before + done) + RecordsBytes(staged);
      assert (before + done) + RecordsBytes(staged) == before + (done + RecordsBytes(staged));
      offset := f.value;
    }

    /** Step 3 of compact: wal and data are renamed away and deleted, wal.next
        and data.next take their names (a missing one leaves the name
        missing), dataInWalFile becomes dataInNextWalFile, and no state of
        the next generation is left. */
    method Promote()
      requires dataInNextWalFile.Some?
      modifies this`wal, this`data, this`nextWal, this`nextData, this`dataInWalFile, this`dataInNextFile, this`dataInNextWalFile
      ensures (wal, data, dataInWalFile) == old((nextWal, nextData, dataInNextWalFile.value))
      ensures nextWal.None? && nextData.None? && dataInNextFile.None? && dataInNextWalFile.None?
    {
      wal, data := nextWal, nextData;
      dataInWalFile := dataInNextWalFile.value;
      dataInNextFile, dataInNextWalFile := None, None;
      nextWal, nextData := None, None;
    }

    /** compact: seal, merge, promote. An exception from iterate ends it
        after the seal, with data.next and the next BitSets as the merge
        left them. The merge reads the new, empty wal.next, the WAL as the
        seal's flush left it, and data. */
    method Compact() returns (r: Result<()>)
      requires Ready()
      modifies this`wal, this`data, this`nextWal, this`nextData, this`bytesInWalFile, this`walOpen, this`index,
               this`dataInWalFile, this`dataInNextFile, this`dataInNextWalFile, this`leftoverWalNext, writeBuffer, writeBuffer.buffer
      ensures Ready()
      ensures var w := Flushed(old(WalFiles()), old(Pending()));
        w.bytesInWalFile == 0 ==>
          && r.Ok? && WalFiles() == w
          && (index, dataInWalFile, dataInNextFile, dataInNextWalFile, data, nextData, walOpen, leftoverWalNext)
             == old((index, dataInWalFile, dataInNextFile, dataInNextWalFile, data, nextData, walOpen, leftoverWalNext))
      ensures var w := Flushed(old(WalFiles()), old(Pending()));
        w.bytesInWalFile != 0 ==>
          && bytesInWalFile == 0 && walOpen && leftoverWalNext.None?
          && MergedAndPromoted(w.wal, old(data), old(index), old(dataInWalFile), r)
      ensures old(walOpen) ==> writeBuffer.pending == []
      ensures !old(walOpen) || old(writeBuffer.pending) == [] ==>
        unchanged(writeBuffer) && writeBuffer.buffer[..] == old(writeBuffer.buffer[..])
    {
      ghost var w := Flushed(WalFiles(), Pending());
      ghost var data0, index0, bits0 := data, index, dataInWalFile;
      var sealed := Seal();
      if !sealed {
        return Ok(());
      }
      assert wal == w.wal && data == data0 && index == index0 && dataInWalFile == bits0;
      r := MergeAndPromote();
    }

    /** The state merge and promote leave after a seal, when the merge
        started from the WAL `wal0`, the data file `data0`, the index
        `index0` and the WAL BitSet `bits0`. The merge reads the empty
        wal.next, wal0 and data0. When it goes through, wal is empty, data
        holds the merged records and no next-generation state is left; an
        exception from iterate leaves wal0 and data0 in place, and data.next
        and dataInNextFile as the merge left them. */
    ghost predicate MergedAndPromoted(wal0: Option<Bytes>, data0: Option<Bytes>, index0: map<int32, int>,
                                      bits0: set<int32>, r: Result<()>)
      reads this`wal, this`data, this`nextWal, this`nextData, this`index,
            this`dataInWalFile, this`dataInNextFile, this`dataInNextWalFile
      requires Sizes()
    {
      var m := MergeOf([[]] + Present(wal0) + Present(data0), valueSize, index0, {});
      && (r.Err? <==> m.scan.failed.Some?) && (r.Err? ==> r.error == m.scan.failed.value)
      && index == m.built.index
      && (r.Ok? ==>
            && (wal, data, nextWal, nextData) == (Some([]), Some(RecordsBytes(m.kept)), None, None)
            && dataInWalFile == {} && dataInNextFile.None? && dataInNextWalFile.None?)
      && (r.Err? ==>
            && (wal, data, nextWal, nextData) == (wal0, data0, Some([]), Some(RecordsBytes(m.kept)))
            && dataInWalFile == bits0 && dataInNextFile == Some(m.built.bits) && dataInNextWalFile == Some({}))
    }

    /** Steps 2 and 3 of compact, once the seal opened an empty wal.next. */
    method MergeAndPromote() returns (r: Result<()>)
      requires Sizes() && nextWal == Some([]) && dataInNextFile == Some({}) && dataInNextWalFile == Some({})
      modifies this`wal, this`data, this`nextWal, this`nextData, this`index,
               this`dataInWalFile, this`dataInNextFile, this`dataInNextWalFile
      ensures MergedAndPromoted(old(wal), old(data), old(index), old(dataInWalFile), r)
    {
      assert Files() == [[]] + Present(wal) + Present(data);
      r := Merge();
      if r.Err? {
        return;
      }
      Promote();
    }

    // -------------------------------------------------------------------
    // reopening

    /** recover: the staged data file an interrupted compaction left behind
        (data.next, which the source's local names call a WAL) is appended
        to data, which is created when missing, FOUR_MB bytes at a time; the
        file is removed and compact runs. walOut is not open yet, so the seal
        always goes ahead. */
    method Recover(dataNext: Bytes) returns (r: Result<()>)
      requires Ready() && !walOpen && bytesInWalFile == -1
      requires nextWal.None? && nextData.None? && dataInNextFile.None? && dataInNextWalFile.None?
      modifies this`wal, this`data, this`nextWal, this`nextData, this`bytesInWalFile, this`walOpen, this`index,
               this`dataInWalFile, this`dataInNextFile, this`dataInNextWalFile, this`leftoverWalNext, writeBuffer, writeBuffer.buffer
      ensures Ready() && walOpen && bytesInWalFile == 0 && leftoverWalNext.None?
      ensures var m := MergeOf([[]] + Present(old(wal)) + [Contents(old(data)) + dataNext], valueSize, old(index), {});
        && (r.Err? <==> m.scan.failed.Some?) && (r.Err? ==> r.error == m.scan.failed.value)
        && index == m.built.index
        && (r.Ok? ==>
              && (wal, data, nextWal, nextData) == (Some([]), Some(RecordsBytes(m.kept)), None, None)
              && dataInWalFile == {} && dataInNextFile.None? && dataInNextWalFile.None?)
        && (r.Err? ==>
              (wal, data, nextWal, nextData) == (old(wal), Some(Contents(old(data)) + dataNext), Some([]), Some(RecordsBytes(m.kept))))
      ensures unchanged(writeBuffer) && writeBuffer.buffer[..] == old(writeBuffer.buffer[..])
    {
      var copy := AppendChunks(Contents(data), dataNext);
      data := Some(copy);
      assert Present(data) == [Contents(old(data)) + dataNext];
      r := Compact();
    }

    /** The constructor on an existing database: recover when data.next is
        left over, then buildIndex over data and over the WAL, each failure
        propagating. */
    method Load(dataNext: Option<Bytes>) returns (r: Result<()>)
      requires Ready() && Dimensions() && !walOpen && bytesInWalFile == -1 && index == map[] && dataInWalFile == {}
      requires nextWal.None? && nextData.None? && dataInNextFile.None? && dataInNextWalFile.None?
      modifies this`wal, this`data, this`nextWal, this`nextData, this`bytesInWalFile, this`walOpen, this`index,
               this`dataInWalFile, this`dataInNextFile, this`dataInNextWalFile, this`leftoverWalNext, writeBuffer, writeBuffer.buffer
      ensures Ready() && unchanged(writeBuffer) && writeBuffer.buffer[..] == old(writeBuffer.buffer[..])
      ensures leftoverWalNext == if dataNext.Some? then None else old(leftoverWalNext)
      ensures dataNext.None? ==>
        var d := IndexRecords(Parsed(Contents(old(data)), recordSize), Built(map[], {}, 0, None), false);
        var w := IndexRecords(Parsed(Contents(old(wal)), recordSize), Built(d.index, d.bits, 0, None), true);
        && (r.Err? <==> w.failed.Some?) && (r.Err? ==> r.error == NegativeBitIndex)
        && (index, dataInWalFile) == (w.index, w.bits)
        && (wal, data, nextWal, nextData, walOpen, bytesInWalFile) == old((wal, data, nextWal, nextData, walOpen, bytesInWalFile))
        && dataInNextFile.None? && dataInNextWalFile.None?
      ensures dataNext.Some? ==>
        var m := MergeOf([[]] + Present(old(wal)) + [Contents(old(data)) + dataNext.value], valueSize, map[], {});
        && (r.Err? <==> m.scan.failed.Some?) && (r.Err? ==> r.error == m.scan.failed.value)
        && (r.Ok? ==>
              && (wal, data, nextWal, nextData) == (Some([]), Some(RecordsBytes(m.kept)), None, None)
              && index == IndexRecords(Parsed(RecordsBytes(m.kept), recordSize), Built(m.built.index, {}, 0, None), false).index
              && dataInWalFile == {} && dataInNextFile.None? && dataInNextWalFile.None?
              && walOpen && bytesInWalFile == 0)
    {
      if dataNext.Some? {
        r := Recover(dataNext.value);
        if r.Err? {
          return;
        }
        IndexRecordsSpec(Parsed(Contents(data), recordSize), Built(index, {}, 0, None), false);
        assert Parsed([], recordSize) == [];
      }
      r := IndexFiles();
    }

    /** buildIndex(false) then buildIndex(true): the data file's keys, then
        the WAL's keys over them, marking the WAL's. The first never throws. */
    method IndexFiles() returns (r: Result<()>)
      requires Dimensions()
      modifies this`index, this`dataInWalFile
      ensures var d := IndexRecords(Parsed(Contents(data), recordSize), Built(old(index), old(dataInWalFile), 0, None), false);
        var w := IndexRecords(Parsed(Contents(wal), recordSize), Built(d.index, d.bits, 0, None), true);
        && (r.Err? <==> w.failed.Some?) && (r.Err? ==> r.error == NegativeBitIndex)
        && (index, dataInWalFile) == (w.index, w.bits)
    {
      IndexRecordsSpec(Parsed(Contents(data), recordSize), Built(index, dataInWalFile, 0, None), false);
      var indexed := BuildIndex(false);
      assert indexed.Ok?;
      r := BuildIndex(true);
    }

    /** The middle of the constructor: an existing meta file must hold the
        value size, and the database is then recovered and indexed; a new
        database gets a meta file holding the value size. */
    method Restore(dataNext: Option<Bytes>) returns (r: Result<()>)
      requires Ready() && Dimensions() && !walOpen && bytesInWalFile == -1 && index == map[] && dataInWalFile == {}
      requires nextWal.None? && nextData.None? && dataInNextFile.None? && dataInNextWalFile.None?
      modifies this`meta, this`wal, this`data, this`nextWal, this`nextData, this`bytesInWalFile, this`walOpen, this`index,
               this`dataInWalFile, this`dataInNextFile, this`dataInNextWalFile, this`leftoverWalNext, writeBuffer, writeBuffer.buffer
      ensures Ready() && unchanged(writeBuffer) && writeBuffer.buffer[..] == old(writeBuffer.buffer[..])
      ensures r.Ok? ==> nextWal.None? && nextData.None? && dataInNextFile.None? && dataInNextWalFile.None?
      ensures leftoverWalNext ==
        if old(meta).Some? && MetaMatches(old(meta).value, valueSize) && dataNext.Some? then None else old(leftoverWalNext)
      ensures old(meta).Some? && |old(meta).value| < 4 ==> r == Err(BufferUnderflow)
      ensures old(meta).Some? && |old(meta).value| >= 4 && !MetaMatches(old(meta).value, valueSize) ==>
        r == Err(IOFailure(ValueSizeMismatch))
      ensures old(meta).None? ==>
        && r.Ok? && meta == Some(Int32Bytes(valueSize))
        && (index, dataInWalFile, data, wal) == (map[], {}, old(data), old(wal))
      ensures old(meta).Some? && MetaMatches(old(meta).value, valueSize) && dataNext.None? ==>
        var d := IndexRecords(Parsed(Contents(old(data)), recordSize), Built(map[], {}, 0, None), false);
        var w := IndexRecords(Parsed(Contents(old(wal)), recordSize), Built(d.index, d.bits, 0, None), true);
        && (r.Err? <==> w.failed.Some?) && (r.Err? ==> r.error == NegativeBitIndex)
        && (index, dataInWalFile, meta, data, wal) == (w.index, w.bits, old(meta), old(data), old(wal))
      ensures old(meta).Some? && MetaMatches(old(meta).value, valueSize) && dataNext.Some? ==>
        var m := MergeOf([[]] + Present(old(wal)) + [Contents(old(data)) + dataNext.value], valueSize, map[], {});
        && (r.Err? <==> m.scan.failed.Some?) && (r.Err? ==> r.error == m.scan.failed.value)
        && (r.Ok? ==>
              && (meta, data, wal) == (old(meta), Some(RecordsBytes(m.kept)), Some([]))
              && index == IndexRecords(Parsed(RecordsBytes(m.kept), recordSize), Built(m.built.index, {}, 0, None), false).index
              && dataInWalFile == {})
    {
      if meta.None? {
        meta := Some(Int32Bytes(valueSize));
        return Ok(());
      }
      if |meta.value| < 4 {
        return Err(BufferUnderflow);
      }
      if GetInt(meta.value) != valueSize {
        return Err(IOFailure(ValueSizeMismatch));
      }
      r := Load(dataNext);
    }

    /** The end of the constructor: walOut opens the WAL for appending,
        creating it when missing, and bytesInWalFile takes its length; a
        length that is not a whole number of records throws. */
    method OpenWal() returns (r: Result<()>)
      requires Ready()
      modifies this`wal, this`walOpen, this`bytesInWalFile
      ensures Valid() && wal == Some(Contents(old(wal))) && bytesInWalFile == |Contents(old(wal))|
      ensures r.Ok? <==> Multiple(|Contents(old(wal))|, recordSize)
      ensures r.Err? ==> r.error == IOFailure(WalMisaligned)
    {
      wal := Some(Contents(wal));
      walOpen := true;
      bytesInWalFile := |wal.value|;
      if |wal.value| % recordSize != 0 {
        return Err(IOFailure(WalMisaligned));
      }
      r := Ok(());
    }

    /** The constructor after its first three lines: Restore, then OpenWal. */
    method Start(dataNext: Option<Bytes>) returns (r: Result<()>)
      requires Ready() && Dimensions() && !walOpen && bytesInWalFile == -1 && index == map[] && dataInWalFile == {}
      requires nextWal.None? && nextData.None? && dataInNextFile.None? && dataInNextWalFile.None?
      requires writeBuffer.pending == []
      modifies this`meta, this`wal, this`data, this`nextWal, this`nextData, this`bytesInWalFile, this`walOpen, this`index,
               this`dataInWalFile, this`dataInNextFile, this`dataInNextWalFile, this`leftoverWalNext, writeBuffer, writeBuffer.buffer
      ensures writeBuffer.pending == [] && unchanged(writeBuffer)
      ensures leftoverWalNext ==
        if old(meta).Some? && MetaMatches(old(meta).value, valueSize) && dataNext.Some? then None else old(leftoverWalNext)
      ensures old(meta).Some? && |old(meta).value| < 4 ==> r == Err(BufferUnderflow)
      ensures old(meta).Some? && |old(meta).value| >= 4 && !MetaMatches(old(meta).value, valueSize) ==>
        r == Err(IOFailure(ValueSizeMismatch))
      ensures old(meta).None? ==>
        && (r.Ok? <==> Multiple(|Contents(old(wal))|, recordSize))
        && (r.Err? ==> r.error == IOFailure(WalMisaligned))
        && (r.Ok? ==> (index, dataInWalFile, meta, data) == (map[], {}, Some(Int32Bytes(valueSize)), old(data)))
      ensures old(meta).Some? && MetaMatches(old(meta).value, valueSize) && dataNext.None? ==>
        var d := IndexRecords(Parsed(Contents(old(data)), recordSize), Built(map[], {}, 0, None), false);
        var w := IndexRecords(Parsed(Contents(old(wal)), recordSize), Built(d.index, d.bits, 0, None), true);
        && (r.Ok? <==> w.failed.None? && Multiple(|Contents(old(wal))|, recordSize))
        && (r.Err? ==> r.error == if w.failed.Some? then NegativeBitIndex else IOFailure(WalMisaligned))
        && (r.Ok? ==> (index, dataInWalFile, meta, data) == (w.index, w.bits, old(meta), old(data)))
      ensures old(meta).Some? && MetaMatches(old(meta).value, valueSize) && dataNext.Some? ==>
        var m := MergeOf([[]] + Present(old(wal)) + [Contents(old(data)) + dataNext.value], valueSize, map[], {});
        && (r.Err? <==> m.scan.failed.Some?) && (r.Err? ==> r.error == m.scan.failed.value)
        && (r.Ok? ==>
              && (meta, data, wal) == (old(meta), Some(RecordsBytes(m.kept)), Some([]))
              && index == IndexRecords(Parsed(RecordsBytes(m.kept), recordSize), Built(m.built.index, {}, 0, None), false).index
              && dataInWalFile == {})
      ensures r.Ok? ==>
        && Valid()
        && wal == Some(Contents(if old(meta).Some? && dataNext.Some? then Some([]) else old(wal)))
        && bytesInWalFile == |Contents(wal)|
        && nextWal.None? && nextData.None? && dataInNextFile.None? && dataInNextWalFile.None?
    {
      r := Restore(dataNext);
      if r.Err? {
        return;
      }
      r := OpenWal();
    }

    /** After a compaction that went through, randomGet reads every record
        of data.next back from data once the codec maps ordinals to their
        records: the index holds the record's ordinal, no WAL BitSet holds
        its key, and the record sits at ordinal * recordSize. */
    lemma ReadAfterCompaction(kept: seq<Record>, i: nat)
      requires Sizes() && DataOrdinals(codec, recordSize)
      requires dataInWalFile == {} && dataInNextFile.None? && dataInNextWalFile.None?
      requires data == Some(RecordsBytes(kept)) && Sized(kept, valueSize)
      requires i < |kept| && kept[i].key >= 0 && Get(index, kept[i].key) == i
      ensures RandomGet(kept[i].key, false) == Ok(Some(kept[i].value))
      ensures RandomGet(kept[i].key, true) == Ok(Some(kept[i].value))
    {
      ReadsFromData(kept[i].key, i, false);
      ReadsFromData(kept[i].key, i, true);
      assert IndexToAddress(codec, recordSize, i, false) == i * recordSize;
      DataRecordRead(kept, i, valueSize);
    }

    /** Which file randomGet reads for a mapped key whose record is not in
        the write buffer: wal.next first, then data.next, then wal, then
        data. The address is decoded as a WAL address exactly when a WAL
        BitSet marks the key, so a key marked both in data.next and in wal
        is read from data.next at its WAL decoding. */
    lemma RandomGetRouting(key: int32, corrected: bool)
      requires Sizes() && key >= 0 && Get(index, key) != NO_MAPPING_FOUND
      ensures var walAddress := IndexToAddress(codec, recordSize, Get(index, key), true);
        dataInNextWalFile.Some? && key in dataInNextWalFile.value && walAddress < bytesInWalFile ==>
          RandomGet(key, corrected) == FileRead(nextWal, walAddress, key, valueSize)
      ensures var walAddress := IndexToAddress(codec, recordSize, Get(index, key), true);
        var dataAddress := IndexToAddress(codec, recordSize, Get(index, key), false);
        !(dataInNextWalFile.Some? && key in dataInNextWalFile.value)
        && dataInNextFile.Some? && key in dataInNextFile.value ==>
          if key in dataInWalFile then
            walAddress < bytesInWalFile ==> RandomGet(key, corrected) == FileRead(nextData, walAddress, key, valueSize)
          else RandomGet(key, corrected) == FileRead(nextData, dataAddress, key, valueSize)
      ensures var walAddress := IndexToAddress(codec, recordSize, Get(index, key), true);
        !(dataInNextWalFile.Some? && key in dataInNextWalFile.value)
        && !(dataInNextFile.Some? && key in dataInNextFile.value)
        && key in dataInWalFile && walAddress < bytesInWalFile ==>
          RandomGet(key, corrected) == FileRead(wal, walAddress, key, valueSize)
      ensures var dataAddress := IndexToAddress(codec, recordSize, Get(index, key), false);
        !(dataInNextWalFile.Some? && key in dataInNextWalFile.value)
        && !(dataInNextFile.Some? && key in dataInNextFile.value)
        && key !in dataInWalFile ==>
          RandomGet(key, corrected) == FileRead(data, dataAddress, key, valueSize)
    {
    }

    /** A key in no BitSet, outside a compaction, is read from data at the
        address of its ordinal. */
    lemma ReadsFromData(key: int32, i: nat, corrected: bool)
      requires Sizes() && dataInWalFile == {} && dataInNextFile.None? && dataInNextWalFile.None?
      requires key >= 0 && Get(index, key) == i
      ensures RandomGet(key, corrected) == FileRead(data, IndexToAddress(codec, recordSize, i, false), key, valueSize)
    {
    }
  }

  /** What the constructor accepts in the meta file: its first four bytes
      read as an int equal to the value size. */
  predicate MetaMatches(meta: Bytes, valueSize: nat)
  {
    |meta| >= 4 && GetInt(meta) == valueSize
  }

  /** A meta file the constructor wrote for a new database is accepted when
      the database is reopened with the same value size. */
  lemma WrittenMetaMatches(valueSize: nat)
    requires valueSize <= MAX_VALUE_SIZE
    ensures MetaMatches(Int32Bytes(valueSize), valueSize)
  {
    GetIntOfInt32Bytes(valueSize);
  }

  /** The copy loop of recover: read up to FOUR_MB bytes, write them, until a
      read returns nothing. */
  method AppendChunks(target: Bytes, source: Bytes) returns (out: Bytes)
    ensures out == target + source
  {
    out := target;
    var copied := 0;
    while copied < |source|
      invariant copied <= |source| && out == target + source[..copied]
      decreases |source| - copied
    {
      var length := if |source| - copied < FOUR_MB then |source| - copied else FOUR_MB;
      assert source[..copied + length] == source[..copied] + source[copied..copied + length];
      out := out + source[copied..copied + length];
      copied := copied + length;
    }
    assert source[..copied] == source;
  }

  /** The constructor: a new write buffer (which refuses a value size over
      MAX_VALUE_SIZE); then, when a meta file exists, its value size must
      match and the database is recovered and indexed, and otherwise a meta
      file holding the value size is written; last the WAL is opened. The
      directory's files are `disk`; the checksum and the codec of ordinals
      are parameters. */
  method Open(valueSize: nat, disk: Disk, crc: Bytes -> uint32, codec: Codec) returns (r: Result<StormDB>)
    ensures valueSize > MAX_VALUE_SIZE ==> r == Err(ValueSizeTooLarge)
    ensures valueSize <= MAX_VALUE_SIZE && disk.meta.Some? && |disk.meta.value| < 4 ==> r == Err(BufferUnderflow)
    ensures valueSize <= MAX_VALUE_SIZE && disk.meta.Some? && |disk.meta.value| >= 4 && !MetaMatches(disk.meta.value, valueSize) ==>
      r == Err(IOFailure(ValueSizeMismatch))
    ensures valueSize <= MAX_VALUE_SIZE && disk.meta.None? ==>
      && (r.Ok? <==> Multiple(|Contents(disk.wal)|, valueSize + KEY_SIZE))
      && (r.Err? ==> r.error == IOFailure(WalMisaligned))
      && (r.Ok? ==>
            && r.value.index == map[] && r.value.dataInWalFile == {}
            && r.value.meta == Some(Int32Bytes(valueSize)) && r.value.data == disk.data)
    ensures valueSize <= MAX_VALUE_SIZE && disk.meta.Some? && MetaMatches(disk.meta.value, valueSize) && disk.dataNext.None? ==>
      var rs := valueSize + KEY_SIZE;
      var d := IndexRecords(Parsed(Contents(disk.data), rs), Built(map[], {}, 0, None), false);
      var w := IndexRecords(Parsed(Contents(disk.wal), rs), Built(d.index, d.bits, 0, None), true);
      && (r.Ok? <==> w.failed.None? && Multiple(|Contents(disk.wal)|, rs))
      && (r.Err? ==> r.error == if w.failed.Some? then NegativeBitIndex else IOFailure(WalMisaligned))
      && (r.Ok? ==>
            && r.value.index == w.index && r.value.dataInWalFile == w.bits
            && r.value.meta == disk.meta && r.value.data == disk.data)
    ensures valueSize <= MAX_VALUE_SIZE && disk.meta.Some? && MetaMatches(disk.meta.value, valueSize) && disk.dataNext.Some? ==>
      var m := MergeOf([[]] + Present(disk.wal) + [Contents(disk.data) + disk.dataNext.value], valueSize, map[], {});
      && (r.Err? <==> m.scan.failed.Some?) && (r.Err? ==> r.error == m.scan.failed.value)
      && (r.Ok? ==>
            && r.value.data == Some(RecordsBytes(m.kept)) && r.value.wal == Some([])
            && r.value.index == IndexRecords(Parsed(RecordsBytes(m.kept), valueSize + KEY_SIZE),
                                             Built(m.built.index, {}, 0, None), false).index
            && r.value.dataInWalFile == {} && r.value.meta == disk.meta)
    ensures r.Ok? ==>
      && fresh(r.value) && fresh(r.value.writeBuffer) && r.value.Valid() && r.value.Dimensions()
      && r.value.valueSize == valueSize && r.value.codec == codec
      && r.value.writeBuffer.crc == crc && r.value.writeBuffer.pending == []
      && r.value.wal == Some(Contents(if disk.meta.Some? && disk.dataNext.Some? then Some([]) else disk.wal))
      && r.value.bytesInWalFile == |Contents(r.value.wal)|
      && r.value.nextWal.None? && r.value.nextData.None?
      && r.value.dataInNextFile.None? && r.value.dataInNextWalFile.None?
      && r.value.leftoverWalNext == if disk.meta.Some? && disk.dataNext.Some? then None else disk.walNext
  {
    var made := NewWriteBuffer(valueSize, crc);
    if made.Err? {
      return Err(made.error);
    }
    var db := new StormDB(valueSize, made.value, codec, disk);
    var started := db.Start(disk.dataNext);
    if started.Err? {
      return Err(started.error);
    }
    r := Ok(db);
  }

  // ---------------------------------------------------------------------
  // The loops of iterate

  /** The middle loop of iterate over one file: while the file pointer is
      not zero, seek one window back (not below zero), read, and walk what
      was read. */
  method ScanFileBack(f: Bytes, window: nat, recordSize: nat, out: seq<Record>, seen: set<int32>) returns (s: Scan)
    requires window > 0 && KEY_SIZE <= recordSize
    ensures s == ScanFile(f, |f|, window, recordSize, out, seen)
  {
    ghost var target := ScanFile(f, |f|, window, recordSize, out, seen);
    s := Scan(out, seen, None);
    var fp: nat := |f|;
    while fp != 0
      invariant fp <= |f| && s.failed.None?
      invariant ScanFile(f, fp, window, recordSize, s.out, s.seen) == target
    {
      var pos := WindowStart(fp, window);
      var end := Min(pos + window, |f|);
      ghost var before := s;
      s := WalkWindow(f[pos..end], recordSize, s.out, s.seen);
      ScanFileThen(f, fp, window, recordSize, before.out, before.seen, pos, end, s);
      if s.failed.Some? {
        return;
      }
      fp := pos;
    }
  }

  /** The inner loop of iterate: the buffer is walked back from its limit;
      the position moves back a record (which throws below zero), the key is
      read, a negative key makes keysRead throw, a key not met before goes to
      the consumer and into keysRead. */
  method WalkWindow(w: Bytes, recordSize: nat, out: seq<Record>, seen: set<int32>) returns (s: Scan)
    requires KEY_SIZE <= recordSize
    ensures s == WalkBack(w, |w|, recordSize, out, seen)
  {
    ghost var target := WalkBack(w, |w|, recordSize, out, seen);
    var acc, keysRead := out, seen;
    var p: nat := |w|;
    while p != 0
      invariant p <= |w|
      invariant WalkBack(w, p, recordSize, acc, keysRead) == target
    {
      if p < recordSize {
        return Scan(acc, keysRead, Some(NegativePosition));
      }
      ghost var rec := RecordAt(w, p - recordSize, recordSize);
      WalkBackStep(w, p, recordSize, acc, keysRead, rec);
      p := p - recordSize;
      var key := GetInt(w[p..p + KEY_SIZE]);
      if key < 0 {
        return Scan(acc, keysRead, Some(NegativeBitIndex));
      }
      if key !in keysRead {
        acc := acc + [Record(key, w[p + KEY_SIZE..p + recordSize])];
        keysRead := keysRead + {key};
      } else {
        assert acc + New(rec, keysRead) == acc && keysRead + {key} == keysRead;
      }
    }
    return Scan(acc, keysRead, None);
  }

  // ---------------------------------------------------------------------
  // The steps of buildIndex

  /** The inner loop of buildIndex over one block of `limit` bytes read at
      `pos` (byte q of the block is byte pos + q of the file), from the walk
      `b0` so far: while a whole record remains, read its key, skip its
      value, index.put(key, ordinal), when marking BitSet.set(key), which
      throws for a negative key, and ordinal++. `q` is where it stopped. */
  method IndexBlock(f: Bytes, pos: nat, limit: nat, recordSize: nat, b0: Built, mark: bool, ghost start: Built)
    returns (b: Built, q: nat)
    requires KEY_SIZE <= recordSize && pos + limit <= |f|
    requires b0.failed.None? && b0 == IndexBytes(f, pos, recordSize, start, mark)
    ensures q <= limit && Multiple(q, recordSize) && b == IndexBytes(f, pos + q, recordSize, start, mark)
    ensures b.failed.None? ==> limit - q < recordSize
    ensures b.failed.Some? ==> b.failed == Some(NegativeBitIndex)
  {
    var index: map<int32, int>, bits: set<int32>, recordIndex: int := b0.index, b0.bits, b0.next;
    q := 0;
    MultipleBase(recordSize);
    while limit - q >= recordSize
      invariant q <= limit && Multiple(q, recordSize)
      invariant Built(index, bits, recordIndex, None) == IndexBytes(f, pos + q, recordSize, start, mark)
    {
      var key := GetInt(f[pos + q..pos + q + KEY_SIZE]);
      MultipleAdd(q, recordSize, recordSize);
      q := q + recordSize;
      index := index[key := recordIndex];
      if mark {
        if key < 0 {
          return Built(index, bits, recordIndex, Some(NegativeBitIndex)), q;
        }
        bits := bits + {key};
      }
      recordIndex := recordIndex + 1;
    }
    return Built(index, bits, recordIndex, None), q;
  }

  /** A block that is not the last is a whole block; the whole records of
      the last one end where the whole records of the file end. */
  lemma BlockEnd(f: Bytes, pos: nat, limit: nat, q: nat, recordSize: nat, blockSize: nat)
    requires 0 < recordSize && pos + limit <= |f| && Multiple(pos, recordSize) && Multiple(blockSize, recordSize)
    requires limit == blockSize || pos + limit == |f|
    requires q <= limit && Multiple(q, recordSize) && limit - q < recordSize
    ensures pos + limit < |f| ==> q == limit
    ensures pos + limit == |f| ==> pos + q == AlignDown(|f|, recordSize)
  {
    MultipleAdd(pos, q, recordSize);
    if pos + limit < |f| {
      if q < limit {
        MultipleGap(q, limit, recordSize);
      }
    } else {
      AlignDownUnique(|f|, pos + q, recordSize);
    }
  }
}
