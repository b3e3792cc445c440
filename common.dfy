/** Values shared by the write buffer and the engine: bytes, Java's 32-bit int,
    the big-endian int codec used by ByteBuffer.putInt/getInt, and the error
    kinds the engine raises. */
module Common {

  /** One byte, as an unsigned value. */
  type byte = x: int | 0 <= x < 0x100

  /** Java's `int`. */
  type int32 = x: int | -0x8000_0000 <= x < 0x8000_0000

  /** An unsigned 32-bit value, such as the one `java.util.zip.CRC32` returns. */
  type uint32 = x: int | 0 <= x < 0x1_0000_0000

  type Bytes = seq<byte>

  /** 0xffffffff read as a Java int: the sync marker, never a caller's key. */
  const RESERVED_KEY_MARKER: int32 := -1
  const KEY_SIZE: nat := 4

  datatype Option<T> = None | Some(value: T)

  /** The exceptions the modelled code throws. */
  datatype Error =
    | ReservedKey            // ReservedKeyException
    | ValueSizeTooLarge      // ValueSizeTooLargeException
    | InconsistentData       // InconsistentDataException: stored key differs
    | Corruption             // StormDBException: short value read
    | NegativeBitIndex       // IndexOutOfBoundsException from java.util.BitSet
    | NegativePosition       // IllegalArgumentException from ByteBuffer.position
    | BufferOverflow         // BufferOverflowException from a full ByteBuffer
    | BufferUnderflow        // BufferUnderflowException from ByteBuffer.getInt
    | ArrayBounds            // IndexOutOfBoundsException from System.arraycopy
    | IOFailure(kind: IOKind)
    | NoProgress             // a loop that reads zero bytes forever

  datatype IOKind =
    | FileMissing            // FileNotFoundException on open for reading
    | EndOfFile              // EOFException from readInt
    | NegativeSeek           // IOException from seek(-n)
    | ValueSizeMismatch      // meta file holds another value size
    | WalMisaligned          // "WAL file corrupted!"

  datatype Result<T> = Ok(value: T) | Err(error: Error)

  /** The four bytes ByteBuffer.putInt writes for `x` (big-endian, two's complement). */
  function Int32Bytes(x: int): (b: Bytes)
    ensures |b| == 4
  {
    var u := x % 0x1_0000_0000;
    [u / 0x100_0000, (u / 0x1_0000) % 0x100, (u / 0x100) % 0x100, u % 0x100]
  }

  /** The int ByteBuffer.getInt reads from the first four bytes of `b`. */
  function GetInt(b: Bytes): int32
    requires |b| >= 4
  {
    var u: int := b[0] as int * 0x100_0000 + b[1] as int * 0x1_0000 + b[2] as int * 0x100 + b[3] as int;
    if u >= 0x8000_0000 then u - 0x1_0000_0000 else u
  }

  /** getInt undoes putInt. */
  lemma GetIntOfInt32Bytes(x: int32)
    ensures GetInt(Int32Bytes(x)) == x
  {
    var u := x % 0x1_0000_0000;
    var b := Int32Bytes(x);
    assert b[0] as int * 0x100_0000 + b[1] as int * 0x1_0000 + b[2] as int * 0x100 + b[3] as int == u by {
      DigitsOf(u);
    }
    assert u == if x < 0 then x + 0x1_0000_0000 else x;
  }

  /** Only the first four bytes matter to getInt. */
  lemma GetIntPrefix(a: Bytes, b: Bytes)
    requires |a| >= 4 && |b| >= 4 && a[..4] == b[..4]
    ensures GetInt(a) == GetInt(b)
  {
    assert a[0] == a[..4][0] && a[1] == a[..4][1] && a[2] == a[..4][2] && a[3] == a[..4][3];
    assert b[0] == b[..4][0] && b[1] == b[..4][1] && b[2] == b[..4][2] && b[3] == b[..4][3];
  }

  lemma DigitsOf(u: nat)
    requires u < 0x1_0000_0000
    ensures (u / 0x100_0000) * 0x100_0000 + ((u / 0x1_0000) % 0x100) * 0x1_0000
            + ((u / 0x100) % 0x100) * 0x100 + u % 0x100 == u
  {
    var d0, r0 := u / 0x100, u % 0x100;
    assert u == d0 * 0x100 + r0;
    var d1, r1 := d0 / 0x100, d0 % 0x100;
    assert d0 == d1 * 0x100 + r1;
    var d2, r2 := d1 / 0x100, d1 % 0x100;
    assert d1 == d2 * 0x100 + r2;
    assert u / 0x1_0000 == d1;
    assert u / 0x100_0000 == d2;
  }

  function Max(a: int, b: int): int { if a < b then b else a }
  function Min(a: int, b: int): int { if a < b then a else b }
}
