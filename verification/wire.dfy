/** Byte-level building blocks shared by the three handshake codecs:
    the byte type, the error kinds, a result type, big-endian u16 fields
    and Go's `copy` into the front of a fixed-size array. */
module Wire {

  /** An unsigned 8-bit value. */
  type Byte = b: int | 0 <= b < 256

  /** Largest value a big-endian u16 length field can carry. */
  const MaxU16: nat := 0xFFFF

  /** The error values the handshake codecs return. */
  datatype Error =
    | InvalidPacket     // malformed input: bad magic, truncated, declared lengths past the end
    | ContentTooLong    // a field does not fit its u16 length prefix
    | BufferTooShort    // a message does not fit its fixed-capacity storage

  /** A value or the error that prevented it. */
  datatype Result<T> = Ok(value: T) | Err(error: Error)

  /** The `error` return of a Go method that returns nothing else: `Pass` is `nil`. */
  datatype Outcome = Pass | Fail(error: Error)

  /** Reads the two bytes of a big-endian u16 field. */
  function ReadBE16(hi: Byte, lo: Byte): (n: nat)
    ensures n <= MaxU16
    ensures n / 256 == hi && n % 256 == lo
  {
    hi * 256 + lo
  }

  /** Writes `n` as a big-endian u16 field (what `PutUint16` does with a value that fits). */
  function BE16(n: nat): (field: seq<Byte>)
    requires n <= MaxU16
    ensures |field| == 2
    ensures ReadBE16(field[0], field[1]) == n
  {
    [n / 256, n % 256]
  }

  /** Every two-byte field is the encoding of the value read from it. */
  lemma BE16OfRead(hi: Byte, lo: Byte)
    ensures BE16(ReadBE16(hi, lo)) == [hi, lo]
  {
  }

  /** Go's `uint8` addition: the sum of two bytes modulo 256. */
  function AddU8(a: Byte, b: Byte): (sum: Byte)
    ensures sum == (a + b) % 0x100
    ensures sum < a + b <==> a + b >= 0x100
  {
    if a + b < 0x100 then a + b else a + b - 0x100
  }

  /** Go's `uint16` addition: the sum of two u16 values modulo 65536. */
  function AddU16(a: nat, b: nat): (sum: nat)
    requires a <= MaxU16 && b <= MaxU16
    ensures sum == (a + b) % 0x1_0000
    ensures sum < a + b <==> a + b > MaxU16
    ensures a + b > MaxU16 ==> sum < a && sum < b
  {
    if a + b <= MaxU16 then a + b else a + b - 0x1_0000
  }

  /** Go's `copy(dst[:len(src)], src)`: the first `|src|` bytes of `dst` become `src`,
      the rest keep their previous values. */
  method CopyPrefix(dst: array<Byte>, src: seq<Byte>)
    requires |src| <= dst.Length
    modifies dst
    ensures dst[..] == src + old(dst[|src|..])
  {
    forall i | 0 <= i < |src| {
      dst[i] := src[i];
    }
  }
}
