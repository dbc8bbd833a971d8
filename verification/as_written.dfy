/** The two decoders of handshake.go with their fixed-width arithmetic exactly as
    written, next to the corrected `Proto.ParseConnect` and `Proto.ParseResult`.
    A run either returns (an error or the decoded fields) or panics with a slice
    index out of range. */
module AsWritten {
  import opened Wire
  import opened Proto

  /** How a call ends: with a return value, or with a Go runtime panic. */
  datatype Run<T> = Returns(result: Result<T>) | Panics

  // ---------------------------------------------------------------------------
  // Connect.Decode: slice offsets in uint16
  // ---------------------------------------------------------------------------

  /** Connect.Decode as written: the bounds check is done in `int`, but the slice
      offsets `4+msgLen` and `4+msgLen+signLen` are `uint16` sums and wrap modulo
      65536. A wrapped offset is smaller than the one before it, and Go panics on
      a slice whose low bound exceeds its high bound. */
  function ConnectDecodeAsWritten(buf: seq<Byte>): (run: Run<ConnectFields>)
    ensures |buf| < 4 ==> run == Returns(Err(InvalidPacket))
  {
    if |buf| < 4 then
      Returns(Err(InvalidPacket))
    else
      var msgLen := ReadBE16(buf[0], buf[1]);
      var signLen := ReadBE16(buf[2], buf[3]);
      if msgLen + signLen + 4 > |buf| then
        Returns(Err(InvalidPacket))
      else
        var keyEnd := AddU16(4, msgLen);
        var signEnd := AddU16(keyEnd, signLen);
        if keyEnd < 4 || signEnd < keyEnd then
          Panics
        else
          Returns(Ok(ConnectFields(buf[4..keyEnd], buf[keyEnd..signEnd])))
  }

  /** The written decoder panics exactly on the buffers whose declared fields
      (header included) reach 65536 bytes and fit in the buffer; on every other
      buffer it agrees with the corrected `ParseConnect`. */
  lemma ConnectDecodeCorrection(buf: seq<Byte>)
    ensures ConnectDecodeAsWritten(buf) == Panics <==>
      |buf| >= 4 && 0x1_0000 <= 4 + ReadBE16(buf[0], buf[1]) + ReadBE16(buf[2], buf[3]) <= |buf|
    ensures ConnectDecodeAsWritten(buf) != Panics ==> ConnectDecodeAsWritten(buf) == Returns(ParseConnect(buf))
  {
    if |buf| >= 4 {
      var msgLen := ReadBE16(buf[0], buf[1]);
      var signLen := ReadBE16(buf[2], buf[3]);
      if msgLen + signLen + 4 <= |buf| {
        var keyEnd := AddU16(4, msgLen);
        if msgLen + signLen + 4 <= MaxU16 {
          assert keyEnd == 4 + msgLen && AddU16(keyEnd, signLen) == 4 + msgLen + signLen;
        } else if 4 + msgLen <= MaxU16 {
          assert keyEnd == 4 + msgLen && AddU16(keyEnd, signLen) < keyEnd;
        } else {
          assert keyEnd < 4;
        }
      }
    }
  }

  /** Every Connect whose encoding is 65536 bytes or longer is accepted by
      `Encode` but makes the written decoder panic, so the round trip fails. */
  lemma ConnectRoundTripFailsAsWritten(c: Connect)
    requires c.Encode().Ok?
    requires 4 + |c.aclKey| + |c.signature| >= 0x1_0000
    ensures ConnectDecodeAsWritten(c.Encode().value) == Panics
  {
    var buf := c.Encode().value;
    ConnectDecodeCorrection(buf);
  }

  /** A concrete instance: an ACL key of 65532 zero bytes and an empty signature.
      `4+msgLen` wraps to 0, and `buf[4:0]` panics. */
  lemma ConnectWrapCounterexample()
    ensures var buf := [0xFF, 0xFC, 0, 0] + seq(0xFFFC, _ => 0);
      ParseConnect(buf).Ok? && ConnectDecodeAsWritten(buf) == Panics
  {
    var buf := [0xFF, 0xFC, 0, 0] + seq(0xFFFC, _ => 0);
    assert |buf| == 0x1_0000 && buf[0] == 0xFF && buf[1] == 0xFC && buf[2] == 0 && buf[3] == 0;
    ConnectDecodeCorrection(buf);
  }

  // ---------------------------------------------------------------------------
  // ConnectResult.Decode: bound in uint8, no capacity check
  // ---------------------------------------------------------------------------

  /** ConnectResult.Decode as written: `2+msgLen` is a `uint8` sum, so the bounds
      check compares `(2 + msgLen) % 256` with the buffer length; nothing checks
      the declared length against the 31-byte storage, and slicing `RawMsg` past
      its end panics. */
  function ResultDecodeAsWritten(buf: seq<Byte>): (run: Run<ResultFields>)
    ensures |buf| < 2 ==> run == Returns(Err(InvalidPacket))
  {
    if |buf| < 2 then
      Returns(Err(InvalidPacket))
    else
      var msgLen := buf[1];
      if AddU8(2, msgLen) > |buf| then
        Returns(Err(InvalidPacket))
      else if msgLen > MessageCapacity then
        Panics
      else
        Returns(Ok(ResultFields(buf[0] > 0, buf[2..2 + msgLen])))
  }

  /** The written decoder panics exactly when the declared length is above 31 and
      its wrapped bound passes the check; on every other buffer it agrees with the
      corrected `ParseResult`. */
  lemma ResultDecodeCorrection(buf: seq<Byte>)
    ensures ResultDecodeAsWritten(buf) == Panics <==>
      |buf| >= 2 && buf[1] > MessageCapacity && AddU8(2, buf[1]) <= |buf|
    ensures ResultDecodeAsWritten(buf) != Panics ==> ResultDecodeAsWritten(buf) == Returns(ParseResult(buf))
  {
  }

  /** Declared length 254 in a 2-byte buffer: `2+254` wraps to 0, the bounds check
      passes although the message would end 254 bytes past the buffer, and the
      copy panics. */
  lemma ResultWrapCounterexample()
    ensures var buf: seq<Byte> := [1, 254];
      2 + buf[1] > |buf| && AddU8(2, buf[1]) <= |buf| && ResultDecodeAsWritten(buf) == Panics
  {
  }

  /** Declared length 32 with 32 message bytes present: the bounds check passes,
      and `RawMsg[:32]` runs past the 31-byte storage. */
  lemma ResultOverCapacityCounterexample()
    ensures var buf: seq<Byte> := [1, 32] + seq(32, _ => 0);
      2 + buf[1] <= |buf| && ResultDecodeAsWritten(buf) == Panics && ParseResult(buf) == Err(InvalidPacket)
  {
  }
}
