/** The older command encoder and response verifier. They share the packet
    codec's arithmetic but differ at the edges: the encoder is told the
    payload length separately from the payload, and the end-of-payload check
    raises, rather than answering, when the buffer ends too early. */
module Commands {

  import opened Wrappers
  import opened Wire
  import opened Checksum
  import opened Packet

  /** The fixed diagnostic packet: a command of code 192 (firmware version)
      with session time 0xE759EEDE, pin 0xFFFF and no payload. */
  const TestCommand: seq<Byte> :=
    [0x24, 0xC0, 0x00, 0x10, 0xE7, 0x59, 0xEE, 0xDE, 0xFF, 0xFF, 0x00, 0x00, 0xFA, 0x01, 0x0D, 0x0A]

  /** The four big-endian bytes of the low 32 bits of a time stamp. */
  function TimeBytes(currentTimeMillis: int): (r: seq<Byte>)
    ensures |r| == 4 && GetU32(0, r) == currentTimeMillis % TwoTo32
  {
    EncodeU32Decodes(currentTimeMillis);
    EncodeU32(currentTimeMillis)
  }

  /** The command header for a declared payload length. */
  function LegacyHeader(currentTimeMillis: int, commandType: int, extraPayloadLength: int, pinCode: int): (h: seq<Byte>)
    ensures |h| == 12
  {
    [ModeCommand, commandType % 256] + EncodeU16(16 + extraPayloadLength) + TimeBytes(currentTimeMillis)
    + EncodeU16(pinCode) + [0, 0]
  }

  /** The older encoder. The payload is appended only for a positive declared
      length, and the checksum covers the first 12 + declared-length bytes,
      which raises when the declared length exceeds the payload. */
  function GenerateLegacyCommand(currentTimeMillis: int, commandType: int, extraPayload: seq<Byte>,
                                 extraPayloadLength: int, pinCode: int): (r: Result<seq<Byte>, Fault>)
    ensures r.Success? <==> extraPayloadLength <= 0 || extraPayloadLength <= |extraPayload|
    ensures r.Success? ==>
      && |r.value| == 16 + (if extraPayloadLength > 0 then |extraPayload| else 0)
      && r.value[..12] == LegacyHeader(currentTimeMillis, commandType, extraPayloadLength, pinCode)
      && (extraPayloadLength > 0 ==> r.value[12..12 + |extraPayload|] == extraPayload)
      && r.value[|r.value| - 2..] == [CR, LF]
  {
    var header := LegacyHeader(currentTimeMillis, commandType, extraPayloadLength, pinCode);
    var body := if extraPayloadLength > 0 then header + extraPayload else header;
    var covered := 12 + extraPayloadLength;
    if covered > |body| then Failure(IndexOutOfRange)
    else
      var r := body + Trailer(Sum(body, if covered < 0 then 0 else covered));
      assert r[..12] == header;
      Success(r)
  }

  /** The raising end-of-payload check: the same verdict as the packet
      codec's check, but a buffer that ends before a byte the check reads is
      an error rather than a verdict. */
  function ValidateEndOfPayload(b: seq<Byte>, packetLength: int): (r: Result<bool, Fault>)
    ensures var i := ChecksumIndex(packetLength);
      i + 4 <= |b| ==> r.Success?
    ensures var i := ChecksumIndex(packetLength);
      |b| <= i + 2 ==> r.Failure?
    ensures r.Success? ==> (r.value <==> Validate(b, packetLength) == Some(true))
    ensures r.Failure? <==> Validate(b, packetLength).None?
    ensures var i := ChecksumIndex(packetLength);
      |b| == i + 3 ==> (r.Failure? <==> b[i + 2] == CR)
  {
    match Validate(b, packetLength)
    case None => Failure(IndexOutOfRange)
    case Some(v) => Success(v)
  }

  /** The response check: start byte 42, the echoed time stamp, the expected
      command code (compared unmasked), a length field equal to the buffer's
      length, and an accepted trailer. Reading the return code at byte 12
      raises for buffers shorter than 13. */
  function VerifyResponse(b: seq<Byte>, currentTimeMillis: int, commandType: int): (r: Result<bool, Fault>)
    ensures r.Failure? <==> |b| < 13
    ensures r.Success? ==>
      (r.value <==>
        && b[0] == ModeResponse
        && GetU32(4, b) == currentTimeMillis % TwoTo32
        && b[1] == commandType
        && |b| == GetU16(2, b)
        && Validate(b, |b|) == Some(true))
  {
    if |b| < 13 then Failure(IndexOutOfRange)
    else
      var startByte := b[0];
      var cmdByte := b[1];
      var packetLength := b[2] as int * 0x100 + b[3];
      var responseTime := GetU32(4, b);
      var commandTime := GetU32(0, TimeBytes(currentTimeMillis));
      if startByte == ModeResponse && responseTime == commandTime && commandType == cmdByte
         && |b| == packetLength then
        var end := ValidateEndOfPayload(b, packetLength);
        assert end.Success?;
        Success(end.value)
      else
        Success(false)
  }

  // ---------------------------------------------------------------------------
  // The older encoder against the packet codec
  // ---------------------------------------------------------------------------

  /** With a truthful declared length, the older encoder produces exactly the
      packet codec's command packet. */
  lemma LegacyAgreesWithPacket(currentTimeMillis: int, commandType: int, extraPayload: seq<Byte>, pinCode: int)
    ensures GenerateLegacyCommand(currentTimeMillis, commandType, extraPayload, |extraPayload|, pinCode)
            == Success(GenerateCommand(ModeCommand, commandType, currentTimeMillis, extraPayload, pinCode))
  {
    var header := LegacyHeader(currentTimeMillis, commandType, |extraPayload|, pinCode);
    var body := [ModeCommand % 256, commandType % 256] + EncodeU16(16 + |extraPayload|) + EncodeU32(currentTimeMillis)
                + EncodeU16(pinCode) + [0, 0] + extraPayload;
    assert header + extraPayload == body;
    if |extraPayload| == 0 {
      assert header == body;
    }
  }

  /** With a truthful declared length the output's length field equals its
      length and the end-of-payload check accepts it. */
  lemma LegacyValidates(currentTimeMillis: int, commandType: int, extraPayload: seq<Byte>, pinCode: int)
    requires 16 + |extraPayload| < TwoTo16
    ensures var r := GenerateLegacyCommand(currentTimeMillis, commandType, extraPayload, |extraPayload|, pinCode);
      && r.Success?
      && GetU16(2, r.value) == |r.value|
      && ValidateEndOfPayload(r.value, |r.value|) == Success(true)
  {
    LegacyAgreesWithPacket(currentTimeMillis, commandType, extraPayload, pinCode);
    var b := GenerateCommand(ModeCommand, commandType, currentTimeMillis, extraPayload, pinCode);
    SmallRemainders(0, |b|);
  }

  /** The diagnostic packet is the codec's version command for its session
      time and pin. */
  lemma TestCommandIsGenerated()
    ensures TestCommand == GenerateCommand(ModeCommand, Code(PrinterVersion), 0xE759EEDE, [], 0xFFFF)
  {
    var body := TestCommand[..12];
    TestCommandPieces();
    assert TestCommand == Seal(body);
    assert ModeCommand % 256 == 0x24 && Code(PrinterVersion) % 256 == 0xC0;
    CommandIsSealed(ModeCommand, Code(PrinterVersion), 0xE759EEDE, [], 0xFFFF, body);
  }

  /** The diagnostic packet's fields and trailer, byte by byte. */
  lemma TestCommandPieces()
    ensures TestCommand[..12] == [0x24, 0xC0] + EncodeU16(16) + EncodeU32(0xE759EEDE) + EncodeU16(0xFFFF) + [0, 0]
    ensures Sum(TestCommand[..12], 12) == 1534
    ensures TestCommand[12..] == Trailer(1534)
  {
    var body: seq<Byte> := [0x24, 0xC0, 0x00, 0x10, 0xE7, 0x59, 0xEE, 0xDE, 0xFF, 0xFF, 0x00, 0x00];
    assert TestCommand[..12] == body && TestCommand[12..] == [0xFA, 0x01, 0x0D, 0x0A];
    assert Sum(body, 4) == 0x24 + 0xC0 + 0x10;
    assert Sum(body, 8) == Sum(body, 4) + 0xE7 + 0x59 + 0xEE + 0xDE;
    assert EncodeU16(16) == [0x00, 0x10] && EncodeU16(0xFFFF) == [0xFF, 0xFF];
    assert EncodeU32(0xE759EEDE) == [0xE7, 0x59, 0xEE, 0xDE];
    assert Trailer(1534) == [0xFA, 0x01, 0x0D, 0x0A];
  }

  /** A generated command is its header and payload, sealed. */
  lemma CommandIsSealed(mode: int, cmdType: int, sessionTime: int, payload: seq<Byte>, pinCode: int, body: seq<Byte>)
    requires body == [mode % 256, cmdType % 256] + EncodeU16(16 + |payload|) + EncodeU32(sessionTime)
                     + EncodeU16(pinCode) + [0, 0] + payload
    ensures GenerateCommand(mode, cmdType, sessionTime, payload, pinCode) == Seal(body)
  {
  }

  /** The end-of-payload check accepts the diagnostic packet: 0xFA01 is the
      complement of its byte sum 1534. */
  lemma TestCommandValidates()
    ensures Sum(TestCommand, 12) == 1534
    ensures ValidateEndOfPayload(TestCommand, GetU16(2, TestCommand)) == Success(true)
  {
    var body := TestCommand[..12];
    TestCommandPieces();
    assert TestCommand == body + Trailer(1534);
    SumOfPrefix(body, Trailer(1534), 12);
    TestCommandIsGenerated();
  }

  // ---------------------------------------------------------------------------
  // The response check against generated responses
  // ---------------------------------------------------------------------------

  /** Every response the codec generates for a command code and time stamp
      passes the check for that code and time stamp. */
  lemma VerifyAcceptsGenerated(cmdType: Byte, currentTimeMillis: int, payload: seq<Byte>, returnCode: int,
                               status: Byte)
    requires 20 + |payload| < TwoTo16
    ensures VerifyResponse(ResponseFrame(ModeResponse, cmdType, currentTimeMillis, payload, returnCode, status),
                           currentTimeMillis, cmdType) == Success(true)
  {
    var b := ResponseFrame(ModeResponse, cmdType, currentTimeMillis, payload, returnCode, status);
    SmallRemainders(cmdType, |b|);
  }

  /** The check rejects a response carrying another time stamp (modulo 2^32)
      or another command code. */
  lemma VerifyRejectsMismatch(b: seq<Byte>, currentTimeMillis: int, commandType: int)
    requires |b| >= 13
    requires GetU32(4, b) != currentTimeMillis % TwoTo32 || b[1] != commandType
    ensures VerifyResponse(b, currentTimeMillis, commandType) == Success(false)
  {
  }
}
