/** The packet codec: message kinds, the command and response header layouts,
    packet generation with checksum, the response status byte, and the
    payload schema of each of the twelve implemented message kinds.

    Command header (12 bytes): start byte 36, kind code, big-endian total
    length, big-endian session time, big-endian pin code, two zero bytes.
    Response header (16 bytes): start byte 42, kind code, total length,
    session time, four zero bytes, return code, a zero byte, the ejecting
    byte and the battery / print-count byte. The payload follows the header
    and the four-byte checksum trailer closes the packet. */
module Packet {

  import opened Wrappers
  import opened Wire
  import opened Checksum

  const ModeCommand: int := 36
  const ModeResponse: int := 42

  const CommandHeaderLength: nat := 12
  const ResponseHeaderLength: nat := 16

  // Return codes carried in byte 12 of a response.
  const ReturnFrameReceived: int := 0   // idle / frame received
  const ReturnPrinting: int := 163      // still printing
  const ReturnEjecting: int := 164
  const ReturnBatteryEmpty: int := 162
  const ReturnFilmEmpty: int := 244

  /** The twelve message kinds the factory can decode. */
  datatype Kind =
    | Specifications
    | Reset
    | PrepImage
    | SendImage
    | Type83
    | SetLockState
    | LockDevice
    | PrinterVersion
    | PrintCount
    | ModelName
    | Type195
    | PrePrint

  /** The code of a kind in byte 1 of its packets. */
  function Code(k: Kind): Byte {
    match k
    case Specifications => 79
    case Reset => 80
    case PrepImage => 81
    case SendImage => 82
    case Type83 => 83
    case SetLockState => 176
    case LockDevice => 179
    case PrinterVersion => 192
    case PrintCount => 193
    case ModelName => 194
    case Type195 => 195
    case PrePrint => 196
  }

  /** The code reserved for changing the pin; no packet class implements it. */
  const ChangePasswordCode: int := 182

  /** The factory's dispatch on byte 1: the kind whose code it is, if any. */
  function KindOf(code: int): (r: Option<Kind>)
    ensures r.Some? ==> Code(r.value) == code
    ensures r.None? ==> forall k: Kind :: Code(k) != code
  {
    if code == 79 then Some(Specifications)
    else if code == 192 then Some(PrinterVersion)
    else if code == 193 then Some(PrintCount)
    else if code == 80 then Some(Reset)
    else if code == 81 then Some(PrepImage)
    else if code == 82 then Some(SendImage)
    else if code == 194 then Some(ModelName)
    else if code == 196 then Some(PrePrint)
    else if code == 179 then Some(LockDevice)
    else if code == 83 then Some(Type83)
    else if code == 195 then Some(Type195)
    else if code == 176 then Some(SetLockState)
    else None
  }

  // ---------------------------------------------------------------------------
  // Header fields of responses: ejecting state and battery / print count
  // ---------------------------------------------------------------------------

  /** The ejecting byte as written by a sender: the state shifted right by 2. */
  function EncodeEjecting(eject: int): (r: seq<Byte>)
    ensures |r| == 1
    ensures 4 * (r[0] as int) <= eject % 1024 < 4 * (r[0] as int) + 4
  {
    EncodeEjectingBits(eject);
    [eject / 4 % 256]
  }

  /** Bits 2..9 of an integer, as a shift right by 2 and a mask of 8 bits. */
  lemma EncodeEjectingBits(eject: int)
    ensures 4 * (eject / 4 % 256) <= eject % 1024 < 4 * (eject / 4 % 256) + 4
  {
    var q := eject / 4;
    assert eject == 4 * q + eject % 4;
    assert q == 256 * (q / 256) + q % 256;
    assert eject == 1024 * (q / 256) + (4 * (q % 256) + eject % 4);
  }

  /** The ejecting state as read by a receiver: the byte shifted right by 2. */
  function GetEjecting(offset: nat, b: seq<Byte>): (r: int)
    ensures 0 <= r < 64
    ensures |b| <= offset ==> r == 0
  {
    if |b| < offset + 1 then 0 else b[offset] / 4
  }

  /** Byte 15 of a response: the battery level shifted left by four, OR-ed
      with the print count, unmasked. Appending a value outside 0..255 to a
      byte buffer raises, which happens exactly when the battery is outside
      0..15 or the print count outside 0..255. */
  function PackBatteryAndPrintCount(battery: int, printCount: int): (r: Result<Byte, Fault>)
    ensures r.Success? <==> 0 <= battery < 16 && 0 <= printCount < 256
    ensures r.Failure? ==> r.error == ByteOutOfRange
  {
    if 0 <= battery < 16 && 0 <= printCount < 256 then
      BitOrBelow(battery * 16, printCount, 8);
      Success(BitOr(battery * 16, printCount))
    else
      Failure(ByteOutOfRange)
  }

  /** Battery level: bits 4..6 of byte 15, or -1 for a buffer shorter than 16. */
  function GetBatteryLevel(b: seq<Byte>): (r: int)
    ensures -1 <= r <= 7
    ensures r == -1 <==> |b| < 16
  {
    if |b| < 16 then -1 else b[15] / 16 % 8
  }

  /** Print count: bits 0..3 of byte 15, or -1 for a buffer shorter than 16. */
  function GetPrintCount(b: seq<Byte>): (r: int)
    ensures -1 <= r <= 15
    ensures r == -1 <==> |b| < 16
  {
    if |b| < 16 then -1 else b[15] % 16
  }

  // ---------------------------------------------------------------------------
  // Decoded header
  // ---------------------------------------------------------------------------

  datatype ModeFields =
    | CommandFields(password: int)
    | ResponseFields(returnCode: int, unknown1: int, ejecting: int, battery: int, printCount: int)
    | NoModeFields

  datatype Header = Header(startByte: int, cmdByte: int, packetLength: int, sessionTime: int, fields: ModeFields)

  /** The header as a receiver decodes it; the mode (byte 0) chooses which
      mode-specific fields exist. Short buffers read as zeros (and -1 for
      battery and print count). */
  function DecodeHeader(mode: int, b: seq<Byte>): (h: Header)
    ensures h.startByte == GetU8(0, b) && h.cmdByte == GetU8(1, b)
    ensures h.packetLength == GetU16(2, b) && h.sessionTime == GetU32(4, b)
    ensures mode == ModeCommand <==> h.fields.CommandFields?
    ensures mode == ModeResponse <==> h.fields.ResponseFields?
  {
    var fields :=
      if mode == ModeCommand then CommandFields(GetU16(8, b))
      else if mode == ModeResponse then
        ResponseFields(GetU8(12, b), GetU8(13, b), GetEjecting(14, b), GetBatteryLevel(b), GetPrintCount(b))
      else NoModeFields;
    Header(GetU8(0, b), GetU8(1, b), GetU16(2, b), GetU32(4, b), fields)
  }

  // ---------------------------------------------------------------------------
  // Packet generation
  // ---------------------------------------------------------------------------

  /** A command packet: 12-byte header, payload, checksum trailer. The length
      field is 16 + |payload| written in 16 bits. */
  function GenerateCommand(mode: int, cmdType: int, sessionTime: int, payload: seq<Byte>, pinCode: int): (r: seq<Byte>)
    ensures |r| == 16 + |payload|
    ensures GetU8(0, r) == mode % 256 && GetU8(1, r) == cmdType % 256
    ensures GetU16(2, r) == (16 + |payload|) % TwoTo16
    ensures GetU32(4, r) == sessionTime % TwoTo32
    ensures GetU16(8, r) == pinCode % TwoTo16
    ensures r[10] == 0 && r[11] == 0
    ensures r[12..12 + |payload|] == payload
    ensures Validate(r, |r|) == Some(true)
  {
    var body := [mode % 256, cmdType % 256] + EncodeU16(16 + |payload|) + EncodeU32(sessionTime)
                + EncodeU16(pinCode) + [0, 0] + payload;
    var r := Seal(body);
    assert r[..|body|] == body;
    assert r[0] == body[0] && r[1] == body[1];
    assert r[2..4] == body[2..4] == EncodeU16(16 + |payload|);
    assert r[4..8] == body[4..8] == EncodeU32(sessionTime);
    assert r[8..10] == body[8..10] == EncodeU16(pinCode);
    assert r[12..12 + |payload|] == body[12..] == payload;
    GetU16At(r, 2, 16 + |payload|);
    GetU32At(r, 4, sessionTime);
    GetU16At(r, 8, pinCode);
    SealValidates(body);
    r
  }

  /** A response packet whose status byte is already packed. */
  function ResponseFrame(mode: int, cmdType: int, sessionTime: int, payload: seq<Byte>, returnCode: int,
                         status: Byte): (p: seq<Byte>)
    ensures |p| == 20 + |payload|
    ensures GetU8(0, p) == mode % 256 && GetU8(1, p) == cmdType % 256
    ensures GetU16(2, p) == (20 + |payload|) % TwoTo16
    ensures GetU32(4, p) == sessionTime % TwoTo32
    ensures p[8..12] == [0, 0, 0, 0]
    ensures GetU8(12, p) == returnCode % 256 && p[13] == 0
    ensures GetEjecting(14, p) == 0 && p[15] == status
    ensures p[16..16 + |payload|] == payload
    ensures Validate(p, |p|) == Some(true)
  {
    var head := [mode % 256, cmdType % 256] + EncodeU16(20 + |payload|) + EncodeU32(sessionTime);
    var body := head + Zeros(4) + EncodeU8(returnCode) + [0] + EncodeEjecting(0) + [status] + payload;
    var r := Seal(body);
    assert r[..|body|] == body;
    assert body[..8] == head;
    assert r[0] == head[0] && r[1] == head[1];
    assert r[12] == body[12] && r[13] == body[13] && r[14] == body[14] && r[15] == body[15];
    assert body[12] == returnCode % 256 && body[13] == 0 && body[14] == 0 && body[15] == status;
    assert r[2..4] == head[2..4] == EncodeU16(20 + |payload|);
    assert r[4..8] == head[4..8] == EncodeU32(sessionTime);
    assert r[8..12] == body[8..12] == [0, 0, 0, 0];
    assert r[16..16 + |payload|] == body[16..] == payload;
    GetU16At(r, 2, 20 + |payload|);
    GetU32At(r, 4, sessionTime);
    SealValidates(body);
    r
  }

  /** A response packet: 16-byte header, payload, checksum trailer. The
      ejecting byte is always written for state 0 (the `ejectState` argument
      is ignored), and the battery / print-count byte may fail to pack. */
  function GenerateResponse(mode: int, cmdType: int, sessionTime: int, payload: seq<Byte>, returnCode: int,
                            ejectState: int, battery: int, printCount: int): (r: Result<seq<Byte>, Fault>)
    ensures r.Success? <==> 0 <= battery < 16 && 0 <= printCount < 256
    ensures r.Failure? ==> r.error == ByteOutOfRange
    ensures r.Success? ==>
      r.value == ResponseFrame(mode, cmdType, sessionTime, payload, returnCode,
                               PackBatteryAndPrintCount(battery, printCount).value)
  {
    var status :- PackBatteryAndPrintCount(battery, printCount);
    Success(ResponseFrame(mode, cmdType, sessionTime, payload, returnCode, status))
  }

  // ---------------------------------------------------------------------------
  // What a sender encodes: one variant per kind, with its fields
  // ---------------------------------------------------------------------------

  datatype Command =
    | SpecificationsCommand
    | ResetCommand
    | PrepImageCommand(format: int, options: int, imgLength: int)
    | SendImageCommand(sequenceNumber: int, payloadBytes: seq<Byte>)
    | Type83Command
    | LockStateCommand
    | PrinterLockCommand(lockState: int)
    | VersionCommand
    | PrintCountCommand
    | ModelNameCommand
    | Type195Command
    | PrePrintCommand(cmdNumber: int)

  datatype Response =
    | SpecificationsResponse(maxHeight: int, maxWidth: int, maxColours: int, unknown1: int,
                             maxMsgSize: int, unknown2: int, unknown3: int)
    | ResetResponse
    | PrepImageResponse(maxLen: int)
    | SendImageResponse(sequenceNumber: int)
    | Type83Response
    | LockStateResponse(unknownFourByteInt: int)
    | PrinterLockResponse
    | VersionResponse(unknown1: int, firmware: int, hardware: int)
    | PrintCountResponse(printHistory: int)
    | ModelNameResponse(modelName: string)
    | Type195Response
    | PrePrintResponse(cmdNumber: int, respNumber: int)

  function CommandKind(c: Command): Kind {
    match c
    case SpecificationsCommand => Specifications
    case ResetCommand => Reset
    case PrepImageCommand(_, _, _) => PrepImage
    case SendImageCommand(_, _) => SendImage
    case Type83Command => Type83
    case LockStateCommand => SetLockState
    case PrinterLockCommand(_) => LockDevice
    case VersionCommand => PrinterVersion
    case PrintCountCommand => PrintCount
    case ModelNameCommand => ModelName
    case Type195Command => Type195
    case PrePrintCommand(_) => PrePrint
  }

  function ResponseKind(r: Response): Kind {
    match r
    case SpecificationsResponse(_, _, _, _, _, _, _) => Specifications
    case ResetResponse => Reset
    case PrepImageResponse(_) => PrepImage
    case SendImageResponse(_) => SendImage
    case Type83Response => Type83
    case LockStateResponse(_) => SetLockState
    case PrinterLockResponse => LockDevice
    case VersionResponse(_, _, _) => PrinterVersion
    case PrintCountResponse(_) => PrintCount
    case ModelNameResponse(_) => ModelName
    case Type195Response => Type195
    case PrePrintResponse(_, _) => PrePrint
  }

  /** The command payload of each kind. */
  function CommandPayload(c: Command): (p: seq<Byte>)
    ensures c.SendImageCommand? ==> |p| == 4 + |c.payloadBytes|
    ensures !c.SendImageCommand? ==> |p| <= 12
  {
    match c
    case PrepImageCommand(format, options, imgLength) =>
      EncodeU8(format) + EncodeU8(options) + EncodeU32(imgLength) + EncodeU16(0) + EncodeU16(0) + EncodeU16(0)
    case SendImageCommand(sequenceNumber, payloadBytes) =>
      EncodeU32(sequenceNumber) + payloadBytes
    case PrinterLockCommand(lockState) =>
      EncodeU8(lockState) + EncodeU8(0) + EncodeU16(0)
    case PrePrintCommand(cmdNumber) =>
      Zeros(2) + EncodeU16(cmdNumber)
    case _ => []
  }

  /** The response payload of each kind. */
  function ResponsePayload(r: Response): (p: seq<Byte>)
    ensures r.SpecificationsResponse? ==> |p| == 28
    ensures r.VersionResponse? ==> |p| == 8
    ensures r.PrintCountResponse? ==> |p| == 16
    ensures r.PrepImageResponse? || r.SendImageResponse? || r.LockStateResponse? || r.PrePrintResponse? ==> |p| == 4
    ensures r.ModelNameResponse? ==> |p| >= |r.modelName|
    ensures r.ResetResponse? || r.Type83Response? || r.PrinterLockResponse? || r.Type195Response? ==> p == []
  {
    match r
    case SpecificationsResponse(maxHeight, maxWidth, maxColours, unknown1, maxMsgSize, unknown2, unknown3) =>
      EncodeU16(maxWidth) + EncodeU16(maxHeight) + EncodeU16(maxColours) + EncodeU16(unknown1) + Zeros(4)
      + EncodeU16(maxMsgSize) + EncodeU8(unknown2) + [0] + EncodeU32(unknown3) + Zeros(8)
    case PrepImageResponse(maxLen) =>
      Zeros(2) + EncodeU16(maxLen)
    case SendImageResponse(sequenceNumber) =>
      Zeros(3) + EncodeU8(sequenceNumber)
    case LockStateResponse(unknownFourByteInt) =>
      EncodeU32(unknownFourByteInt)
    case VersionResponse(unknown1, firmware, hardware) =>
      EncodeU16(unknown1) + EncodeU16(firmware) + EncodeU16(hardware) + Zeros(2)
    case PrintCountResponse(printHistory) =>
      EncodeU32(printHistory) + Zeros(12)
    case ModelNameResponse(modelName) =>
      Utf8(modelName)
    case PrePrintResponse(cmdNumber, respNumber) =>
      EncodeU16(cmdNumber) + EncodeU16(respNumber)
    case _ => []
  }

  /** A command of any kind, framed: its length is 16 plus its payload, byte 1
      is its kind's code, and the receiver's check accepts it. */
  function EncodeCommand(mode: int, c: Command, sessionTime: int, pinCode: int): (r: seq<Byte>)
    ensures |r| == 16 + |CommandPayload(c)|
    ensures GetU8(1, r) == Code(CommandKind(c))
    ensures r[12..12 + |CommandPayload(c)|] == CommandPayload(c)
    ensures Validate(r, |r|) == Some(true)
  {
    var payload := CommandPayload(c);
    var code := Code(CommandKind(c));
    GeneratedCommandFacts(mode, code, sessionTime, payload, pinCode);
    GenerateCommand(mode, code, sessionTime, payload, pinCode)
  }

  /** What every generated command carries: its length, its code, its
      payload and an accepted trailer. */
  lemma GeneratedCommandFacts(mode: int, code: Byte, sessionTime: int, payload: seq<Byte>, pinCode: int)
    ensures var r := GenerateCommand(mode, code, sessionTime, payload, pinCode);
      && |r| == 16 + |payload|
      && GetU8(1, r) == code
      && r[12..12 + |payload|] == payload
      && Validate(r, |r|) == Some(true)
  {
  }

  /** A response of any kind, framed: it fails exactly when the status byte
      cannot be packed; otherwise its length is 20 plus its payload, byte 1
      is its kind's code, and the receiver's check accepts it. */
  function EncodeResponse(mode: int, r: Response, sessionTime: int, returnCode: int, ejectState: int,
                          battery: int, printCount: int): (e: Result<seq<Byte>, Fault>)
    ensures e.Success? <==> 0 <= battery < 16 && 0 <= printCount < 256
    ensures e.Failure? ==> e.error == ByteOutOfRange
    ensures e.Success? ==>
      && |e.value| == 20 + |ResponsePayload(r)|
      && GetU8(1, e.value) == Code(ResponseKind(r))
      && e.value[16..16 + |ResponsePayload(r)|] == ResponsePayload(r)
      && Validate(e.value, |e.value|) == Some(true)
  {
    var payload := ResponsePayload(r);
    var code := Code(ResponseKind(r));
    GeneratedResponseFacts(mode, code, sessionTime, payload, returnCode, ejectState, battery, printCount);
    GenerateResponse(mode, code, sessionTime, payload, returnCode, ejectState, battery, printCount)
  }

  /** What every generated response carries: its length, its code, its
      payload and an accepted trailer. */
  lemma GeneratedResponseFacts(mode: int, code: Byte, sessionTime: int, payload: seq<Byte>, returnCode: int,
                               ejectState: int, battery: int, printCount: int)
    ensures var e := GenerateResponse(mode, code, sessionTime, payload, returnCode, ejectState, battery, printCount);
      e.Success? ==>
        && |e.value| == 20 + |payload|
        && GetU8(1, e.value) == code
        && e.value[16..16 + |payload|] == payload
        && Validate(e.value, |e.value|) == Some(true)
  {
    var e := GenerateResponse(mode, code, sessionTime, payload, returnCode, ejectState, battery, printCount);
    if e.Success? {
      var frame := ResponseFrame(mode, code, sessionTime, payload, returnCode,
                                 PackBatteryAndPrintCount(battery, printCount).value);
      assert e.value == frame;
      assert GetU8(1, frame) == code % 256 == code;
    }
  }

  // ---------------------------------------------------------------------------
  // What a receiver decodes: the payload fields of each kind and mode
  // ---------------------------------------------------------------------------

  datatype Fields =
    | NoFields
    | SpecificationsFields(maxHeight: int, maxWidth: int, maxColours: int, unknown1: int,
                           maxMsgSize: int, unknown2: int, unknown3: int)
    | VersionFields(unknown1: int, firmware: string, hardware: string)
    | PrintCountFields(printHistory: int)
    | ModelNameFields(modelName: string)
    | PrePrintCommandFields(cmdNumber: int)
    | PrePrintResponseFields(cmdNumber: int, respNumber: int)
    | LockFields(lockState: int)
    | PrepImageCommandFields(format: int, options: int, imgLength: int)
    | PrepImageResponseFields(maxLen: int)
    | SendImageCommandFields(sequenceNumber: int, payloadBytes: seq<Byte>)
    | SendImageResponseFields(sequenceNumber: int)
    | LockStateFields(unknownFourByteInt: int)

  /** The model name of a response: exactly the four bytes at offset 16 read
      as ASCII, or the empty string for a buffer shorter than 20. */
  function GetModelString(offset: nat, b: seq<Byte>): (r: Result<string, Fault>)
    ensures |b| < offset + 4 ==> r == Success("")
    ensures r.Success? && |b| >= offset + 4 ==> |r.value| == 4
    ensures |b| >= offset + 4 ==> (r.Success? <==> forall i :: offset <= i < offset + 4 ==> b[i] < 0x80)
    ensures r.Failure? ==> r.error == NotAscii
    ensures r.Success? && |b| >= offset + 4 ==> forall i :: 0 <= i < 4 ==> r.value[i] as int == b[offset + i]
  {
    if |b| < offset + 4 then Success("")
    else match AsciiDecode(b[offset..offset + 4])
      case None => Failure(NotAscii)
      case Some(s) => Success(s)
  }

  /** Payload fields of a packet sent in command mode. */
  function DecodeCommandFields(k: Kind, b: seq<Byte>): (f: Fields)
    ensures f.PrePrintCommandFields? <==> k == PrePrint
    ensures f.LockFields? <==> k == LockDevice
    ensures f.PrepImageCommandFields? <==> k == PrepImage
    ensures f.SendImageCommandFields? <==> k == SendImage
    ensures f.NoFields? <==> k !in {PrePrint, LockDevice, PrepImage, SendImage}
    ensures f.PrePrintCommandFields? ==> 0 <= f.cmdNumber < TwoTo16
    ensures f.LockFields? ==> 0 <= f.lockState < 256
    ensures f.PrepImageCommandFields? ==> 0 <= f.format < 256 && 0 <= f.options < 256 && 0 <= f.imgLength < TwoTo32
    ensures f.SendImageCommandFields? ==>
      && 0 <= f.sequenceNumber < TwoTo32
      && (|b| >= 16 ==> 16 + |f.payloadBytes| <= |b| && f.payloadBytes == b[16..16 + |f.payloadBytes|])
      && (|b| <= 16 ==> f.payloadBytes == [])
  {
    match k
    case PrePrint => PrePrintCommandFields(GetU16(14, b))
    case LockDevice => LockFields(GetU8(12, b))
    case PrepImage => PrepImageCommandFields(GetU8(12, b), GetU8(13, b), GetU32(14, b))
    case SendImage => SendImageCommandFields(GetU32(12, b), Slice(b, 16, 16 + (GetU16(2, b) - 20)))
    case _ => NoFields
  }

  /** Payload fields of a packet sent in response mode. */
  function DecodeResponseFields(k: Kind, b: seq<Byte>): (r: Result<Fields, Fault>)
    ensures r.Failure? <==> k == ModelName && |b| >= 20 && exists i :: 16 <= i < 20 && b[i] >= 0x80
    ensures r.Failure? ==> r.error == NotAscii
    ensures r.Success? && k == ModelName ==>
      r.value.ModelNameFields? && |r.value.modelName| == (if |b| < 20 then 0 else 4)
    ensures r.Success? && k == SendImage ==> r.value.SendImageResponseFields? && 0 <= r.value.sequenceNumber < 256
    ensures r.Success? && k in {Reset, Type83, LockDevice, Type195} ==> r.value == NoFields
  {
    match k
    case Specifications =>
      Success(SpecificationsFields(GetU16(18, b), GetU16(16, b), GetU16(20, b), GetU16(22, b),
                                   GetU16(28, b), GetU8(30, b), GetU32(32, b)))
    case PrinterVersion =>
      Success(VersionFields(GetU16(16, b), FormatVersion(GetU16(18, b)), FormatVersion(GetU16(20, b))))
    case PrintCount => Success(PrintCountFields(GetU32(16, b)))
    case ModelName =>
      var name :- GetModelString(16, b);
      Success(ModelNameFields(name))
    case PrePrint => Success(PrePrintResponseFields(GetU16(16, b), GetU16(18, b)))
    case PrepImage => Success(PrepImageResponseFields(GetU16(18, b)))
    case SendImage => Success(SendImageResponseFields(GetU8(19, b)))
    case SetLockState => Success(LockStateFields(GetU32(16, b)))
    case _ => Success(NoFields)
  }

  /** A decoded packet: its kind, header, checksum verdict and payload fields. */
  datatype Decoded = Decoded(kind: Kind, header: Header, valid: Option<bool>, fields: Fields)

  /** The packet factory: dispatches on byte 1 to the kind's decoder, giving
      `None` for a code of no implemented kind. Reading bytes 0 and 1 of a
      shorter buffer raises; so does an ASCII model name that is not ASCII. */
  function Decode(b: seq<Byte>): (r: Result<Option<Decoded>, Fault>)
    ensures |b| < 2 <==> r == Failure(IndexOutOfRange)
    ensures |b| >= 2 && KindOf(b[1]).None? ==> r == Success(None)
    ensures r.Success? && r.value.Some? ==>
      var d := r.value.value;
      && Code(d.kind) == b[1]
      && d.header == DecodeHeader(b[0], b)
      && d.valid == Validate(b, GetU16(2, b))
  {
    if |b| < 2 then Failure(IndexOutOfRange)
    else match KindOf(b[1])
      case None => Success(None)
      case Some(k) =>
        var mode := b[0];
        var header := DecodeHeader(mode, b);
        var valid := Validate(b, header.packetLength);
        if mode == ModeCommand then
          Success(Some(Decoded(k, header, valid, DecodeCommandFields(k, b))))
        else if mode == ModeResponse then
          var fields :- DecodeResponseFields(k, b);
          Success(Some(Decoded(k, header, valid, fields)))
        else
          Success(Some(Decoded(k, header, valid, NoFields)))
  }
}
