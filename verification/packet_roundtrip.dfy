/** What a receiver recovers from what a sender generates: every command
    and every response decodes back to its kind, header and fields, with
    each numeric field masked to its wire width. Also the factory's
    dispatch and the odd behaviour of the packed status byte. */
module PacketRoundTrip {

  import opened Wrappers
  import opened Wire
  import opened Checksum
  import opened Packet

  // ---------------------------------------------------------------------------
  // The fields a receiver recovers
  // ---------------------------------------------------------------------------

  /** The decoded fields that correspond to an encoded command. */
  function CommandFieldsOf(c: Command): Fields {
    match c
    case PrePrintCommand(n) => PrePrintCommandFields(n % TwoTo16)
    case PrinterLockCommand(s) => LockFields(s % 256)
    case PrepImageCommand(f, o, l) => PrepImageCommandFields(f % 256, o % 256, l % TwoTo32)
    case SendImageCommand(s, bytes) => SendImageCommandFields(s % TwoTo32, bytes)
    case _ => NoFields
  }

  /** The decoded fields that correspond to an encoded response. */
  function ResponseFieldsOf(r: Response): Fields {
    match r
    case SpecificationsResponse(h, w, c, u1, m, u2, u3) =>
      SpecificationsFields(h % TwoTo16, w % TwoTo16, c % TwoTo16, u1 % TwoTo16, m % TwoTo16, u2 % 256, u3 % TwoTo32)
    case VersionResponse(u, f, h) => VersionFields(u % TwoTo16, FormatVersion(f), FormatVersion(h))
    case PrintCountResponse(h) => PrintCountFields(h % TwoTo32)
    case ModelNameResponse(name) => ModelNameFields(name)
    case PrePrintResponse(c, r) => PrePrintResponseFields(c % TwoTo16, r % TwoTo16)
    case PrepImageResponse(m) => PrepImageResponseFields(m % TwoTo16)
    case SendImageResponse(s) => SendImageResponseFields(s % 256)
    case LockStateResponse(u) => LockStateFields(u % TwoTo32)
    case _ => NoFields
  }

  /** A model name survives the trip only as four ASCII characters: the
      receiver reads exactly four bytes and decodes them as ASCII. */
  predicate FaithfulModelName(r: Response) {
    r.ModelNameResponse? ==> |r.modelName| == 4 && IsAscii(r.modelName)
  }

  // ---------------------------------------------------------------------------
  // Fields inside a payload placed at `base`
  // ---------------------------------------------------------------------------

  lemma SubSlice(b: seq<Byte>, base: nat, p: seq<Byte>, k: nat, len: nat)
    requires base + |p| <= |b| && b[base..base + |p|] == p
    requires k + len <= |p|
    ensures b[base + k..base + k + len] == p[k..k + len]
  {
    forall j | base + k <= j < base + k + len
      ensures b[j] == p[j - base]
    {
      assert b[base..base + |p|][j - base] == b[j];
    }
    assert b[base + k..base + k + len] == p[k..k + len];
  }

  lemma U8Field(b: seq<Byte>, base: nat, p: seq<Byte>, k: nat, n: int)
    requires base + |p| <= |b| && b[base..base + |p|] == p
    requires k + 1 <= |p| && p[k..k + 1] == EncodeU8(n)
    ensures GetU8(base + k, b) == n % 256
  {
    SubSlice(b, base, p, k, 1);
    GetU8At(b, base + k, n);
  }

  lemma U16Field(b: seq<Byte>, base: nat, p: seq<Byte>, k: nat, n: int)
    requires base + |p| <= |b| && b[base..base + |p|] == p
    requires k + 2 <= |p| && p[k..k + 2] == EncodeU16(n)
    ensures GetU16(base + k, b) == n % TwoTo16
  {
    SubSlice(b, base, p, k, 2);
    GetU16At(b, base + k, n);
  }

  lemma U32Field(b: seq<Byte>, base: nat, p: seq<Byte>, k: nat, n: int)
    requires base + |p| <= |b| && b[base..base + |p|] == p
    requires k + 4 <= |p| && p[k..k + 4] == EncodeU32(n)
    ensures GetU32(base + k, b) == n % TwoTo32
  {
    SubSlice(b, base, p, k, 4);
    GetU32At(b, base + k, n);
  }

  // ---------------------------------------------------------------------------
  // Payload round trips
  // ---------------------------------------------------------------------------

  lemma PrepImageFieldsRoundTrip(c: Command, b: seq<Byte>)
    requires c.PrepImageCommand?
    requires |b| >= 16 + |CommandPayload(c)| && b[12..12 + |CommandPayload(c)|] == CommandPayload(c)
    ensures DecodeCommandFields(PrepImage, b) == CommandFieldsOf(c)
  {
    var p := CommandPayload(c);
    var PrepImageCommand(f, o, l) := c;
    assert p[0..1] == EncodeU8(f);
    assert p[1..2] == EncodeU8(o);
    assert p[2..6] == EncodeU32(l);
    U8Field(b, 12, p, 0, f);
    U8Field(b, 12, p, 1, o);
    U32Field(b, 12, p, 2, l);
  }

  lemma SendImageFieldsRoundTrip(c: Command, b: seq<Byte>)
    requires c.SendImageCommand?
    requires |b| == 16 + |CommandPayload(c)| && GetU16(2, b) == |b|
    requires b[12..12 + |CommandPayload(c)|] == CommandPayload(c)
    ensures DecodeCommandFields(SendImage, b) == CommandFieldsOf(c)
  {
    var p := CommandPayload(c);
    var SendImageCommand(s, bytes) := c;
    assert p[0..4] == EncodeU32(s);
    U32Field(b, 12, p, 0, s);
    assert b[16..16 + |bytes|] == p[4..] == bytes;
    assert Slice(b, 16, 16 + (GetU16(2, b) - 20)) == b[16..16 + |bytes|];
  }

  /** A command payload at offset 12 of a packet whose length field is its
      real length decodes to the command's fields. */
  lemma CommandFieldsRoundTrip(c: Command, b: seq<Byte>)
    requires |b| == 16 + |CommandPayload(c)| && GetU16(2, b) == |b|
    requires b[12..12 + |CommandPayload(c)|] == CommandPayload(c)
    ensures DecodeCommandFields(CommandKind(c), b) == CommandFieldsOf(c)
  {
    var p := CommandPayload(c);
    match c
    case PrePrintCommand(n) =>
      assert p[2..4] == EncodeU16(n);
      U16Field(b, 12, p, 2, n);
    case PrinterLockCommand(s) =>
      assert p[0..1] == EncodeU8(s);
      U8Field(b, 12, p, 0, s);
    case PrepImageCommand(_, _, _) =>
      PrepImageFieldsRoundTrip(c, b);
    case SendImageCommand(_, _) =>
      SendImageFieldsRoundTrip(c, b);
    case _ =>
  }

  lemma SpecificationsFieldsRoundTrip(r: Response, b: seq<Byte>)
    requires r.SpecificationsResponse?
    requires 16 + |ResponsePayload(r)| <= |b| && b[16..16 + |ResponsePayload(r)|] == ResponsePayload(r)
    ensures DecodeResponseFields(Specifications, b) == Success(ResponseFieldsOf(r))
  {
    var p := ResponsePayload(r);
    var SpecificationsResponse(h, w, c, u1, m, u2, u3) := r;
    SpecificationsLayout(r);
    U16Field(b, 16, p, 0, w);
    U16Field(b, 16, p, 2, h);
    U16Field(b, 16, p, 4, c);
    U16Field(b, 16, p, 6, u1);
    U16Field(b, 16, p, 12, m);
    U8Field(b, 16, p, 14, u2);
    U32Field(b, 16, p, 16, u3);
  }

  /** Where each field of a specifications payload sits. */
  lemma SpecificationsLayout(r: Response)
    requires r.SpecificationsResponse?
    ensures var p := ResponsePayload(r);
      && |p| == 28
      && p[0..2] == EncodeU16(r.maxWidth) && p[2..4] == EncodeU16(r.maxHeight)
      && p[4..6] == EncodeU16(r.maxColours) && p[6..8] == EncodeU16(r.unknown1)
      && p[12..14] == EncodeU16(r.maxMsgSize) && p[14..15] == EncodeU8(r.unknown2)
      && p[16..20] == EncodeU32(r.unknown3)
  {
    var p := ResponsePayload(r);
    var SpecificationsResponse(h, w, c, u1, m, u2, u3) := r;
    var q1 := EncodeU16(w) + EncodeU16(h) + EncodeU16(c) + EncodeU16(u1);
    var q2 := Zeros(4) + EncodeU16(m) + EncodeU8(u2) + [0] + EncodeU32(u3);
    assert p == q1 + q2 + Zeros(8);
    assert p[8..20] == q2;
  }

  lemma VersionFieldsRoundTrip(r: Response, b: seq<Byte>)
    requires r.VersionResponse?
    requires 16 + |ResponsePayload(r)| <= |b| && b[16..16 + |ResponsePayload(r)|] == ResponsePayload(r)
    ensures DecodeResponseFields(PrinterVersion, b) == Success(ResponseFieldsOf(r))
  {
    var p := ResponsePayload(r);
    var VersionResponse(u, f, h) := r;
    assert p[0..2] == EncodeU16(u) && p[2..4] == EncodeU16(f) && p[4..6] == EncodeU16(h);
    U16Field(b, 16, p, 0, u);
    U16Field(b, 16, p, 2, f);
    U16Field(b, 16, p, 4, h);
    VersionTextMasked(GetU16(18, b), f);
    VersionTextMasked(GetU16(20, b), h);
  }

  lemma VersionTextMasked(read: int, written: int)
    requires read == written % TwoTo16
    ensures FormatVersion(read) == FormatVersion(written)
  {
    FormatVersionMasked(written);
  }

  lemma ModelNameFieldsRoundTrip(r: Response, b: seq<Byte>)
    requires r.ModelNameResponse? && FaithfulModelName(r)
    requires 16 + |ResponsePayload(r)| <= |b| && b[16..16 + |ResponsePayload(r)|] == ResponsePayload(r)
    ensures DecodeResponseFields(ModelName, b) == Success(ResponseFieldsOf(r))
  {
    var name := r.modelName;
    var p := Utf8(name);
    assert |p| == 4 && b[16..20] == p;
    var text := AsciiDecode(b[16..20]);
    assert text.Some?;
    assert text.value == name;
  }

  /** A response payload at offset 16 decodes to the response's fields. */
  lemma ResponseFieldsRoundTrip(r: Response, b: seq<Byte>)
    requires FaithfulModelName(r)
    requires 16 + |ResponsePayload(r)| <= |b| && b[16..16 + |ResponsePayload(r)|] == ResponsePayload(r)
    ensures DecodeResponseFields(ResponseKind(r), b) == Success(ResponseFieldsOf(r))
  {
    var p := ResponsePayload(r);
    match r
    case SpecificationsResponse(_, _, _, _, _, _, _) =>
      SpecificationsFieldsRoundTrip(r, b);
    case VersionResponse(_, _, _) =>
      VersionFieldsRoundTrip(r, b);
    case PrintCountResponse(hist) =>
      assert p[0..4] == EncodeU32(hist);
      U32Field(b, 16, p, 0, hist);
    case ModelNameResponse(_) =>
      ModelNameFieldsRoundTrip(r, b);
    case PrePrintResponse(c, rn) =>
      assert p[0..2] == EncodeU16(c) && p[2..4] == EncodeU16(rn);
      U16Field(b, 16, p, 0, c);
      U16Field(b, 16, p, 2, rn);
    case PrepImageResponse(m) =>
      assert p[2..4] == EncodeU16(m);
      U16Field(b, 16, p, 2, m);
    case SendImageResponse(s) =>
      assert p[3..4] == EncodeU8(s);
      U8Field(b, 16, p, 3, s);
    case LockStateResponse(u) =>
      assert p[0..4] == EncodeU32(u);
      U32Field(b, 16, p, 0, u);
    case _ =>
  }

  /** The version text depends only on the 16 bits that travel. */
  lemma FormatVersionMasked(n: int)
    ensures FormatVersion(n % TwoTo16) == FormatVersion(n)
  {
    var m := n % TwoTo16;
    assert m / 0x100 % 256 == n / 0x100 % 256 && m % 256 == n % 256 by {
      EncodeU16Decodes(n);
    }
  }

  // ---------------------------------------------------------------------------
  // Whole-packet round trips
  // ---------------------------------------------------------------------------

  lemma KindOfCode(k: Kind)
    ensures KindOf(Code(k)) == Some(k)
  {
  }

  /** Every command, generated with any session time and pin, decodes to its
      kind, its header (length field equal to the packet length, session time
      and pin masked) and its fields, and its checksum is accepted. */
  lemma CommandRoundTrip(c: Command, sessionTime: int, pinCode: int)
    requires |CommandPayload(c)| + 16 < TwoTo16
    ensures var b := EncodeCommand(ModeCommand, c, sessionTime, pinCode);
      var k := CommandKind(c);
      Decode(b) == Success(Some(Decoded(
        k,
        Header(ModeCommand, Code(k), |b|, sessionTime % TwoTo32, CommandFields(pinCode % TwoTo16)),
        Some(true),
        CommandFieldsOf(c))))
  {
    var b := EncodeCommand(ModeCommand, c, sessionTime, pinCode);
    var k := CommandKind(c);
    var p := CommandPayload(c);
    assert b == GenerateCommand(ModeCommand, Code(k), sessionTime, p, pinCode);
    SmallRemainders(Code(k), |b|);
    assert |b| == 16 + |p| && GetU16(2, b) == |b|;
    assert b[0] == ModeCommand && b[1] == Code(k);
    KindOfCode(k);
    var h := Header(ModeCommand, Code(k), |b|, sessionTime % TwoTo32, CommandFields(pinCode % TwoTo16));
    assert DecodeHeader(ModeCommand, b) == h;
    CommandFieldsRoundTrip(c, b);
  }

  /** The header of a generated response decodes to what was asked for,
      whatever the payload. */
  lemma ResponseHeaderRoundTrip(k: Kind, sessionTime: int, p: seq<Byte>, returnCode: int,
                                battery: int, printCount: int)
    requires 0 <= battery < 8 && 0 <= printCount < 16
    requires |p| + 20 < TwoTo16
    ensures var b := ResponseFrame(ModeResponse, Code(k), sessionTime, p, returnCode, battery * 16 + printCount);
      && b[0] == ModeResponse && b[1] == Code(k)
      && GetU16(2, b) == |b|
      && Validate(b, |b|) == Some(true)
      && DecodeHeader(ModeResponse, b) ==
           Header(ModeResponse, Code(k), |b|, sessionTime % TwoTo32,
                  ResponseFields(returnCode % 256, 0, 0, battery, printCount))
  {
    var b := ResponseFrame(ModeResponse, Code(k), sessionTime, p, returnCode, battery * 16 + printCount);
    StatusNibbles(battery, printCount);
    SmallRemainders(Code(k), |b|);
    assert b[0] == ModeResponse && b[1] == Code(k);
    assert GetU8(13, b) == 0;
    assert GetBatteryLevel(b) == battery && GetPrintCount(b) == printCount;
  }

  lemma StatusNibbles(battery: int, printCount: int)
    requires 0 <= battery < 8 && 0 <= printCount < 16
    ensures (battery * 16 + printCount) / 16 % 8 == battery
    ensures (battery * 16 + printCount) % 16 == printCount
  {
  }

  /** Every response with a battery level below 8 and a print count below 16
      (the ranges the status byte can carry back) decodes to its kind, its
      header and its fields, and its checksum is accepted. The ejecting state
      always decodes as 0, whatever was asked for. */
  lemma ResponseRoundTrip(r: Response, sessionTime: int, returnCode: int, ejectState: int,
                          battery: int, printCount: int)
    requires 0 <= battery < 8 && 0 <= printCount < 16
    requires FaithfulModelName(r)
    requires |ResponsePayload(r)| + 20 < TwoTo16
    ensures EncodeResponse(ModeResponse, r, sessionTime, returnCode, ejectState, battery, printCount).Success?
    ensures var b := EncodeResponse(ModeResponse, r, sessionTime, returnCode, ejectState, battery, printCount).value;
      var k := ResponseKind(r);
      Decode(b) == Success(Some(Decoded(
        k,
        Header(ModeResponse, Code(k), |b|, sessionTime % TwoTo32,
               ResponseFields(returnCode % 256, 0, 0, battery, printCount)),
        Some(true),
        ResponseFieldsOf(r))))
  {
    var k := ResponseKind(r);
    var p := ResponsePayload(r);
    StatusRoundTrip(battery, printCount);
    var b := ResponseFrame(ModeResponse, Code(k), sessionTime, p, returnCode, battery * 16 + printCount);
    assert EncodeResponse(ModeResponse, r, sessionTime, returnCode, ejectState, battery, printCount) == Success(b);
    ResponseHeaderRoundTrip(k, sessionTime, p, returnCode, battery, printCount);
    KindOfCode(k);
    ResponseFieldsRoundTrip(r, b);
  }

  // ---------------------------------------------------------------------------
  // The ejecting byte and the packed status byte
  // ---------------------------------------------------------------------------

  /** The ejecting state does not survive the trip: the sender shifts it right
      by 2 and the receiver shifts the byte right by 2 again, so states below
      16 all read back as 0. */
  lemma EjectingReadBack(eject: int)
    ensures GetEjecting(0, EncodeEjecting(eject)) == eject / 16 % 64
    ensures 0 <= eject < 16 ==> GetEjecting(0, EncodeEjecting(eject)) == 0
  {
    var q := eject / 4;
    assert eject / 16 == q / 4;
    assert q == (q / 256) * 256 + q % 256;
    assert q / 4 == (q / 256) * 64 + (q % 256) / 4;
  }

  /** A buffer whose byte 15 is `status`, as the status getters see it. */
  function StatusBuffer(status: Byte): (b: seq<Byte>)
    ensures |b| == 16 && b[15] == status
  {
    Zeros(15) + [status]
  }

  lemma StatusRoundTrip(battery: int, printCount: int)
    requires 0 <= battery < 8 && 0 <= printCount < 16
    ensures PackBatteryAndPrintCount(battery, printCount) == Success(battery * 16 + printCount)
  {
    assert Pow2(4) == 16;
    BitOrDisjoint(battery, printCount, 4);
  }

  /** The status byte carries battery and print count back exactly when the
      battery is below 8 and the print count below 16. */
  lemma StatusRoundTripIff(battery: int, printCount: int)
    requires PackBatteryAndPrintCount(battery, printCount).Success?
    ensures var b := StatusBuffer(PackBatteryAndPrintCount(battery, printCount).value);
      (GetBatteryLevel(b) == battery && GetPrintCount(b) == printCount) <==> (battery < 8 && printCount < 16)
  {
    if battery < 8 && printCount < 16 {
      StatusRoundTrip(battery, printCount);
    }
  }

  /** A battery of 2 with 20 prints packs to 52 (the OR does not mask the
      count), which a receiver reads as battery 3 and print count 4. */
  lemma StatusOverflowExample()
    ensures PackBatteryAndPrintCount(2, 20) == Success(52)
    ensures GetBatteryLevel(StatusBuffer(52)) == 3 && GetPrintCount(StatusBuffer(52)) == 4
  {
    assert BitOr(32, 20) == 52;
  }

  // ---------------------------------------------------------------------------
  // Factory dispatch
  // ---------------------------------------------------------------------------

  /** The factory yields no packet exactly for codes of no implemented kind;
      in particular the pin-change code yields none. */
  lemma DecodeNoneIff(b: seq<Byte>)
    requires |b| >= 2
    ensures Decode(b) == Success(None) <==> forall k: Kind :: Code(k) != b[1]
    ensures b[1] == ChangePasswordCode ==> Decode(b) == Success(None)
  {
    if Decode(b) == Success(None) {
      assert KindOf(b[1]).None?;
    }
  }

  /** Decoding fails past the first two bytes only on a model-name response
      whose four name bytes are not all ASCII. */
  lemma DecodeFailureIff(b: seq<Byte>)
    requires |b| >= 2
    ensures Decode(b).Failure? <==>
      && b[0] == ModeResponse && b[1] == Code(ModelName) && |b| >= 20
      && exists i :: 16 <= i < 20 && b[i] >= 0x80
  {
    if b[0] == ModeResponse && b[1] == Code(ModelName) && |b| >= 20 {
      var name := b[16..20];
      if exists i :: 16 <= i < 20 && b[i] >= 0x80 {
        var i :| 16 <= i < 20 && b[i] >= 0x80;
        assert name[i - 16] >= 0x80;
      } else {
        assert forall j :: 0 <= j < 4 ==> name[j] == b[16 + j];
      }
    }
  }

  /** A packet whose start byte is neither the command nor the response mode
      still decodes its header, but carries no payload fields. */
  lemma DecodeOtherMode(b: seq<Byte>)
    requires |b| >= 2 && b[0] != ModeCommand && b[0] != ModeResponse && KindOf(b[1]).Some?
    ensures Decode(b).Success? && Decode(b).value.Some?
    ensures Decode(b).value.value.fields == NoFields
    ensures Decode(b).value.value.header.fields == NoModeFields
  {
  }
}
