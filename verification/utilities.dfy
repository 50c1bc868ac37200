/** The payload-relative readers: integers read at 16 + offset (the first
    byte after a response header), the status nibbles and bits of byte 15,
    and the model string read as every byte between the header and the
    trailer. */
module Utilities {

  import opened Wrappers
  import opened Wire
  import opened Packet
  import opened PacketRoundTrip

  /** Big-endian 32-bit integer at payload offset `offset`; 0 if short. */
  function PayloadU32(offset: nat, b: seq<Byte>): (r: int)
    ensures r == GetU32(16 + offset, b)
  {
    if |b| < 16 + offset + 4 then 0
    else
      var i := 16 + offset;
      BitOrBytes32(b[i], b[i + 1], b[i + 2], b[i + 3]);
      BitOr(BitOr(BitOr(b[i] as int * 0x100_0000, b[i + 1] as int * 0x1_0000), b[i + 2] as int * 0x100), b[i + 3])
  }

  /** Big-endian 16-bit integer at payload offset `offset`; 0 if short. */
  function PayloadU16(offset: nat, b: seq<Byte>): (r: int)
    ensures r == GetU16(16 + offset, b)
  {
    if |b| < 16 + offset + 2 then 0
    else
      var i := 16 + offset;
      assert Pow2(8) == 0x100;
      BitOrDisjoint(b[i], b[i + 1], 8);
      BitOr(b[i] as int * 0x100, b[i + 1])
  }

  /** The byte at payload offset `offset`; 0 if short. */
  function PayloadU8(offset: nat, b: seq<Byte>): (r: int)
    ensures r == GetU8(16 + offset, b)
  {
    if |b| < 16 + offset + 1 then 0 else b[16 + offset]
  }

  /** Bits 4..6 of byte 15, or -1 for a buffer shorter than 16: the same
      value the packet codec reads as the battery level. */
  function StatusNibbleAt15(b: seq<Byte>): (r: int)
    ensures -1 <= r <= 7
    ensures r == GetBatteryLevel(b)
  {
    if |b| < 16 then -1 else b[15] / 16 % 8
  }

  /** Bit 7 of byte 15 for a buffer longer than 16, else 0. */
  function Above16Check(b: seq<Byte>): (r: int)
    ensures r == 0 || r == 1
    ensures |b| <= 16 ==> r == 0
    ensures |b| > 16 ==> (r == 1 <==> b[15] >= 0x80)
  {
    if |b| > 16 then b[15] / 0x80 % 2 else 0
  }

  /** Bit 4 of byte 15 for a buffer longer than 16, else 0: the lowest bit of
      the battery nibble. */
  function Above16Check2(b: seq<Byte>): (r: int)
    ensures r == 0 || r == 1
    ensures |b| <= 16 ==> r == 0
    ensures |b| > 16 ==> r == GetBatteryLevel(b) % 2
  {
    if |b| > 16 then b[15] / 16 % 2 else 0
  }

  /** Every byte after the 16-byte header and before the 4-byte trailer, one
      character per byte; empty when there are none. */
  function ModelString(b: seq<Byte>): (r: string)
    ensures |r| == (if |b| - 20 < 1 then 0 else |b| - 20)
    ensures forall i :: 0 <= i < |r| ==> r[i] as int == b[16 + i]
  {
    if |b| - 20 < 1 then ""
    else seq(|b| - 20, i requires 0 <= i < |b| - 20 => b[16 + i] as char)
  }

  // ---------------------------------------------------------------------------
  // Against generated responses
  // ---------------------------------------------------------------------------

  /** The model string of a generated response recovers an ASCII model name
      of any length. */
  lemma ModelStringRecoversName(cmdType: int, sessionTime: int, name: string, returnCode: int, status: Byte)
    requires IsAscii(name) && 20 + |name| < TwoTo16
    ensures ModelString(ResponseFrame(ModeResponse, cmdType, sessionTime, Utf8(name), returnCode, status)) == name
  {
    var u := Utf8(name);
    var b := ResponseFrame(ModeResponse, cmdType, sessionTime, u, returnCode, status);
    var r := ModelString(b);
    assert |u| == |name| && b[16..16 + |name|] == u;
    forall i | 0 <= i < |name|
      ensures r[i] == name[i]
    {
      assert b[16 + i] == u[i] == name[i] as int;
    }
  }

  /** The status bits read back what the codec wrote: in a generated
      response whose battery level fits in three bits and print count in
      four, bits 4..6 of byte 15 are the battery level and bit 4 is its
      lowest bit. */
  lemma StatusNibbleReadsBattery(mode: int, cmdType: int, sessionTime: int, payload: seq<Byte>, returnCode: int,
                                 ejectState: int, battery: int, printCount: int)
    requires 0 <= battery < 8 && 0 <= printCount < 16
    ensures GenerateResponse(mode, cmdType, sessionTime, payload, returnCode, ejectState, battery, printCount).Success?
    ensures var b := GenerateResponse(mode, cmdType, sessionTime, payload, returnCode, ejectState, battery,
                                      printCount).value;
      StatusNibbleAt15(b) == battery && Above16Check2(b) == battery % 2
  {
    StatusRoundTrip(battery, printCount);
    StatusNibbles(battery, printCount);
  }

  /** For a four-character name, this reader and the packet codec's
      four-byte ASCII reader agree. */
  lemma ModelStringAgreesWithCodec(b: seq<Byte>)
    requires |b| == 24 && forall i :: 16 <= i < 20 ==> b[i] < 0x80
    ensures GetModelString(16, b) == Success(ModelString(b))
  {
    var bytes := b[16..20];
    var text := AsciiDecode(bytes);
    assert forall j :: 0 <= j < 4 ==> bytes[j] == b[16 + j];
    assert text.Some?;
    var r := ModelString(b);
    forall j | 0 <= j < 4
      ensures text.value[j] == r[j]
    {
      assert text.value[j] as int == bytes[j] == r[j] as int;
    }
    assert text.value == r;
  }
}
