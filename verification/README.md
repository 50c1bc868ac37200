# instax_api in Dafny

A model of the core of `instax_api`, a Python library and test tooling for the
Fujifilm Instax SP-2/SP-3 printers' network protocol. Every message on the wire
is a length-prefixed packet:

- a command header (start byte 36) or a response header (start byte 42);
- a payload whose layout depends on the message kind in byte 1;
- a 16-bit complement of the byte sum, followed by CR LF.

The model covers:

- **Wire** (`wire.dfy`): the big-endian 1/2/4-byte encoders and the getters
  that read 0 from a short buffer, the host language's clamped slices, bitwise
  OR on non-negative integers, the `XX.YY` version text, and the model-name
  text encodings.
- **Checksum** (`checksum.dfy`): the byte sum, the trailer a sender appends,
  and the receiver's check (`validatePacket`). The check's internal exception
  becomes a `None` verdict.
- **Packet** and **PacketRoundTrip** (`packet.dfy`, `packet_roundtrip.dfy`):
  - the twelve message kinds and the factory's dispatch on byte 1;
  - header decoding and command/response generation;
  - the ejecting byte and the packed battery / print-count byte;
  - every kind's command and response payload schema;
  - round trips from what a sender encodes to what a receiver decodes.
- **Commands** (`commands.dfy`): the older command encoder, the time-stamp
  bytes, the response check, the raising end-of-payload check and the fixed
  diagnostic packet.
- **Utilities** (`utilities.dfy`): the payload-relative readers, the bits of
  byte 15 and the whole-payload model string.
- **Image** (`image.dfy`): the transcoder between a 600 x 800 RGB picture and
  the printer's 1 440 000-byte column-planar layout, and the EXIF-orientation
  decision table of `rotate_image`.
- **ServerCommon**, **DebugServer**, **TestServer** (`server_common.dfy`,
  `debug_server.dfy`, `test_server.dfy`): the two printer simulators' answer
  logic. This covers:
  - the pre-print answer table and the fixed replies;
  - the type-195 printing-progress counter;
  - the per-session image-segment map and its reassembly;
  - the connection buffering of the debugging simulator and the two-read
    framing of the older one.
- **Replay** (`replay.dfy`): the capture splitter that cuts a raw recorded
  byte stream into messages at CR LF.

Python exceptions become a `Fault` value in a `Result`, so each error path has
a result instead of a precondition. For example:

- an index past the end is `IndexOutOfRange`;
- a missing dictionary key is `MissingKey`;
- a value outside 0..255 appended to a byte array is `ByteOutOfRange`.

Python integers are unbounded, like Dafny's. Shifts and masks are written as
`/` and `%` by powers of two, which agree with Python's for every sign. `|` is
modelled bit by bit as `Wire.BitOr`.

## Model

| member | source | states |
|---|---|---|
| Wire.GetU32 | instax/packet.py:341-349 | the 4-byte big-endian reader gives a value in [0, 2^32), and 0 when the buffer ends before offset + 4 |
| Wire.EncodeU32 | instax/packet.py:351-358 | the 4-byte setter always writes exactly four bytes, for any integer: it wraps and never raises |
| Wire.EncodeU16 | instax/packet.py:368-373 | the 2-byte setter always writes exactly two bytes, for any integer |
| Wire.EncodeU8 | instax/packet.py:382-386 | the 1-byte setter always writes exactly one byte, for any integer |
| Wire.GetU16 | instax/packet.py:360-366 | the 2-byte reader gives a value in [0, 2^16), and 0 when the buffer ends before offset + 2 |
| Wire.GetU8 | instax/packet.py:375-380 | the 1-byte reader gives the byte at the offset, and 0 past the end |
| Wire.EncodeU32Decodes | instax/packet.py:341-358 | reading back a 4-byte encoding gives the value modulo 2^32 |
| Wire.EncodeU16Decodes | instax/packet.py:360-373 | reading back a 2-byte encoding gives the value modulo 2^16 |
| Wire.EncodeU8Decodes | instax/packet.py:375-386 | reading back a 1-byte encoding gives the value modulo 256 |
| Wire.GetU32At | instax/packet.py:341-349 | a 4-byte field written at any offset of a larger buffer reads back masked: the getter looks only at its own bytes |
| Wire.EncodeU16Injective | instax/packet.py:368-373 | two 16-bit values with the same encoding are equal, so the getter is an exact inverse on the field's range |
| Wire.Slice | instax/packet.py:438-440 | a slice with in-range bounds is the plain subsequence; from an in-range start it is a run of the buffer beginning at that start, and from a start past the end it is empty; it is never longer than the buffer |
| Wire.BitOrDisjoint | instax/utilities.py:7-18 | OR-ing a value shifted left by k with a value below 2^k gives their sum, so the shift-and-OR readers compute the big-endian value |
| Wire.BitOr | instax/packet.py:415-419 | the OR of two non-negative integers is at least each of them and at most their sum |
| Wire.BitOrBelow | instax/packet.py:415-419 | OR never sets a bit at or above the width of both operands, so a nibble and a byte OR to a byte |
| Wire.Hex2 | instax/packet.py:421-425 | two upper-case hexadecimal digits whose value is the byte |
| Wire.FormatVersion | instax/packet.py:421-425 | the version text is five characters, hex digits around a '.', and parsing it back gives the version modulo 2^16 |
| Wire.FirmwareExample | instax/packet.py:421-425 | firmware 275 formats as "01.13" and 0 as "00.00" |
| Wire.Utf8 | instax/packet.py:427-429 | the encoded model name is at least as long as the name, and an ASCII name encodes to its own code points |
| Wire.AsciiDecode | instax/packet.py:431-436 | ASCII decoding succeeds exactly when every byte is below 128, and then gives one character per byte with the byte's value |
| Wire.ConcatAppend | instax/debugServer.py:132-134 | joining one more segment appends it to the joined bytes |
| Checksum.Sum | instax/packet.py:230-233 | the byte sum of the first n bytes lies between 0 and 255 * n |
| Checksum.Trailer | instax/packet.py:276-284 | the trailer ends in CR LF, and its checksum plus the byte sum is 0xFFFF modulo 2^16 |
| Checksum.Seal | instax/packet.py:263-285 | a sealed packet is its body followed by four trailer bytes |
| Checksum.Validate | instax/packet.py:223-252 | an accepting check implies CR LF at the declared position and a complementing checksum, and the check always gives a verdict once the buffer reaches the trailer |
| Checksum.SealValidates | instax/packet.py:276-284 | every sealed body passes the check at its own length |
| Checksum.ValidateIff | instax/packet.py:229-245 | once the buffer reaches the trailer, the check accepts exactly when the trailer is CR LF and the checksum complements the sum |
| Checksum.BadTerminatorRejected | instax/packet.py:235-245 | a trailer that is not CR LF at the declared position is rejected |
| Checksum.SingleByteChangeRejected | instax/packet.py:232-243 | changing any one byte that the sum covers turns an accepted packet into a rejected one |
| Checksum.ValidateIgnoresTail | instax/packet.py:229-245 | bytes past the declared length never change the verdict |
| Packet.KindOf | instax/packet.py:42-76 | the dispatch yields the kind whose code is byte 1, and nothing for a code no kind has |
| Packet.GetEjecting | instax/packet.py:388-393 | the ejecting state read back lies in [0, 64), and 0 for a short buffer |
| Packet.EncodeEjecting | instax/packet.py:395-399 | the sender writes one byte holding bits 2..9 of the ejecting state |
| Packet.PackBatteryAndPrintCount | instax/packet.py:415-419 | packing the status byte succeeds exactly when the battery is in 0..15 and the print count in 0..255, and otherwise fails because the value is not a byte |
| Packet.GetBatteryLevel | instax/packet.py:401-406 | the battery level lies in [-1, 7], and is -1 exactly for a buffer shorter than 16 |
| Packet.GetPrintCount | instax/packet.py:408-413 | the print count lies in [-1, 15], and is -1 exactly for a buffer shorter than 16 |
| Packet.DecodeHeader | instax/packet.py:195-221 | the common fields come from bytes 0..7; the mode decides between command fields (pin) and response fields (return code, ejecting, battery, count) |
| Packet.GenerateCommand | instax/packet.py:254-285 | a command is 16 + payload bytes long, carries mode, code, length, time modulo 2^32, pin modulo 2^16, two zeros, the payload, and passes the check |
| Packet.ResponseFrame | instax/packet.py:287-322 | a response is 20 + payload bytes long, carries mode, code, length, time, four zeros, return code, ejecting 0, the status byte, the payload, and passes the check |
| Packet.GenerateResponse | instax/packet.py:287-322 | response generation fails, with a value that is not a byte, exactly when the status byte cannot be packed; otherwise it is the frame for the packed byte, with the eject argument ignored |
| Packet.CommandPayload | instax/packet.py:951-956 | a send-image payload is 4 bytes longer than the image bytes it carries; every other command payload has at most 12 bytes |
| Packet.ResponsePayload | instax/packet.py:491-1104 | the response payload of each kind has its fixed length: 28 for specifications, 8 for the version, 16 for the print count, 4 for prep-image, send-image, lock-state and pre-print, none for the kinds without fields, and at least one byte per character of a model name |
| Packet.EncodeCommand | instax/packet.py:324-329 | a command of any kind is 16 bytes longer than its payload, carries its kind's code in byte 1 and its payload from byte 12, and passes the check |
| Packet.GeneratedCommandFacts | instax/packet.py:254-285 | a generated command has length 16 + payload, the given code in byte 1, the payload from byte 12, and passes the check |
| Packet.EncodeResponse | instax/packet.py:331-339 | a response of any kind fails exactly when the status byte cannot be packed; otherwise it is 20 bytes longer than its payload, carries its kind's code in byte 1 and its payload from byte 16, and passes the check |
| Packet.GeneratedResponseFacts | instax/packet.py:287-322 | a generated response has length 20 + payload, the given code in byte 1, the payload from byte 16, and passes the check |
| Packet.DecodeCommandFields | instax/packet.py:732-968 | a command is decoded into the fields of its own kind (pre-print, lock, prep-image, send-image, none for the others), each integer within its field's width, and the send-image bytes a run of the buffer starting at byte 16 |
| Packet.DecodeResponseFields | instax/packet.py:491-1112 | decoding a response's fields fails, with NotAscii, exactly for a model-name response of at least 20 bytes with a name byte of 128 or more; a model name is empty or four characters, a send-image sequence number is one byte, and the kinds without fields decode to none |
| Packet.GetModelString | instax/packet.py:431-436 | the model name read from a short buffer is empty; otherwise the read fails with NotAscii exactly when one of the four bytes is 128 or more, and else gives four characters, each the value of its byte |
| Packet.Decode | instax/packet.py:42-76 | decoding fails with IndexOutOfRange exactly for a buffer shorter than 2 (and with NotAscii for a model-name byte of 128 or more, see DecodeFailureIff); an unknown code decodes to nothing; a decoded packet has the kind of byte 1, the header of its mode and the checksum verdict at its length field |
| PacketRoundTrip.CommandFieldsRoundTrip | instax/packet.py:732-962 | each command payload at offset 12 decodes to the command's fields, masked to their widths: pre-print number, lock state, image format/options/length, sequence number and image bytes |
| PacketRoundTrip.PrepImageFieldsRoundTrip | instax/packet.py:885-907 | the prep-image command's format, options and image length survive the trip, masked to 8, 8 and 32 bits |
| PacketRoundTrip.SendImageFieldsRoundTrip | instax/packet.py:951-968 | the send-image command's sequence number survives modulo 2^32 and its image bytes exactly, when the length field is the packet length |
| PacketRoundTrip.SpecificationsFieldsRoundTrip | instax/packet.py:491-524 | all seven specification fields survive the trip, masked to 16, 8 or 32 bits |
| PacketRoundTrip.SpecificationsLayout | instax/packet.py:491-504 | where each specification field sits in its 28-byte payload |
| PacketRoundTrip.VersionFieldsRoundTrip | instax/packet.py:570-591 | the version response decodes to its first field modulo 2^16 and the version texts of firmware and hardware |
| PacketRoundTrip.VersionTextMasked | instax/packet.py:579-591 | the version text of a value read back equals that of the value written |
| PacketRoundTrip.FormatVersionMasked | instax/packet.py:421-425 | the version text depends only on the 16 bits that travel |
| PacketRoundTrip.ModelNameFieldsRoundTrip | instax/packet.py:690-702 | a four-character ASCII model name survives the trip |
| PacketRoundTrip.ResponseFieldsRoundTrip | instax/packet.py:491-1112 | each response payload at offset 16 decodes to the response's fields, masked to their widths; the send-image response keeps only the low byte of its sequence number |
| PacketRoundTrip.KindOfCode | instax/packet.py:42-76 | dispatching on a kind's code gives that kind back |
| PacketRoundTrip.CommandRoundTrip | instax/packet.py:254-285 | every command decodes to its kind; to start byte 36, its code, a length field equal to its length, the time modulo 2^32 and the pin modulo 2^16; to an accepted checksum; and to its fields |
| PacketRoundTrip.ResponseHeaderRoundTrip | instax/packet.py:287-322 | a response frame's header decodes to start byte 42, its code, its length, the time modulo 2^32, the return code, ejecting 0 and the battery and count, and its checksum is accepted |
| PacketRoundTrip.StatusNibbles | instax/packet.py:401-413 | a battery below 8 and a count below 16 are read back from battery * 16 + count |
| PacketRoundTrip.ResponseRoundTrip | instax/packet.py:287-339 | every response whose battery is below 8 and count below 16 decodes to its kind, its header (ejecting always 0), an accepted checksum and its fields |
| PacketRoundTrip.EjectingReadBack | instax/packet.py:388-399 | the ejecting state is shifted right by 2 when written and again when read, so it reads back as the state divided by 16, modulo 64, and every state below 16 reads as 0 |
| PacketRoundTrip.StatusRoundTrip | instax/packet.py:415-419 | a battery below 8 and a count below 16 pack to battery * 16 + count |
| PacketRoundTrip.StatusRoundTripIff | instax/packet.py:401-419 | battery and count come back from the status byte exactly when the battery is below 8 and the count below 16 |
| PacketRoundTrip.StatusOverflowExample | instax/packet.py:415-419 | battery 2 with 20 prints packs to 52, which reads back as battery 3 and count 4 |
| PacketRoundTrip.DecodeNoneIff | instax/packet.py:42-76 | decoding yields nothing exactly for a code no kind has, among them the pin-change code 182 |
| PacketRoundTrip.DecodeFailureIff | instax/packet.py:42-76 | past the first two bytes, decoding fails only on a model-name response of at least 20 bytes with a name byte of 128 or more |
| PacketRoundTrip.DecodeOtherMode | instax/packet.py:195-221 | a packet in neither mode decodes with no mode fields and no payload fields |
| Commands.TimeBytes | instax/commands.py:53-59 | the four time-stamp bytes read back as the time modulo 2^32 |
| Commands.GenerateLegacyCommand | instax/commands.py:21-51 | the older encoder fails exactly when the declared length exceeds the payload; otherwise it gives the header, the payload (only for a positive declared length) and a trailer ending in CR LF |
| Commands.ValidateEndOfPayload | instax/commands.py:89-105 | the raising check gives the packet codec's verdict and raises exactly where the codec has none: when the buffer ends before byte i+2, or at i+3 bytes when byte i+2 is a CR and the read of byte i+3 runs off the end; it always answers once the buffer reaches the trailer |
| Commands.VerifyResponse | instax/commands.py:63-85 | the response check fails exactly for a buffer shorter than 13, and otherwise accepts exactly for start byte 42, the echoed time modulo 2^32, the expected code, a length field equal to the length, and an accepted trailer |
| Commands.LegacyAgreesWithPacket | instax/commands.py:21-51 | with a truthful declared length, the older encoder produces exactly the packet codec's command |
| Commands.LegacyValidates | instax/commands.py:41-51 | with a truthful declared length, the output's length field is its length and the end-of-payload check accepts it |
| Commands.TestCommandIsGenerated | instax/commands.py:15-17 | the diagnostic packet is the version command for time 0xE759EEDE and pin 0xFFFF |
| Commands.TestCommandPieces | instax/commands.py:15-17 | the diagnostic packet's header fields, its byte sum 1534 and its trailer |
| Commands.TestCommandValidates | instax/commands.py:15-17 | the end-of-payload check accepts the diagnostic packet, whose checksum 0xFA01 complements its sum 1534 |
| Commands.VerifyAcceptsGenerated | instax/commands.py:63-85 | every generated response passes the check for its own code and time stamp |
| Commands.VerifyRejectsMismatch | instax/commands.py:82-85 | a response with another time stamp or another code is rejected |
| Utilities.PayloadU32 | instax/utilities.py:7-11 | the payload-relative 4-byte reader is the absolute reader at 16 + offset |
| Utilities.PayloadU16 | instax/utilities.py:14-18 | the payload-relative 2-byte reader is the absolute reader at 16 + offset |
| Utilities.PayloadU8 | instax/utilities.py:20-24 | the payload-relative 1-byte reader is the absolute reader at 16 + offset |
| Utilities.StatusNibbleAt15 | instax/utilities.py:26-30 | this module's reader of bits 4..6 of byte 15 lies in [-1, 7] and agrees with the packet codec's battery reader on every buffer |
| Utilities.StatusNibbleReadsBattery | instax/utilities.py:26-46 | in a generated response with a battery below 8 and a count below 16, the nibble reader gives back the battery written and the bit-4 reader its lowest bit |
| Utilities.Above16Check | instax/utilities.py:36-40 | for a buffer longer than 16 the result is 1 exactly when byte 15 is at least 128, else 0 |
| Utilities.Above16Check2 | instax/utilities.py:42-46 | for a buffer longer than 16 the result is the low bit of the battery level, else 0 |
| Utilities.ModelString | instax/utilities.py:53-63 | the model string has length - 20 characters (none when that is below 1), each the byte at 16 + i |
| Utilities.ModelStringRecoversName | instax/utilities.py:53-63 | the model string of a generated response is the ASCII name it carries, of any length |
| Utilities.ModelStringAgreesWithCodec | instax/utilities.py:53-63 | on a 24-byte response with an ASCII name this reader and the codec's four-byte reader agree |
| Image.OffsetSplit | instax/instaxImage.py:39-50 | the planar offset of row, column and colour lies below 1 440 000 and determines all three |
| Image.OffsetCovers | instax/instaxImage.py:39-50 | every slot below 1 440 000 is the offset of some row, column and colour |
| Image.OffsetBijective | instax/instaxImage.py:39-50 | two coordinates share an offset exactly when they are equal |
| Image.FlattenLength | instax/instaxImage.py:35-36 | the pixel data of h rows of width w has h * w pixels |
| Image.FlattenIndex | instax/instaxImage.py:41 | pixel y * width + x of the pixel data is the pixel in row y, column x |
| Image.RotateLeft | instax/instaxImage.py:72 | a counter-clockwise quarter turn swaps the sizes and moves each pixel to its turned place |
| Image.RotateRight | instax/instaxImage.py:33 | a clockwise quarter turn swaps the sizes and moves each pixel to its turned place |
| Image.RotateHalf | instax/instaxImage.py:165 | a half turn keeps the sizes and reverses both rows and columns |
| Image.Mirror | instax/instaxImage.py:134 | a mirror keeps the sizes and reverses each row |
| Image.Flip | instax/instaxImage.py:142 | a flip keeps the sizes and reverses the order of the rows |
| Image.RotationsInverse | instax/instaxImage.py:30-72 | the two quarter turns undo each other |
| Image.EncodeSpec | instax/instaxImage.py:23-51 | encoding fails for sizes not adding to 1400, and otherwise succeeds exactly when the picture has at least 480 000 pixels (failing on the read past the end when it has fewer); the output has three slots per pixel and every one of the first 1 440 000 is written |
| Image.EncodeImage | instax/instaxImage.py:23-51 | the encoder's loops produce the specified output, and on success write every one of the first 1 440 000 slots |
| Image.DecodeImage | instax/instaxImage.py:53-72 | decoding succeeds exactly for at least 1 440 000 bytes and gives a 600-wide, 800-high picture |
| Image.Landscape | instax/instaxImage.py:57-71 | each colour of the pixel at row h, column w is the byte at its planar offset |
| Image.Values | instax/instaxImage.py:36-50 | the values of a fully written output, slot for slot |
| Image.DecodeThenEncode | instax/instaxImage.py:23-72 | decoding a planar image and encoding the result reproduces the input byte for byte |
| Image.PixelRecovered | instax/instaxImage.py:39-66 | a pixel of an encoded 800 x 600 raster is read back from its three planar offsets |
| Image.EncodeThenDecode | instax/instaxImage.py:23-72 | encoding an 800 x 600 raster writes every slot, and decoding the bytes gives the raster turned a quarter counter-clockwise |
| Image.LandscapeChoice | instax/instaxImage.py:127-156 | a landscape picture always gets a quarter turn |
| Image.PortraitChoice | instax/instaxImage.py:157-181 | a portrait or square picture never gets a quarter turn |
| Image.ChooseOrientation | instax/instaxImage.py:122-182 | the choice fails exactly for a zero height; without EXIF data nothing changes; with it, landscape pictures get a quarter turn and the others do not |
| Image.Reflect | instax/instaxImage.py:134-175 | a reflection keeps the picture's size |
| Image.Turn | instax/instaxImage.py:132-173 | a turn of 90 or 270 swaps the sizes, any other keeps them |
| Image.Orient | instax/instaxImage.py:132-180 | applying a chosen orientation gives a well-formed picture whose sizes are swapped exactly when the turn is a quarter turn |
| Image.OrientedIsPortrait | instax/instaxImage.py:122-182 | with EXIF data the oriented picture is never wider than high, and a portrait picture keeps its size |
| Image.PortraitDefaultsUnchanged | instax/instaxImage.py:158-181 | a portrait picture with tag 1, tag 8, an unknown tag or no tag is returned unchanged |
| Image.LandscapeDefaultsTurnRight | instax/instaxImage.py:127-156 | a landscape picture with tag 1, tag 6, an unknown tag or no tag is turned a quarter clockwise |
| ServerCommon.PrePrintAnswer | instax/debugServer.py:238-249 | the answer is 2 exactly for commands 1..3, 1 exactly for 4..5, and 0 otherwise |
| ServerCommon.PrePrintAnswerDescends | instax/debugServer.py:238-249 | along the pre-print sequence 1..8 the answer never rises |
| ServerCommon.LookupCmdNumber | instax/debugServer.py:240 | the command number exists exactly in pre-print fields; elsewhere the lookup is a missing key |
| ServerCommon.Answer | instax/debugServer.py:193-200 | encoding an answer succeeds exactly when the battery and print count fit the status byte |
| ServerCommon.ModelNameReplyable | instax/debugServer.py:220-227 | a four-character ASCII model name can be answered |
| ServerCommon.FixedRepliesReplyable | instax/testServer.py:98-191 | the fixed version, specifications, print-count and prep-image replies can be answered |
| ServerCommon.DecodedRequest | instax/debugServer.py:195 | the session time a simulator echoes is the request's bytes 4..7 |
| ServerCommon.VerifyReadsTimeModulo | instax/commands.py:72-82 | the response check depends on the time stamp only modulo 2^32 |
| ServerCommon.AnswerFrame | instax/debugServer.py:193-200 | an answer is the response frame of its kind, payload and packed status |
| ServerCommon.AnswerPassesClientCheck | instax/debugServer.py:193-200 | an answer passes the client's check for its code and any time stamp equal modulo 2^32 |
| ServerCommon.RequestAnswerPassesClientCheck | instax/debugServer.py:193-332 | the answer to a request passes the client's check for the request's code and time stamp |
| ServerCommon.FrameRedecodes | instax/debugServer.py:189-190 | a response frame decodes to its kind, its fields and an accepted checksum |
| ServerCommon.AnswerRedecodes | instax/debugServer.py:189-190 | every answer decodes again as a response of its kind with its fields and an accepted checksum |
| DebugServer.ModelFor | instax/debugServer.py:63-67 | the simulator is an SP-3 exactly for version 3, and an SP-2 otherwise |
| DebugServer.ModelNameOf | instax/debugServer.py:223 | the model name is "SP-" and one more character, four ASCII characters in all |
| DebugServer.Init | instax/debugServer.py:53-79 | a fresh simulator reports return code 0, ejecting 0, the battery and the `total` argument as print count, with the counter at 0 and no segments |
| DebugServer.Poll | instax/debugServer.py:310-322 | a poll answers "frame received" exactly at 100, "printing" otherwise, and keeps the counter among 0, 25, 50, 75, 100 |
| DebugServer.PollCodes | instax/debugServer.py:310-322 | n polls give n return codes |
| DebugServer.PollsUntilDone | instax/debugServer.py:310-322 | from j steps below full, j polls answer "printing", the next answers "frame received", and the counter is back at 0 |
| DebugServer.PollsCompose | instax/debugServer.py:310-322 | a + b polls are a polls followed by b more |
| DebugServer.PollsAdvance | instax/debugServer.py:313-317 | below the top every poll adds 25 |
| DebugServer.FivePollsCycle | instax/debugServer.py:310-322 | from any counter value, five polls return to it and exactly one of them answers "frame received" |
| DebugServer.PollCycleCodes | instax/debugServer.py:310-322 | of five polls from j steps below full, poll j is the only one that answers "frame received" |
| DebugServer.PollFromStart | instax/debugServer.py:310-322 | from a fresh start four polls answer "printing" and the fifth "frame received" |
| DebugServer.StoreSegment | instax/debugServer.py:284-296 | storing a segment creates the session's entry if needed, sets or overwrites the sequence number's bytes, and leaves every other segment and session as it was |
| DebugServer.JoinSegments | instax/debugServer.py:132-134 | joining segments 0..n-1 succeeds exactly when all those keys exist, and is otherwise a missing key |
| DebugServer.Reassemble | instax/debugServer.py:129-135 | a session reassembles exactly when its keys include 0 up to its segment count |
| DebugServer.Below | instax/debugServer.py:133 | the keys 0..n-1, n of them |
| DebugServer.Numbered | instax/debugServer.py:292 | the segments of a split image are keyed 0..n-1 by position |
| DebugServer.JoinNumbered | instax/debugServer.py:132-134 | joining the first n numbered segments gives the first n pieces in order |
| DebugServer.ReassembleNumbered | instax/debugServer.py:129-135 | segments numbered from 0 reassemble to the original bytes |
| DebugServer.ReassembleGap | instax/debugServer.py:132-134 | a session that skips a sequence number below its count cannot be reassembled |
| DebugServer.StoreAll | instax/debugServer.py:290-292 | sending a session's segments adds that session and no other |
| DebugServer.StoreNextNumbered | instax/debugServer.py:290-292 | storing the next segment of a numbered session extends the numbering |
| DebugServer.StoreFirstNumbered | instax/debugServer.py:290-292 | the first segment of a new session numbers it from 0 |
| DebugServer.StoreAllNumbers | instax/debugServer.py:290-292 | a new session sent in order is numbered 0..n-1 by position |
| DebugServer.StoredImageReassembles | instax/debugServer.py:129-135 | a new session that sends an image as segments 0..n-1 reassembles to exactly that image |
| DebugServer.Handle | instax/debugServer.py:162-332 | each kind gets a response of its own kind that can be answered (or a missing key); only send-image changes the segments; only type 195 changes the counter and the return code, as one poll |
| DebugServer.Process | instax/debugServer.py:153-191 | a decode failure or an unknown kind ends in a fault with the state unchanged; otherwise the state is the handler's |
| DebugServer.ProcessReplyIff | instax/debugServer.py:153-191 | a reply exists exactly when the handler finds its payload entries, the status fits, and for type 83 the session has segments |
| DebugServer.ProcessReplyPassesClientCheck | instax/debugServer.py:153-191 | every reply passes the client's check for the request's code and time stamp |
| DebugServer.ProcessReplyRedecodes | instax/debugServer.py:189-190 | every reply decodes again as a response of the request's kind with an accepted checksum |
| DebugServer.ProcessKeepsRamp | instax/debugServer.py:310-322 | processing any message keeps the counter among 0, 25, 50, 75, 100 |
| DebugServer.DecodePrePrintCommand | instax/packet.py:739-745 | a pre-print command decodes to its command number at offset 14 |
| DebugServer.ProcessAnswers | instax/debugServer.py:153-191 | a message other than type 83 whose handler succeeds is answered with the encoded response |
| DebugServer.PrePrintAnswerDecodes | instax/debugServer.py:238-255 | the pre-print answer decodes to the command number and the table's answer |
| DebugServer.PrePrintEchoed | instax/debugServer.py:238-255 | a pre-print command is answered with its own number and the table's answer |
| DebugServer.SendImageStored | instax/debugServer.py:284-296 | a send-image command stores its image bytes under its session time and sequence number |
| DebugServer.DefaultStatusOverflows | instax/debugServer.py:53-71 | with the default arguments the status byte overflows and a client reads battery 3 and count 4 |
| DebugServer.Receive | instax/debugServer.py:94-114 | a read fails exactly when the length is still unknown and fewer than four bytes are buffered; an empty read closes; a message is released, with the buffer cleared, only once the buffer reaches the length known before or read from bytes 2..3; otherwise the bytes wait, keeping that length |
| DebugServer.WholeMessage | instax/debugServer.py:99-114 | a whole message arriving in one read is processed as it is |
| DebugServer.SplitMessage | instax/debugServer.py:99-114 | a message in two reads whose first holds the length is processed whole after the second |
| DebugServer.ShortFirstRead | instax/debugServer.py:105-106 | a first read of one to three bytes raises |
| TestServer.Init | instax/testServer.py:16-30 | the simulator reports return code 0, ejecting 0, the battery and the `total` argument as print count |
| TestServer.Handle | instax/testServer.py:77-201 | answered kinds get a response of their own kind; exactly the kinds 83, 195 and 176 get none; send-image always faults |
| TestServer.Reply | instax/testServer.py:67-96 | a message whose mode has no name faults before it is answered |
| TestServer.Respond | instax/testServer.py:67-96 | decode failures propagate, an unknown kind faults, and any other message is answered by its handler |
| TestServer.Serve | instax/testServer.py:50-55 | the serving loop sends exactly the reply the handler gives; a missing reply raises while it is hex-dumped, and every earlier fault propagates |
| TestServer.UnansweredKindRaises | instax/testServer.py:50-95 | a type-83, type-195 or lock-state message in a named mode makes the serving loop raise instead of sending anything |
| TestServer.RespondPassesClientCheck | instax/testServer.py:67-191 | every reply passes the client's check for the request's code and time stamp |
| TestServer.RespondRedecodes | instax/testServer.py:67-191 | every reply decodes again as a response of the request's kind with an accepted checksum |
| TestServer.ReplyIff | instax/testServer.py:77-96 | a reply exists exactly for a named mode, an answered kind whose lookup succeeds, and a status that fits |
| TestServer.NoReplyIff | instax/testServer.py:77-96 | no reply comes exactly for the kinds 83, 195 and 176 in a named mode |
| TestServer.HandleAgrees | instax/testServer.py:98-191 | on an answered kind both simulators choose the same response |
| TestServer.AgreesWithDebugServer | instax/testServer.py:67-191 | on every answered kind the two simulators, started alike, give the same reply |
| TestServer.Frame | instax/testServer.py:40-60 | a header read of at most one byte closes; a two- or three-byte header or a length field of 1..3 raises; a length field of 0 skips the read; a four-byte header with a length field of at least 4 always gives the message of the header and the rest, no longer than its length field |
| TestServer.WholeRequest | instax/testServer.py:41-53 | a message delivered whole is read whole |
| TestServer.ShortReadUnchecked | instax/testServer.py:49-53 | a short second read gives a message whose checksum check has no verdict |
| Replay.RemoveLF | replay.py:32-41 | the capture with every LF removed holds no LF |
| Replay.SplitFrom | replay.py:30-44 | the loop keeps every message closed before it, in order, at the front of its result |
| Replay.Messages | replay.py:25-44 | every message ends with CR LF, holds no CR LF before its last byte, and every message after the first begins with 36 or 42; the messages together are a prefix of the kept bytes |
| Replay.Discarded | replay.py:30-44 | the messages followed by the discarded tail are exactly the kept bytes: the capture less each LF that follows a kept CR and precedes a byte other than 36 or 42; the tail holds no CR LF and, after a cut, is empty or begins with 36 or 42 |
| Replay.Keep | replay.py:31-43 | the bytes the loop keeps: an LF after a kept CR is dropped exactly when another byte follows and is not 36 or 42, and nothing else is dropped; never longer than the capture |
| Replay.SplitFromKeep | replay.py:30-44 | from any point of the loop, the closed messages and the message being built, in order, are the earlier ones followed by the kept bytes of the rest |
| Replay.KeepCut | replay.py:32-41 | an LF after a CR that closes a message is kept, and the next message starts with no CR before it |
| Replay.KeepStep | replay.py:42-43 | a byte appended to the message is kept, and the message then ends in a CR exactly when that byte is a CR |
| Replay.SplitMessagesKept | replay.py:30-44 | the messages together are a prefix of the kept bytes |
| Replay.MessagesAreKept | replay.py:25-44 | the messages followed by the discarded tail equal the kept bytes of the capture |
| Replay.SplitFromNoInnerCRLF | replay.py:31-43 | the loop never closes a message with a CR LF inside it nor leaves one in its tail, and after a cut the tail begins with a start byte |
| Replay.LFAfterCRKeptOnlyAtCut | replay.py:32-41 | for every capture, an LF after a CR survives only where a message is cut: no message holds a CR LF before its end, the discarded tail holds none, and after a cut the tail is empty or begins with 36 or 42 |
| Replay.DropsNone | replay.py:30-44 | a byte string is itself with no LF deleted |
| Replay.DropOneMore | replay.py:32-38 | deleting one more LF anywhere in the original keeps the relation |
| Replay.DropsLFsKeeps | replay.py:30-44 | deleting LFs in place keeps every other byte in order and never lengthens |
| Replay.SplitFromDropsLFs | replay.py:31-44 | the loop's messages and tail are its input with some LFs deleted where they stood and nothing else changed |
| Replay.SplitFromEndsWithCRLF | replay.py:31-44 | every message the loop closes ends with CR LF |
| Replay.MessagesEndWithCRLF | replay.py:25-44 | every message of a capture ends with CR LF |
| Replay.RemoveLFAppend | replay.py:32-41 | removing LFs distributes over concatenation |
| Replay.SplitFromKeepsBytes | replay.py:31-44 | the loop's messages and tail equal its input once every LF is removed from both |
| Replay.MessagesKeepBytes | replay.py:25-44 | the messages and the discarded tail, in order, are the capture with some LFs deleted where they stood and nothing else changed; so they keep every other byte in order and are never longer |
| Replay.SplitFromShrinks | replay.py:31-44 | the loop never adds bytes |
| Replay.SplitFromCutsBeforeStart | replay.py:32-41 | the loop closes a message only before a start byte or at the end |
| Replay.LaterMessagesBeginWithStartByte | replay.py:25-44 | every message after the first begins with 36 or 42 |
| Replay.FrameStep | replay.py:31-43 | the loop reads the rest of a clean message and closes it |
| Replay.FramesStep | replay.py:31-44 | the loop splits a run of clean messages into those messages |
| Replay.SplitConcatRoundTrip | replay.py:25-44 | splitting the concatenation of clean messages gives them back, with nothing discarded |
| Replay.SplitQuirksExample | replay.py:32-44 | a CR LF before an ordinary byte loses its LF and does not cut, and an unterminated tail is discarded |

## Left out

- Image.EncodeSpec: a pixel is an RGB triple only. The encoder unpacks three values per pixel (instax/instaxImage.py:41), so a four-value RGBA picture raises there; crop_square builds an RGBA picture (instax/instaxImage.py:191) and the conversion keeps its mode (instax/instaxImage.py:94), so a square photo never encodes. Image modes are not modelled.
- The sockets, accept loops, threads, time-outs and signal handler of both simulators: a connection is modelled as the chunks its reads return.
- The debugging simulator's message log and JSON dump, and the text of every hex-dump and debug printer, because it is output only. Where a printer raises, the fault is modelled (TestServer.Reply, TestServer.Serve).
- The image-decoding thread started after a type-83 message: its segment-combining loop is modelled (DebugServer.JoinSegments, DebugServer.Reassemble). Right after that loop the thread builds its image object with a keyword the constructor does not accept, so it raises and the combined bytes are never decoded or saved. That raise, the decoding and the BMP saving are not modelled, because the failure stays in the thread and never reaches the reply.
- A message whose code has no packet class, in the older simulator: the factory gives nothing and the first attribute access on it raises. That is modelled as the fault `NoneHasNoAttribute`; what is printed is not modelled.
- TestServer.Serve: for kinds 83, 195 and 176 the handler's reply is None and the serving loop raises a TypeError hex-dumping it. This is modelled as the fault `NoneNotIterable`. That the raise ends the loop and leaves the client unanswered is not modelled, because the accept loop is left out.
- Image loading, conversion, cropping, preview and saving, the resampling and float aspect-ratio arithmetic, and the library's rotate and frombytes calls. Rotations are pixel permutations on fixed-size grids.
- Image.ChooseOrientation: the float aspect ratio is compared as integers (width > height). This agrees with the rounded division for every size below 2^53, which covers any image the imaging library can hold; above that the division can round a wider picture's ratio to 1.
- The client-side transport, print-job sequencing and timing (SocketClientThread, the SP-2 client): threads, queues and clocks.
- The status-code and response-code modules: the first does not parse and the second only holds constants.
- Scripts, command-line front ends, argument validation, and the replay script's file read: the splitter takes the file's bytes as its input.
- The stub modules for the Bluetooth packet and the SP-4 printer, which hold no logic.
- Utilities.PayloadU32: the offset is a natural number. A negative offset, which no caller passes, would read from inside the header.
- Utilities.PayloadU16: the offset is a natural number, for the same reason.
- Utilities.PayloadU8: the offset is a natural number, for the same reason.
- Packet.Decode: the pin-change code 182 has no packet class and is modelled as an unknown code.
