/** What the two printer simulators share: the pre-print answer table, the
    fixed answers they give, the lookup of the pre-print command number in
    a decoded payload, and the facts that every reply they build is a
    well-formed response a client accepts and can decode again. */
module ServerCommon {

  import opened Wrappers
  import opened Wire
  import opened Packet
  import opened Commands
  import opened PacketRoundTrip

  /** The values a simulator reports in every response header. */
  datatype Status = Status(returnCode: int, ejecting: int, battery: int, printCount: int)

  /** The answer number a simulator gives to a pre-print command number:
      commands 6..8 answer 0, 4..5 answer 1, 1..3 answer 2, and every other
      number (logged as unknown) answers 0. */
  function PrePrintAnswer(cmdNumber: int): (r: int)
    ensures 0 <= r <= 2
    ensures r == 2 <==> 1 <= cmdNumber <= 3
    ensures r == 1 <==> 4 <= cmdNumber <= 5
  {
    if cmdNumber in {6, 7, 8} then 0
    else if cmdNumber in {4, 5} then 1
    else if cmdNumber in {1, 2, 3} then 2
    else 0
  }

  /** The pre-print sequence the client walks through, from command 1 to
      command 8: the answer falls from 2 to 0 and never rises. */
  lemma PrePrintAnswerDescends(a: int, b: int)
    requires 1 <= a <= b <= 8
    ensures PrePrintAnswer(b) <= PrePrintAnswer(a)
  {
  }

  /** The fixed answers. */
  const VersionReply: Response := VersionResponse(254, 275, 0)
  const SpecificationsReply: Response := SpecificationsResponse(800, 600, 256, 10, 60000, 16, 0)
  const PrintCountReply: Response := PrintCountResponse(20)
  const PrepImageReply: Response := PrepImageResponse(60000)

  /** The `cmdNumber` entry of a decoded payload: present in the pre-print
      fields of both modes, a missing key everywhere else. */
  function LookupCmdNumber(f: Fields): (r: Result<int, Fault>)
    ensures r.Success? <==> f.PrePrintCommandFields? || f.PrePrintResponseFields?
    ensures r.Failure? ==> r.error == MissingKey
    ensures f.PrePrintCommandFields? ==> r == Success(f.cmdNumber)
    ensures f.PrePrintResponseFields? ==> r == Success(f.cmdNumber)
  {
    match f
    case PrePrintCommandFields(n) => Success(n)
    case PrePrintResponseFields(n, _) => Success(n)
    case _ => Failure(MissingKey)
  }

  /** A response encoded in response mode with the simulator's status. */
  function Answer(status: Status, resp: Response, sessionTime: int): (r: Result<seq<Byte>, Fault>)
    ensures r.Success? <==> 0 <= status.battery < 16 && 0 <= status.printCount < 256
  {
    EncodeResponse(ModeResponse, resp, sessionTime, status.returnCode, status.ejecting, status.battery,
                   status.printCount)
  }

  /** A reply a simulator may build: short enough for its length field and
      carrying a four-character ASCII model name, if any. */
  predicate Replyable(resp: Response) {
    |ResponsePayload(resp)| <= 28 && FaithfulModelName(resp)
  }

  lemma ModelNameReplyable(name: string)
    requires |name| == 4 && IsAscii(name)
    ensures Replyable(ModelNameResponse(name))
  {
  }

  lemma FixedRepliesReplyable()
    ensures Replyable(VersionReply) && Replyable(SpecificationsReply)
    ensures Replyable(PrintCountReply) && Replyable(PrepImageReply)
  {
  }

  /** What a decoded request says about its own bytes. */
  lemma DecodedRequest(request: seq<Byte>, d: Decoded)
    requires Decode(request) == Success(Some(d))
    ensures d.header.sessionTime == GetU32(4, request)
    ensures Code(d.kind) == request[1]
  {
  }

  lemma SmallModulo(st: int, t: int)
    requires 0 <= st < TwoTo32 && st == t % TwoTo32
    ensures st % TwoTo32 == t % TwoTo32
  {
  }

  /** The response check reads the time stamp modulo 2^32 only. */
  lemma VerifyReadsTimeModulo(b: seq<Byte>, t1: int, t2: int, commandType: int)
    requires t1 % TwoTo32 == t2 % TwoTo32
    ensures VerifyResponse(b, t1, commandType) == VerifyResponse(b, t2, commandType)
  {
  }

  /** The frame an answer is made of. */
  lemma AnswerFrame(status: Status, resp: Response, sessionTime: int)
    requires 0 <= status.battery < 16 && 0 <= status.printCount < 256
    ensures Answer(status, resp, sessionTime).value ==
      ResponseFrame(ModeResponse, Code(ResponseKind(resp)), sessionTime, ResponsePayload(resp), status.returnCode,
                    PackBatteryAndPrintCount(status.battery, status.printCount).value)
  {
  }

  /** The answer passes the client's response check: a client whose time
      stamp agrees with the answer's modulo 2^32 and that asked for the
      answer's command code accepts it. */
  lemma AnswerPassesClientCheck(status: Status, resp: Response, sessionTime: int, t: int)
    requires Replyable(resp)
    requires sessionTime % TwoTo32 == t % TwoTo32
    requires Answer(status, resp, sessionTime).Success?
    ensures VerifyResponse(Answer(status, resp, sessionTime).value, t, Code(ResponseKind(resp))) == Success(true)
  {
    var k := ResponseKind(resp);
    var p := ResponsePayload(resp);
    var code := PackBatteryAndPrintCount(status.battery, status.printCount).value;
    var frame := ResponseFrame(ModeResponse, Code(k), sessionTime, p, status.returnCode, code);
    AnswerFrame(status, resp, sessionTime);
    VerifyAcceptsGenerated(Code(k), sessionTime, p, status.returnCode, code);
    VerifyReadsTimeModulo(frame, sessionTime, t, Code(k));
  }

  /** The answer to a request passes the client's response check for the
      request's command code and the time stamp the client put in it. */
  lemma RequestAnswerPassesClientCheck(request: seq<Byte>, d: Decoded, resp: Response, status: Status, t: int)
    requires Decode(request) == Success(Some(d))
    requires ResponseKind(resp) == d.kind && Replyable(resp)
    requires GetU32(4, request) == t % TwoTo32
    requires 0 <= status.battery < 16 && 0 <= status.printCount < 256
    ensures VerifyResponse(Answer(status, resp, d.header.sessionTime).value, t, request[1]) == Success(true)
  {
    DecodedRequest(request, d);
    var st := d.header.sessionTime;
    SmallModulo(st, t);
    AnswerPassesClientCheck(status, resp, st, t);
  }

  /** A response frame carrying a replyable response decodes to its kind, its
      fields and an accepted checksum. */
  lemma FrameRedecodes(resp: Response, sessionTime: int, returnCode: int, status: Byte)
    requires Replyable(resp)
    ensures var b := ResponseFrame(ModeResponse, Code(ResponseKind(resp)), sessionTime, ResponsePayload(resp),
                                   returnCode, status);
      Decode(b) == Success(Some(Decoded(ResponseKind(resp), DecodeHeader(ModeResponse, b), Some(true),
                                        ResponseFieldsOf(resp))))
  {
    var k := ResponseKind(resp);
    var p := ResponsePayload(resp);
    var b := ResponseFrame(ModeResponse, Code(k), sessionTime, p, returnCode, status);
    KindOfCode(k);
    SmallRemainders(Code(k), |b|);
    assert b[0] == ModeResponse && b[1] == Code(k);
    assert GetU16(2, b) == |b|;
    ResponseFieldsRoundTrip(resp, b);
    assert DecodeResponseFields(k, b) == Success(ResponseFieldsOf(resp));
  }

  /** The answer decodes again, as a response of its own kind carrying its
      fields and an accepted checksum. */
  lemma AnswerRedecodes(status: Status, resp: Response, sessionTime: int)
    requires Replyable(resp)
    requires Answer(status, resp, sessionTime).Success?
    ensures var b := Answer(status, resp, sessionTime).value;
      && Decode(b).Success? && Decode(b).value.Some?
      && Decode(b).value.value.kind == ResponseKind(resp)
      && Decode(b).value.value.valid == Some(true)
      && Decode(b).value.value.fields == ResponseFieldsOf(resp)
  {
    AnswerFrame(status, resp, sessionTime);
    FrameRedecodes(resp, sessionTime, status.returnCode,
                   PackBatteryAndPrintCount(status.battery, status.printCount).value);
  }
}
