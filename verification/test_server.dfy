/** The older printer simulator: stateless, always answering as an SP-2,
    reading each message as a four-byte header followed by one read of the
    rest. It answers eight message kinds the way the debugging simulator
    does and raises on a send-image message (its response is built with a
    keyword the constructor does not accept). For three more kinds its
    handler returns no reply, and the serving loop then raises while
    hex-dumping that missing reply, before anything is sent. It prints every
    decoded message first, which raises for a packet whose mode byte is
    neither command nor response. */
module TestServer {

  import opened Wrappers
  import opened Wire
  import opened Checksum
  import opened Packet
  import opened Commands
  import opened PacketRoundTrip
  import opened ServerCommon
  import DebugServer

  /** The simulator's fixed configuration. */
  datatype Config = Config(returnCode: int, ejecting: int, battery: int, printCount: int, remaining: int)

  /** The reported print count is the `total` argument, not `remaining`. */
  function Init(battery: int, remaining: int, total: int): (c: Config)
    ensures c.returnCode == ReturnFrameReceived && c.ejecting == 0
    ensures c.battery == battery && c.printCount == total
  {
    Config(ReturnFrameReceived, 0, battery, total, remaining)
  }

  function StatusOf(c: Config): Status {
    Status(c.returnCode, c.ejecting, c.battery, c.printCount)
  }

  /** The kinds this simulator answers. */
  predicate Answered(k: Kind) {
    k in {PrinterVersion, Specifications, ModelName, PrintCount, PrePrint, LockDevice, Reset, PrepImage}
  }

  /** The kinds this simulator leaves unanswered. */
  predicate Unanswered(k: Kind) {
    k in {Type83, Type195, SetLockState}
  }

  /** The response for a decoded message: one for an answered kind (or the
      fault its payload lookup raises), none for an unanswered kind, and a
      fault for a send-image message. */
  function Handle(d: Decoded): (r: Result<Option<Response>, Fault>)
    ensures r.Success? && r.value.Some? ==>
      ResponseKind(r.value.value) == d.kind && Replyable(r.value.value)
    ensures r == Success(None) <==> Unanswered(d.kind)
    ensures d.kind == SendImage <==> r == Failure(BadArgument)
  {
    match d.kind
    case PrinterVersion => Success(Some(VersionReply))
    case Specifications => Success(Some(SpecificationsReply))
    case ModelName =>
      ModelNameReplyable("SP-2");
      Success(Some(ModelNameResponse("SP-2")))
    case PrintCount => Success(Some(PrintCountReply))
    case PrePrint =>
      (match LookupCmdNumber(d.fields)
       case Failure(e) => Failure(e)
       case Success(n) => Success(Some(PrePrintResponse(n, PrePrintAnswer(n)))))
    case LockDevice => Success(Some(PrinterLockResponse))
    case Reset => Success(Some(ResetResponse))
    case PrepImage => Success(Some(PrepImageReply))
    case SendImage => Failure(BadArgument)
    case _ => Success(None)
  }

  /** The answer to a decoded message sent with mode byte `mode`: printing
      it raises first when the mode has no name. */
  function Reply(c: Config, mode: Byte, d: Decoded): (r: Result<Option<seq<Byte>>, Fault>)
    ensures mode != ModeCommand && mode != ModeResponse ==> r == Failure(MissingKey)
  {
    if mode != ModeCommand && mode != ModeResponse then Failure(MissingKey)
    else
      match Handle(d)
      case Failure(e) => Failure(e)
      case Success(None) => Success(None)
      case Success(Some(resp)) =>
        var reply :- Answer(StatusOf(c), resp, d.header.sessionTime);
        Success(Some(reply))
  }

  /** Processes one incoming message: decodes it, prints it (a message of no
      implemented kind is nothing to print), and answers it. */
  function Respond(c: Config, request: seq<Byte>): (r: Result<Option<seq<Byte>>, Fault>)
    ensures Decode(request).Failure? ==> r == Failure(Decode(request).error)
    ensures Decode(request) == Success(None) ==> r == Failure(NoneHasNoAttribute)
    ensures Decode(request).Success? && Decode(request).value.Some? ==>
      r == Reply(c, request[0], Decode(request).value.value)
  {
    match Decode(request)
    case Failure(e) => Failure(e)
    case Success(None) => Failure(NoneHasNoAttribute)
    case Success(Some(d)) => Reply(c, request[0], d)
  }

  /** Every reply passes the client's response check for the request's
      command code and the time stamp the client put in the request. */
  lemma RespondPassesClientCheck(c: Config, request: seq<Byte>, t: int)
    requires GetU32(4, request) == t % TwoTo32
    ensures var r := Respond(c, request);
      r.Success? && r.value.Some? ==> VerifyResponse(r.value.value, t, request[1]) == Success(true)
  {
    var r := Respond(c, request);
    if r.Success? && r.value.Some? {
      var d := Decode(request).value.value;
      RequestAnswerPassesClientCheck(request, d, Handle(d).value.value, StatusOf(c), t);
    }
  }

  /** Every reply decodes again as a response of the request's kind with an
      accepted checksum. */
  lemma RespondRedecodes(c: Config, request: seq<Byte>)
    ensures var r := Respond(c, request);
      r.Success? && r.value.Some? ==>
        && Decode(r.value.value).Success? && Decode(r.value.value).value.Some?
        && Decode(r.value.value).value.value.kind == Decode(request).value.value.kind
        && Decode(r.value.value).value.value.valid == Some(true)
  {
    var r := Respond(c, request);
    if r.Success? && r.value.Some? {
      var d := Decode(request).value.value;
      AnswerRedecodes(StatusOf(c), Handle(d).value.value, d.header.sessionTime);
    }
  }

  /** Which decoded messages are answered: exactly those of an answered kind
      in mode 36 or 42 whose payload lookup succeeds, while the reported
      battery level and print count fit the status byte. */
  lemma ReplyIff(c: Config, mode: Byte, d: Decoded)
    ensures var r := Reply(c, mode, d);
      r.Success? && r.value.Some? <==>
        && (mode == ModeCommand || mode == ModeResponse)
        && Answered(d.kind)
        && (d.kind == PrePrint ==> LookupCmdNumber(d.fields).Success?)
        && 0 <= c.battery < 16 && 0 <= c.printCount < 256
  {
  }

  /** Which decoded messages get no answer: the unanswered kinds, in mode 36
      or 42. */
  lemma NoReplyIff(c: Config, mode: Byte, d: Decoded)
    ensures Reply(c, mode, d) == Success(None) <==>
      (mode == ModeCommand || mode == ModeResponse) && Unanswered(d.kind)
  {
  }

  /** On an answered kind, both simulators pick the same response. */
  lemma HandleAgrees(s: DebugServer.Server, d: Decoded)
    requires s.model == DebugServer.SP2 && Answered(d.kind)
    ensures var p := DebugServer.Handle(s, d);
      && (Handle(d).Success? <==> p.response.Success?)
      && (p.response.Success? ==> Handle(d).value == Some(p.response.value))
      && (p.response.Failure? ==> Handle(d).error == p.response.error)
      && p.server == s && p.returnCode == s.returnCode
  {
  }

  /** On every kind this simulator answers, it answers exactly as the
      debugging simulator started as an SP-2 with the same arguments. */
  lemma AgreesWithDebugServer(battery: int, remaining: int, total: int, version: int, request: seq<Byte>)
    requires version != 3
    requires Decode(request).Success? && Decode(request).value.Some?
    requires Answered(Decode(request).value.value.kind)
    requires request[0] == ModeCommand || request[0] == ModeResponse
    ensures var r := Respond(Init(battery, remaining, total), request);
      var o := DebugServer.Process(DebugServer.Init(battery, remaining, total, version), request);
      && (r.Success? <==> o.reply.Success?)
      && (r.Success? ==> r.value == Some(o.reply.value))
      && (r.Failure? ==> r.error == o.reply.error)
  {
    var d := Decode(request).value.value;
    var s := DebugServer.Init(battery, remaining, total, version);
    var c := Init(battery, remaining, total);
    HandleAgrees(s, d);
    var p := DebugServer.Handle(s, d);
    assert DebugServer.StatusOf(s, s.returnCode) == StatusOf(c);
    if p.response.Success? {
      DebugServer.ProcessAnswers(s, request, d);
      assert Respond(c, request) == Reply(c, request[0], d);
    }
  }

  /** The serving loop's step for one message: the reply is hex-dumped
      before it is sent, so a missing reply raises there and nothing is
      sent. */
  function Serve(c: Config, request: seq<Byte>): (r: Result<seq<Byte>, Fault>)
    ensures r.Success? <==> Respond(c, request).Success? && Respond(c, request).value.Some?
    ensures r.Success? ==> Respond(c, request) == Success(Some(r.value))
    ensures Respond(c, request) == Success(None) ==> r == Failure(NoneNotIterable)
    ensures Respond(c, request).Failure? ==> r == Failure(Respond(c, request).error)
  {
    match Respond(c, request)
    case Failure(e) => Failure(e)
    case Success(None) => Failure(NoneNotIterable)
    case Success(Some(reply)) => Success(reply)
  }

  /** A message of one of the three unanswered kinds, in a named mode, makes
      the serving loop raise instead of sending anything. */
  lemma UnansweredKindRaises(c: Config, request: seq<Byte>)
    requires Decode(request).Success? && Decode(request).value.Some?
    requires Unanswered(Decode(request).value.value.kind)
    requires request[0] == ModeCommand || request[0] == ModeResponse
    ensures Serve(c, request) == Failure(NoneNotIterable)
  {
    NoReplyIff(c, request[0], Decode(request).value.value);
  }

  // ---------------------------------------------------------------------------
  // Reading a message off the socket
  // ---------------------------------------------------------------------------

  datatype Framed =
    | Close                     // a header read of at most one byte: the client left
    | Skip                      // a length field of zero: nothing is read or answered
    | Request(message: seq<Byte>)

  /** One message: a read of up to four header bytes, then, for a nonzero
      length field, one read of up to length - 4 bytes; the two are joined
      without checking that the second read was complete. Reading the length
      field of a two- or three-byte header raises, and so does a read of a
      negative size. */
  function Frame(header: seq<Byte>, rest: seq<Byte>): (r: Result<Framed, Fault>)
    requires |header| <= 4
    requires |header| == 4 && GetU16(2, header) >= 4 ==> |rest| <= GetU16(2, header) - 4
    ensures r == Success(Close) <==> |header| <= 1
    ensures r.Failure? <==> 2 <= |header| <= 3 || (|header| == 4 && 0 < GetU16(2, header) < 4)
    ensures r.Success? && r.value.Request? ==>
      && r.value.message == header + rest
      && |r.value.message| <= GetU16(2, header)
    ensures |header| == 4 && GetU16(2, header) >= 4 ==> r == Success(Request(header + rest))
    ensures |header| == 4 && GetU16(2, header) == 0 ==> r == Success(Skip)
  {
    if |header| <= 1 then Success(Close)
    else if |header| < 4 then Failure(IndexOutOfRange)
    else
      var length := GetU16(2, header);
      if length == 0 then Success(Skip)
      else if length < 4 then Failure(BadArgument)
      else Success(Request(header + rest))
  }

  /** A message delivered whole is read whole. */
  lemma WholeRequest(p: seq<Byte>)
    requires 4 <= |p| && GetU16(2, p) == |p|
    ensures Frame(p[..4], p[4..]) == Success(Request(p))
  {
    assert GetU16(2, p[..4]) == GetU16(2, p);
    assert p[..4] + p[4..] == p;
  }

  /** A second read that returns fewer bytes than asked yields a message
      shorter than its own length field, and the checksum check then reads
      past its end and gives no verdict. */
  lemma ShortReadUnchecked(header: seq<Byte>, rest: seq<Byte>)
    requires |header| == 4 && GetU16(2, header) >= 4
    requires |rest| + 2 <= GetU16(2, header) - 4
    ensures Frame(header, rest).Success? && Frame(header, rest).value.Request?
    ensures var m := Frame(header, rest).value.message;
      GetU16(2, m) == GetU16(2, header) && Validate(m, GetU16(2, m)).None?
  {
    var m := header + rest;
    assert m[..4] == header;
    assert m[2] == header[2] && m[3] == header[3];
  }
}
