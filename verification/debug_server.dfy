/** The debugging printer simulator: a server that answers every implemented
    message kind, keeps the image segments each session sends, and walks a
    printing-progress counter through 0, 25, 50, 75, 100 on successive
    status polls (type 195), reporting "still printing" until the counter
    is full. The socket, the threads and the message log are left out; a
    connection's byte stream is modelled as the chunks it delivers. */
module DebugServer {

  import opened Wrappers
  import opened Wire
  import opened Packet
  import opened Commands
  import opened PacketRoundTrip
  import opened ServerCommon

  // ---------------------------------------------------------------------------
  // Configuration
  // ---------------------------------------------------------------------------

  /** The printer generation the simulator pretends to be. */
  datatype Model = SP2 | SP3

  /** Versions 2 and 3 are accepted; anything else is logged and treated as 2. */
  function ModelFor(version: int): (m: Model)
    ensures m == SP3 <==> version == 3
  {
    if version == 3 then SP3 else SP2
  }

  /** The model name, "SP-" followed by the version number. */
  function ModelNameOf(m: Model): (name: string)
    ensures |name| == 4 && IsAscii(name) && name[..3] == "SP-"
  {
    match m
    case SP2 => "SP-2"
    case SP3 => "SP-3"
  }

  /** The simulator's state: its fixed configuration, the printing-progress
      counter, and the image segments received so far, by session time and
      then by sequence number. */
  datatype Server = Server(
    model: Model,
    returnCode: int,
    ejecting: int,
    battery: int,
    printCount: int,
    remaining: int,
    printingState: int,
    imageMap: map<int, map<int, seq<Byte>>>)

  /** A freshly started simulator. The reported print count is the `total`
      argument, not `remaining`. */
  function Init(battery: int, remaining: int, total: int, version: int): (s: Server)
    ensures s.model == ModelFor(version)
    ensures s.returnCode == ReturnFrameReceived && s.ejecting == 0
    ensures s.battery == battery && s.printCount == total
    ensures s.printingState == 0 && s.imageMap == map[]
  {
    Server(ModelFor(version), ReturnFrameReceived, 0, battery, total, remaining, 0, map[])
  }

  /** The simulator started with its default arguments. */
  function Default(): Server {
    Init(2, 10, 20, 2)
  }

  // ---------------------------------------------------------------------------
  // The printing-progress counter
  // ---------------------------------------------------------------------------

  /** The values the counter can take. */
  predicate RampState(n: int) {
    n == 0 || n == 25 || n == 50 || n == 75 || n == 100
  }

  /** One status poll: a full counter answers "frame received" and restarts
      at 0; any other value answers "printing" and advances by 25. */
  function Poll(state: int): (r: (int, int))
    ensures r.0 == ReturnFrameReceived || r.0 == ReturnPrinting
    ensures r.0 == ReturnFrameReceived <==> state == 100
    ensures RampState(state) ==> RampState(r.1)
  {
    if state == 100 then (ReturnFrameReceived, 0) else (ReturnPrinting, state + 25)
  }

  /** The return codes of `n` successive polls. */
  function PollCodes(state: int, n: nat): (codes: seq<int>)
    ensures |codes| == n
    decreases n
  {
    if n == 0 then [] else [Poll(state).0] + PollCodes(Poll(state).1, n - 1)
  }

  /** The counter after `n` successive polls. */
  function PollState(state: int, n: nat): int
    decreases n
  {
    if n == 0 then state else PollState(Poll(state).1, n - 1)
  }

  /** The first `n` codes all say "printing". */
  predicate AllPrinting(codes: seq<int>, n: int) {
    forall i :: 0 <= i < n && i < |codes| ==> codes[i] == ReturnPrinting
  }

  /** From a counter `j` steps below full, the printer reports "printing"
      on the first `j` polls, answers "frame received" on the next, and is
      back at 0 afterwards. */
  lemma {:induction false} PollsUntilDone(state: int, j: nat)
    requires j <= 4 && state == 100 - 25 * j
    ensures PollCodes(state, j + 1)[j] == ReturnFrameReceived
    ensures AllPrinting(PollCodes(state, j + 1), j)
    ensures PollState(state, j + 1) == 0
    decreases j
  {
    if j == 0 {
      assert PollCodes(state, 1) == [ReturnFrameReceived];
    } else {
      PollsUntilDone(state + 25, j - 1);
      assert PollCodes(state, j + 1) == [ReturnPrinting] + PollCodes(state + 25, j);
    }
  }

  /** Polling `a + b` times is polling `a` times and then `b` more. */
  lemma {:induction false} PollsCompose(state: int, a: nat, b: nat)
    ensures PollCodes(state, a + b) == PollCodes(state, a) + PollCodes(PollState(state, a), b)
    ensures PollState(state, a + b) == PollState(PollState(state, a), b)
    decreases a
  {
    if a > 0 {
      PollsCompose(Poll(state).1, a - 1, b);
    }
  }

  /** Below the top, each poll advances the counter by 25. */
  lemma {:induction false} PollsAdvance(state: int, m: nat)
    requires 0 <= state && state + 25 * m <= 100
    ensures PollState(state, m) == state + 25 * m
    decreases m
  {
    if m > 0 {
      PollsAdvance(state + 25, m - 1);
    }
  }

  /** From any counter value, five polls bring the counter back where it
      started, and exactly one of them answers "frame received". */
  lemma FivePollsCycle(state: int)
    requires RampState(state)
    ensures PollState(state, 5) == state
    ensures |set i | 0 <= i < 5 && PollCodes(state, 5)[i] == ReturnFrameReceived| == 1
  {
    var j := (100 - state) / 25;
    assert state == 100 - 25 * j;
    PollCycleCodes(state, j);
    OneHit(PollCodes(state, 5), j);
  }

  /** Five polls from `state`, which is `j` polls below the top: poll `j`
      is the only one that finds the counter full. */
  lemma PollCycleCodes(state: int, j: nat)
    requires j <= 4 && state == 100 - 25 * j
    ensures PollState(state, 5) == state
    ensures forall i :: 0 <= i < 5 ==> (PollCodes(state, 5)[i] == ReturnFrameReceived <==> i == j)
  {
    var k := j + 1;
    // the first k polls run up to the top and answer once
    PollsUntilDone(state, j);
    PollsCompose(state, k, 5 - k);
    var first := PollCodes(state, k);
    // the remaining ones climb from 0 back to the starting value
    PollsUntilDone(0, 4);
    PollsCompose(0, 5 - k, k);
    PollsAdvance(0, 4 - j);
    var rest := PollCodes(0, 5 - k);
    assert forall i :: 0 <= i < 5 - k ==> rest[i] == PollCodes(0, 5)[i];
    forall i | 0 <= i < 5
      ensures PollCodes(state, 5)[i] == ReturnFrameReceived <==> i == j
    {
      if i < k {
        assert PollCodes(state, 5)[i] == first[i];
      } else {
        assert PollCodes(state, 5)[i] == rest[i - k];
      }
    }
  }

  lemma OneHit(c: seq<int>, j: int)
    requires |c| == 5 && 0 <= j < 5
    requires forall i :: 0 <= i < 5 ==> (c[i] == ReturnFrameReceived <==> i == j)
    ensures |set i | 0 <= i < 5 && c[i] == ReturnFrameReceived| == 1
  {
    var hits := set i | 0 <= i < 5 && c[i] == ReturnFrameReceived;
    assert hits == {j};
  }

  // ---------------------------------------------------------------------------
  // Image segments
  // ---------------------------------------------------------------------------

  /** Records a segment under its session time and sequence number,
      creating the session's entry if needed and overwriting a segment sent
      twice. */
  function StoreSegment(m: map<int, map<int, seq<Byte>>>, session: int, seqNo: int, bytes: seq<Byte>)
    : (r: map<int, map<int, seq<Byte>>>)
    ensures r.Keys == m.Keys + {session}
    ensures session in r && seqNo in r[session] && r[session][seqNo] == bytes
    ensures session in m ==> r[session].Keys == m[session].Keys + {seqNo}
    ensures session !in m ==> r[session].Keys == {seqNo}
    ensures forall q :: q in r[session] && q != seqNo ==> r[session][q] == m[session][q]
    ensures forall s :: s in m && s != session ==> r[s] == m[s]
  {
    var segments := if session in m then m[session] else map[];
    m[session := segments[seqNo := bytes]]
  }

  /** The segments with keys 0 .. n-1 joined in key order; a missing key
      raises. */
  function JoinSegments(segments: map<int, seq<Byte>>, n: nat): (r: Result<seq<Byte>, Fault>)
    ensures r.Success? <==> forall k :: 0 <= k < n ==> k in segments
    ensures r.Failure? ==> r.error == MissingKey
    decreases n
  {
    if n == 0 then Success([])
    else
      var front :- JoinSegments(segments, n - 1);
      if n - 1 in segments then Success(front + segments[n - 1]) else Failure(MissingKey)
  }

  /** The image of one session: as many segments as there are entries,
      joined by sequence number. */
  function Reassemble(segments: map<int, seq<Byte>>): (r: Result<seq<Byte>, Fault>)
    ensures r.Success? <==> forall k :: 0 <= k < |segments| ==> k in segments
  {
    JoinSegments(segments, |segments|)
  }

  /** The keys 0 .. n-1. */
  function Below(n: nat): (r: set<int>)
    ensures forall i :: i in r <==> 0 <= i < n
    ensures |r| == n
  {
    if n == 0 then {} else Below(n - 1) + {n - 1}
  }

  /** The segments of a split image, keyed by position. */
  function Numbered(chunks: seq<seq<Byte>>): (m: map<int, seq<Byte>>)
    ensures m.Keys == Below(|chunks|)
    ensures forall i :: 0 <= i < |chunks| ==> m[i] == chunks[i]
  {
    map i | 0 <= i < |chunks| :: chunks[i]
  }

  lemma {:induction false} JoinNumbered(chunks: seq<seq<Byte>>, n: nat)
    requires n <= |chunks|
    ensures JoinSegments(Numbered(chunks), n) == Success(Concat(chunks[..n]))
  {
    if n > 0 {
      JoinNumbered(chunks, n - 1);
      assert chunks[..n] == chunks[..n - 1] + [chunks[n - 1]];
      ConcatAppend(chunks[..n - 1], chunks[n - 1]);
    } else {
      assert chunks[..0] == [];
    }
  }

  /** An image split into segments numbered from 0 reassembles to the
      original bytes. */
  lemma ReassembleNumbered(chunks: seq<seq<Byte>>)
    ensures Reassemble(Numbered(chunks)) == Success(Concat(chunks))
  {
    JoinNumbered(chunks, |chunks|);
    assert chunks[..|chunks|] == chunks;
  }

  /** A session whose sequence numbers skip one of 0 .. n-1 cannot be
      reassembled. */
  lemma ReassembleGap(segments: map<int, seq<Byte>>, k: int)
    requires 0 <= k < |segments| && k !in segments
    ensures Reassemble(segments) == Failure(MissingKey)
  {
  }

  /** Sending the segments of a session in order, each under its position. */
  function StoreAll(m: map<int, map<int, seq<Byte>>>, session: int, chunks: seq<seq<Byte>>)
    : (r: map<int, map<int, seq<Byte>>>)
    ensures r.Keys == m.Keys + (if |chunks| == 0 then {} else {session})
    decreases |chunks|
  {
    if |chunks| == 0 then m
    else StoreSegment(StoreAll(m, session, chunks[..|chunks| - 1]), session, |chunks| - 1, chunks[|chunks| - 1])
  }

  /** Storing the next segment of a numbered session extends the numbering. */
  lemma StoreNextNumbered(r0: map<int, map<int, seq<Byte>>>, session: int, chunks: seq<seq<Byte>>)
    requires |chunks| > 1 && session in r0 && r0[session] == Numbered(chunks[..|chunks| - 1])
    ensures StoreSegment(r0, session, |chunks| - 1, chunks[|chunks| - 1])[session] == Numbered(chunks)
  {
    var n := |chunks|;
    var front := chunks[..n - 1];
    var got := StoreSegment(r0, session, n - 1, chunks[n - 1])[session];
    var want := Numbered(chunks);
    assert got.Keys == r0[session].Keys + {n - 1};
    assert r0[session].Keys == Below(n - 1);
    assert Below(n) == Below(n - 1) + {n - 1};
    forall q | q in got
      ensures got[q] == want[q]
    {
      assert 0 <= q < n;
      assert want[q] == chunks[q];
      if q != n - 1 {
        assert q in Below(n - 1);
        assert got[q] == r0[session][q];
        assert r0[session][q] == front[q];
      }
    }
    SameMap(got, want);
  }

  lemma {:induction false} StoreAllNumbers(m: map<int, map<int, seq<Byte>>>, session: int, chunks: seq<seq<Byte>>)
    requires session !in m && |chunks| > 0
    ensures StoreAll(m, session, chunks)[session] == Numbered(chunks)
    decreases |chunks|
  {
    var n := |chunks|;
    var front := chunks[..n - 1];
    var r0 := StoreAll(m, session, front);
    var r := StoreSegment(r0, session, n - 1, chunks[n - 1]);
    assert StoreAll(m, session, chunks) == r;
    if n == 1 {
      assert r0 == m;
      StoreFirstNumbered(m, session, chunks);
    } else {
      StoreAllNumbers(m, session, front);
      StoreNextNumbered(r0, session, chunks);
    }
  }

  /** The first segment of a new session numbers it from 0. */
  lemma StoreFirstNumbered(m: map<int, map<int, seq<Byte>>>, session: int, chunks: seq<seq<Byte>>)
    requires session !in m && |chunks| == 1
    ensures StoreSegment(m, session, 0, chunks[0])[session] == Numbered(chunks)
  {
    var got := StoreSegment(m, session, 0, chunks[0])[session];
    var want := Numbered(chunks);
    assert Below(1) == {0};
    assert got.Keys == {0} == want.Keys;
    assert got[0] == chunks[0] == want[0];
    SameMap(got, want);
  }

  lemma SameMap(a: map<int, seq<Byte>>, b: map<int, seq<Byte>>)
    requires a.Keys == b.Keys && forall q :: q in a ==> a[q] == b[q]
    ensures a == b
  {
    forall q | q in a
      ensures q in b && a[q] == b[q]
    {
    }
    forall q | q in b
      ensures q in a
    {
    }
  }

  /** A new session that sends an image as segments 0 .. n-1 has exactly that
      image reassembled. */
  lemma StoredImageReassembles(m: map<int, map<int, seq<Byte>>>, session: int, chunks: seq<seq<Byte>>)
    requires session !in m && |chunks| > 0
    ensures Reassemble(StoreAll(m, session, chunks)[session]) == Success(Concat(chunks))
  {
    StoreAllNumbers(m, session, chunks);
    ReassembleNumbered(chunks);
  }

  // ---------------------------------------------------------------------------
  // Answering one message
  // ---------------------------------------------------------------------------

  function StatusOf(s: Server, returnCode: int): Status {
    Status(returnCode, s.ejecting, s.battery, s.printCount)
  }

  /** What the handler of a decoded message decides before encoding: the new
      state, the response (or the fault a payload lookup raised), and the
      return code to report. */
  datatype Plan = Plan(server: Server, response: Result<Response, Fault>, returnCode: int)

  function Handle(s: Server, d: Decoded): (p: Plan)
    ensures p.response.Success? ==> ResponseKind(p.response.value) == d.kind && Replyable(p.response.value)
    ensures p.response.Failure? ==> p.response.error == MissingKey
    ensures p.server.model == s.model && p.server.ejecting == s.ejecting
    ensures p.server.battery == s.battery && p.server.printCount == s.printCount
    ensures p.server.returnCode == s.returnCode && p.server.remaining == s.remaining
    ensures d.kind != SendImage ==> p.server.imageMap == s.imageMap
    ensures d.kind != Type195 ==> p.server.printingState == s.printingState && p.returnCode == s.returnCode
    ensures d.kind == Type195 ==> (p.returnCode, p.server.printingState) == Poll(s.printingState)
  {
    var rc := s.returnCode;
    match d.kind
    case PrinterVersion => Plan(s, Success(VersionReply), rc)
    case Specifications => Plan(s, Success(SpecificationsReply), rc)
    case ModelName =>
      ModelNameReplyable(ModelNameOf(s.model));
      Plan(s, Success(ModelNameResponse(ModelNameOf(s.model))), rc)
    case PrintCount => Plan(s, Success(PrintCountReply), rc)
    case PrePrint =>
      (match LookupCmdNumber(d.fields)
       case Failure(e) => Plan(s, Failure(e), rc)
       case Success(n) => Plan(s, Success(PrePrintResponse(n, PrePrintAnswer(n))), rc))
    case LockDevice => Plan(s, Success(PrinterLockResponse), rc)
    case Reset => Plan(s, Success(ResetResponse), rc)
    case PrepImage => Plan(s, Success(PrepImageReply), rc)
    case SendImage =>
      (match d.fields
       case SendImageCommandFields(seqNo, bytes) =>
         var stored := StoreSegment(s.imageMap, d.header.sessionTime, seqNo, bytes);
         Plan(s.(imageMap := stored), Success(SendImageResponse(seqNo)), rc)
       case _ => Plan(s, Failure(MissingKey), rc))
    case Type83 => Plan(s, Success(Type83Response), rc)
    case Type195 =>
      var (code, next) := Poll(s.printingState);
      Plan(s.(printingState := next), Success(Type195Response), code)
    case SetLockState => Plan(s, Success(LockStateResponse(100)), rc)
  }

  /** The state after a message and the reply sent back, or the fault that
      ended the connection. A state change made before the fault is kept. */
  datatype Outcome = Outcome(server: Server, reply: Result<seq<Byte>, Fault>)

  /** Processes one incoming message. A message of no implemented kind
      decodes to nothing, and reading its name raises. A type-83 message
      starts the reassembly of its session's image after the reply is
      encoded, and looking the session up raises when it sent no segments. */
  function Process(s: Server, request: seq<Byte>): (o: Outcome)
    ensures Decode(request).Failure? ==> o == Outcome(s, Failure(Decode(request).error))
    ensures Decode(request) == Success(None) ==> o == Outcome(s, Failure(NoneHasNoAttribute))
    ensures Decode(request).Success? && Decode(request).value.Some? ==>
      o.server == Handle(s, Decode(request).value.value).server
  {
    match Decode(request)
    case Failure(e) => Outcome(s, Failure(e))
    case Success(None) => Outcome(s, Failure(NoneHasNoAttribute))
    case Success(Some(d)) =>
      var plan := Handle(s, d);
      match plan.response
      case Failure(e) => Outcome(plan.server, Failure(e))
      case Success(resp) =>
        var reply := Answer(StatusOf(plan.server, plan.returnCode), resp, d.header.sessionTime);
        if reply.Success? && d.kind == Type83 && d.header.sessionTime !in plan.server.imageMap then
          Outcome(plan.server, Failure(MissingKey))
        else
          Outcome(plan.server, reply)
  }

  /** A reply exists exactly when the reported battery level and print count
      fit the status byte's range and no payload lookup fails. */
  lemma ProcessReplyIff(s: Server, request: seq<Byte>)
    requires Decode(request).Success? && Decode(request).value.Some?
    ensures var d := Decode(request).value.value;
      var plan := Handle(s, d);
      Process(s, request).reply.Success? <==>
        && plan.response.Success?
        && 0 <= s.battery < 16 && 0 <= s.printCount < 256
        && (d.kind == Type83 ==> d.header.sessionTime in s.imageMap)
  {
  }

  /** Every reply passes the client's response check for the request's
      command code and the time stamp the client put in the request. */
  lemma ProcessReplyPassesClientCheck(s: Server, request: seq<Byte>, t: int)
    requires GetU32(4, request) == t % TwoTo32
    ensures var o := Process(s, request);
      o.reply.Success? ==> VerifyResponse(o.reply.value, t, request[1]) == Success(true)
  {
    var o := Process(s, request);
    if o.reply.Success? {
      var d := Decode(request).value.value;
      var plan := Handle(s, d);
      RequestAnswerPassesClientCheck(request, d, plan.response.value, StatusOf(plan.server, plan.returnCode), t);
    }
  }

  /** Every reply decodes again as a response of the request's kind with an
      accepted checksum, so logging it cannot fail. */
  lemma ProcessReplyRedecodes(s: Server, request: seq<Byte>)
    ensures var o := Process(s, request);
      o.reply.Success? ==>
        && Decode(o.reply.value).Success? && Decode(o.reply.value).value.Some?
        && Decode(o.reply.value).value.value.kind == Decode(request).value.value.kind
        && Decode(o.reply.value).value.value.valid == Some(true)
  {
    var o := Process(s, request);
    if o.reply.Success? {
      var d := Decode(request).value.value;
      var plan := Handle(s, d);
      AnswerRedecodes(StatusOf(plan.server, plan.returnCode), plan.response.value, d.header.sessionTime);
    }
  }

  /** Processing keeps the printing-progress counter among its five values. */
  lemma ProcessKeepsRamp(s: Server, request: seq<Byte>)
    requires RampState(s.printingState)
    ensures RampState(Process(s, request).server.printingState)
  {
  }

  /** How a pre-print command decodes. */
  lemma DecodePrePrintCommand(request: seq<Byte>)
    requires |request| >= 2 && request[0] == ModeCommand && request[1] == Code(PrePrint)
    ensures Decode(request).Success? && Decode(request).value.Some?
    ensures Decode(request).value.value.kind == PrePrint
    ensures Decode(request).value.value.fields == PrePrintCommandFields(GetU16(14, request))
  {
    KindOfCode(PrePrint);
  }

  /** A decoded message of any kind but 83 whose handler finds its payload
      entries is answered with the encoded response. */
  lemma ProcessAnswers(s: Server, request: seq<Byte>, d: Decoded)
    requires Decode(request) == Success(Some(d)) && d.kind != Type83
    requires Handle(s, d).response.Success?
    ensures var plan := Handle(s, d);
      Process(s, request).reply == Answer(StatusOf(plan.server, plan.returnCode), plan.response.value,
                                          d.header.sessionTime)
  {
  }

  /** The pre-print answer, decoded again, carries the command number and
      the table's answer. */
  lemma PrePrintAnswerDecodes(d: Decoded, n: int, status: Status)
    requires d.kind == PrePrint && 0 <= n < TwoTo16
    requires 0 <= status.battery < 16 && 0 <= status.printCount < 256
    ensures var b := Answer(status, PrePrintResponse(n, PrePrintAnswer(n)), d.header.sessionTime).value;
      && Decode(b).Success? && Decode(b).value.Some?
      && Decode(b).value.value.fields == PrePrintResponseFields(n, PrePrintAnswer(n))
  {
    var resp := PrePrintResponse(n, PrePrintAnswer(n));
    assert ResponseFieldsOf(resp) == PrePrintResponseFields(n, PrePrintAnswer(n));
    AnswerRedecodes(status, resp, d.header.sessionTime);
  }

  /** A pre-print command is answered with its own command number and the
      answer from the table. */
  lemma PrePrintEchoed(s: Server, request: seq<Byte>)
    requires |request| >= 2 && request[0] == ModeCommand && request[1] == Code(PrePrint)
    requires 0 <= s.battery < 16 && 0 <= s.printCount < 256
    ensures var o := Process(s, request);
      var n := GetU16(14, request);
      && o.reply.Success?
      && Decode(o.reply.value).Success? && Decode(o.reply.value).value.Some?
      && Decode(o.reply.value).value.value.fields == PrePrintResponseFields(n, PrePrintAnswer(n))
  {
    DecodePrePrintCommand(request);
    var d := Decode(request).value.value;
    var n := GetU16(14, request);
    var resp := PrePrintResponse(n, PrePrintAnswer(n));
    var status := StatusOf(s, s.returnCode);
    assert LookupCmdNumber(d.fields) == Success(n);
    assert Handle(s, d) == Plan(s, Success(resp), s.returnCode);
    ProcessAnswers(s, request, d);
    PrePrintAnswerDecodes(d, n, status);
  }

  /** A send-image command stores its payload bytes under its session time
      and sequence number, leaving every other segment as it was. */
  lemma SendImageStored(s: Server, request: seq<Byte>)
    requires |request| >= 2 && request[0] == ModeCommand && request[1] == Code(SendImage)
    ensures var m := Process(s, request).server.imageMap;
      var session := GetU32(4, request);
      var seqNo := GetU32(12, request);
      && m == StoreSegment(s.imageMap, session, seqNo, Slice(request, 16, 16 + (GetU16(2, request) - 20)))
      && m[session][seqNo] == Slice(request, 16, 16 + (GetU16(2, request) - 20))
  {
    KindOfCode(SendImage);
  }

  /** Status polls from the start: four "printing" answers, then "frame
      received". */
  lemma PollFromStart()
    ensures PollCodes(0, 5) == [ReturnPrinting, ReturnPrinting, ReturnPrinting, ReturnPrinting,
                                ReturnFrameReceived]
  {
    PollsUntilDone(0, 4);
  }

  /** With the default arguments (battery 2, print count 20) the status byte
      overflows: a client reads battery level 3 and print count 4. */
  lemma DefaultStatusOverflows(request: seq<Byte>)
    requires Decode(request).Success? && Decode(request).value.Some?
    requires Decode(request).value.value.kind == PrinterVersion
    ensures var o := Process(Default(), request);
      && o.reply.Success?
      && GetBatteryLevel(o.reply.value) == 3
      && GetPrintCount(o.reply.value) == 4
  {
    var d := Decode(request).value.value;
    var status := StatusOf(Default(), ReturnFrameReceived);
    StatusOverflowExample();
    var frame := ResponseFrame(ModeResponse, Code(PrinterVersion), d.header.sessionTime,
                               ResponsePayload(VersionReply), ReturnFrameReceived, 52);
    assert Process(Default(), request).reply == Success(frame);
    assert frame[15] == 52;
  }

  // ---------------------------------------------------------------------------
  // A connection's byte stream
  // ---------------------------------------------------------------------------

  /** Bytes received since the last processed message, and the length read
      from the first four of them, once known. */
  datatype Connection = Connection(buffer: seq<Byte>, length: Option<int>)

  const Fresh: Connection := Connection([], None)

  datatype Received =
    | Closed                                        // an empty read: the client left
    | Waiting(conn: Connection)                     // not yet a whole message
    | Message(conn: Connection, message: seq<Byte>) // a message to process

  /** The message length a connection waits for after a read: the one
      already known, or else the big-endian value of bytes 2..3. */
  function DeclaredLength(c: Connection, data: seq<Byte>): int {
    if c.length.Some? then c.length.value else GetU16(2, c.buffer + data)
  }

  /** One read from the socket. The message length is taken from bytes 2..3
      of the buffer once, which raises while fewer than four bytes are
      buffered; when the buffer reaches the length, all of it (including any
      bytes past the length) is processed and the buffer starts afresh. */
  function Receive(c: Connection, data: seq<Byte>): (r: Result<Received, Fault>)
    ensures r.Failure? <==> |data| > 0 && c.length.None? && |c.buffer + data| < 4
    ensures r.Failure? ==> r.error == IndexOutOfRange
    ensures |data| == 0 <==> r == Success(Closed)
    ensures r.Success? && r.value.Message? ==> r.value == Message(Fresh, c.buffer + data)
    ensures r.Success? && r.value.Message? ==> |c.buffer + data| >= DeclaredLength(c, data)
    ensures r.Success? && r.value.Waiting? ==>
      && r.value.conn.buffer == c.buffer + data
      && r.value.conn.length == Some(DeclaredLength(c, data))
      && |c.buffer + data| < DeclaredLength(c, data)
  {
    if |data| == 0 then Success(Closed)
    else
      var buffer := c.buffer + data;
      if c.length.None? && |buffer| < 4 then Failure(IndexOutOfRange)
      else
        var length := if c.length.Some? then c.length.value else GetU16(2, buffer);
        if |buffer| < length then Success(Waiting(Connection(buffer, Some(length))))
        else Success(Message(Fresh, buffer))
  }

  /** A whole message arriving in one read is processed as it is. */
  lemma WholeMessage(p: seq<Byte>)
    requires |p| >= 4 && GetU16(2, p) <= |p|
    ensures Receive(Fresh, p) == Success(Message(Fresh, p))
  {
    assert [] + p == p;
  }

  /** A message whose length field is its length, arriving in two reads of
      which the first holds at least the four length bytes, is processed
      whole after the second read. */
  lemma SplitMessage(p: seq<Byte>, cut: nat)
    requires GetU16(2, p) == |p| && 4 <= cut < |p|
    ensures Receive(Fresh, p[..cut]) == Success(Waiting(Connection(p[..cut], Some(|p|))))
    ensures Receive(Connection(p[..cut], Some(|p|)), p[cut..]) == Success(Message(Fresh, p))
  {
    assert [] + p[..cut] == p[..cut];
    assert GetU16(2, p[..cut]) == GetU16(2, p);
    assert p[..cut] + p[cut..] == p;
  }

  /** A first read of one to three bytes raises. */
  lemma ShortFirstRead(data: seq<Byte>)
    requires 0 < |data| < 4
    ensures Receive(Fresh, data) == Failure(IndexOutOfRange)
  {
  }
}
