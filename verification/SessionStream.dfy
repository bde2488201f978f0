/**
 What a session makes of a whole connection: a head its handshake accepts, then the frames of a
 conforming peer, however many of those bytes have arrived.
 */
module SessionStream {
  import opened Bytes
  import opened Frames
  import opened FrameReader
  import opened FrameStream
  import opened Resumable
  import opened Session
  import Handshake
  import Base64
  import Utf8

  // ---- After the handshake ----

  /** The status a fault is closed with, section 7.4.1 of RFC 6455. */
  function FaultStatus(fault: Fault): nat {
    match fault
    case ProtocolViolation => 1002
    case UnsupportedMessage => 1003
    case InvalidUtf8 => 1007
    case MessageTooLarge => 1009
  }

  /** The two bytes of a close status. */
  function StatusBytes(status: nat): bytes {
    [status / 256 % 256, status % 256]
  }

  /** The session events that a reader's events amount to; a close without a status is told as 1005. */
  function Given(events: seq<Event>): seq<SessionEvent> {
    if events == [] then []
    else
      (match events[0]
       case Message(text, _) => [TextMessage(text)]
       case PingHeard(_, _) => []
       case PongHeard(_, _) => []
       case CloseHeard(status, reason, _) => [Closed(if status.Some? then status.value else 1005, reason)]
       case Faulted(fault, at) => [SessionFault(fault, FaultStatus(fault), at)])
      + Given(events[1..])
  }

  /** What a reader's events leave owed: each ping its payload again, a close its status, a fault its own. */
  function Owing(events: seq<Event>): seq<Reply> {
    if events == [] then []
    else
      (match events[0]
       case Message(_, _) => []
       case PingHeard(payload, _) => [FrameReply(Pong, payload)]
       case PongHeard(_, _) => []
       case CloseHeard(status, _, _) => [FrameReply(Close, if status.Some? then StatusBytes(status.value) else [])]
       case Faulted(fault, _) => [FrameReply(Close, StatusBytes(FaultStatus(fault)))])
      + Owing(events[1..])
  }

  /** The session goes on while nothing heard ends it. */
  function GoesOn(events: seq<Event>): bool {
    forall e :: e in events ==> !e.CloseHeard? && !e.Faulted?
  }

  lemma StatusIsTwoBytes(status: nat)
    ensures ClosePayload(status) == StatusBytes(status)
  {
    assert BigEndian(status / 256, 1) == BigEndian(status / 256 / 256, 0) + [status / 256 % 256];
  }

  /** What an open session does about one event of its reader. */
  lemma ReactionIs(c: Core, event: Event)
    ensures var r := React(c, event);
            var c' := if r.Silent? then r.core else r.core;
            && c'.owed == c.owed + Owing([event])
            && Given([event]) == (if r.Silent? then [] else [r.event])
            && c'.reader == c.reader && (c.phase.Open? ==> (c'.phase.Open? <==> GoesOn([event])))
            && (c.phase.Open? && !c'.phase.Open? ==> c'.phase.Ended?)
  {
    assert [event][1..] == [];
    if event.CloseHeard? && event.status.Some? {
      StatusIsTwoBytes(event.status.value);
    } else if event.Faulted? {
      StatusIsTwoBytes(CloseStatusFor(event.fault));
    }
    assert event in [event];
  }

  lemma OneMore(event: Event, tail: seq<Event>)
    ensures Given([event] + tail) == Given([event]) + Given(tail) && Owing([event] + tail) == Owing([event]) + Owing(tail)
    ensures GoesOn([event] + tail) <==> GoesOn([event]) && GoesOn(tail)
  {
    assert [event][1..] == [] && ([event] + tail)[1..] == tail;
    assert event in [event] && event in [event] + tail;
    assert forall e :: e in tail ==> e in [event] + tail;
  }

  /** An open session gives exactly what its reader gives, owes what that leaves owed, and ends with it. */
  lemma {:induction false} OpenDrains(o: Options, c: Core)
    requires c.phase.Open? && Shrinks(Serving(o)) && Shrinks(Reading(ConfigOf(o)))
    ensures var events, run := Drain(Reading(ConfigOf(o)), c.reader).events, Drain(Serving(o), c);
            && run.events == Given(events) && run.state.owed == c.owed + Owing(events)
            && (run.state.phase.Open? <==> GoesOn(events)) && !run.state.phase.Handshaking?
    decreases |c.reader.unread|
  {
    hide NextOf, React, Given, Owing, GoesOn;
    var cfg := ConfigOf(o);
    var step := NextOf(cfg, c.reader);
    assert Reading(cfg).next(c.reader) == step;
    NothingGiven();
    if step.event.None? {
      assert c.owed + [] == c.owed;
    } else {
      var event, tail := step.event.value, Drain(Reading(cfg), step.state).events;
      assert Drain(Reading(cfg), c.reader).events == [event] + tail;
      OneMore(event, tail);
      var r := React(c.(reader := step.state), event);
      ReactionIs(c.(reader := step.state), event);
      assert c.owed + Owing([event]) + Owing(tail) == c.owed + (Owing([event]) + Owing(tail));
      if r.Silent? {
        SilentGoesOn(c.(reader := step.state), event);
        assert Serving(o).next(c) == Serving(o).next(r.core);
        OpenDrains(o, r.core);
        assert [] + Given(tail) == Given(tail);
      } else if r.core.phase.Open? {
        OpenDrains(o, r.core);
      } else {
        EndsTheReader(c.(reader := step.state), event);
        StopsTheReader(cfg, c.reader);
        StoppedIsSilent(cfg, step.state);
        EndedIsSilent(o, r.core);
      }
    }
  }

  lemma NothingGiven()
    ensures Given([]) == [] && Owing([]) == [] && GoesOn([])
  {
  }

  lemma SilentGoesOn(c: Core, event: Event)
    requires c.phase.Open? && React(c, event).Silent?
    ensures React(c, event).core.phase.Open?
  {
  }

  lemma EndsTheReader(c: Core, event: Event)
    requires c.phase.Open? && !React(c, event).core.phase.Open?
    ensures event.CloseHeard? || event.Faulted?
  {
  }

  lemma EndedIsSilent(o: Options, c: Core)
    requires c.phase.Ended? && Shrinks(Serving(o))
    ensures Drain(Serving(o), c) == Run(c, [])
  {
  }

  lemma StoppedIsSilent(cfg: Config, r: Reader)
    requires r.stopped && Shrinks(Reading(cfg))
    ensures Drain(Reading(cfg), r) == Run(r, [])
  {
  }

  // ---- The replies a session comes to owe ----

  /** A frame the other end will accept as this session's own. */
  ghost predicate GoodReply(reply: Reply) {
    reply.FrameReply? && |reply.payload| <= 125
    && (reply.opcode.Pong? || (reply.opcode.Close? && ReadClose(reply.payload).Reads?))
  }

  ghost predicate GoodReplies(replies: seq<Reply>) {
    forall r :: r in replies ==> GoodReply(r)
  }

  lemma TurnIsShort(cfg: Config, r: Reader)
    requires TurnOf(cfg, r).Emit?
    ensures var e := TurnOf(cfg, r).event;
            && (e.PingHeard? ==> |e.payload| <= 125)
            && (e.CloseHeard? && e.status.Some? ==> CloseStatusIsValid(e.status.value) && e.status.value < 0x1_0000)
  {
    hide Parse, Encode, Utf8.Valid, DataFault;
    if Parse(ContextOf(cfg, r), r.unread).Parsed? {
      EncodeOfParsed(ContextOf(cfg, r), r.unread);
    }
  }

  lemma TurnShrinks(cfg: Config, r: Reader)
    requires TurnOf(cfg, r).Advance?
    ensures |TurnOf(cfg, r).reader.unread| < |r.unread|
  {
    hide Parse, Utf8.Valid;
  }

  /** Control events come with what control frames can carry. */
  lemma {:induction false} ControlIsShort(cfg: Config, r: Reader)
    ensures var e := NextOf(cfg, r).event;
            && (e.Some? && e.value.PingHeard? ==> |e.value.payload| <= 125)
            && (e.Some? && e.value.CloseHeard? && e.value.status.Some? ==>
                  CloseStatusIsValid(e.value.status.value) && e.value.status.value < 0x1_0000)
    decreases |r.unread|
  {
    hide TurnOf, CloseStatusIsValid;
    if !r.stopped {
      match TurnOf(cfg, r) {
        case Wait =>
        case Advance(next) =>
          TurnShrinks(cfg, r);
          ControlIsShort(cfg, next);
        case Emit(_, _) => TurnIsShort(cfg, r);
      }
    }
  }

  lemma ClosePayloadReads(status: nat)
    requires CloseStatusIsValid(status)
    ensures |ClosePayload(status)| == 2 && ReadClose(ClosePayload(status)) == Reads(Some(status), [])
  {
    assert Pow256(2) == 0x1_0000;
    BigEndianRoundTrip(status, 2);
    assert ClosePayload(status)[..2] == ClosePayload(status);
  }

  /**
   Past the handshake a session only comes to owe good frames, a close frame ends it, and an ended
   one stays so.
   */
  ghost predicate OwesFrames(c: Core, c': Core) {
    && !c'.phase.Handshaking? && c.owed <= c'.owed && GoodReplies(c'.owed[|c.owed|..])
    && (c.phase.Ended? || OwesClose(c'.owed[|c.owed|..]) ==> c'.phase.Ended?)
  }

  ghost predicate OwesClose(replies: seq<Reply>) {
    exists r :: r in replies && r.FrameReply? && r.opcode.Close?
  }

  lemma ReactsWell(c: Core, event: Event)
    requires c.phase.Open?
    requires event.PingHeard? ==> |event.payload| <= 125
    requires event.CloseHeard? && event.status.Some? ==> CloseStatusIsValid(event.status.value)
    ensures OwesFrames(c, React(c, event).core)
  {
    var replies := React(c, event).core.owed[|c.owed|..];
    match event {
      case CloseHeard(status, _, _) =>
        if status.Some? {
          ClosePayloadReads(status.value);
        }
      case Faulted(fault, _) =>
        ClosePayloadReads(CloseStatusFor(fault));
      case _ =>
    }
  }

  lemma OwesTransitively(a: Core, b: Core, c: Core)
    requires OwesFrames(a, b) && OwesFrames(b, c)
    ensures OwesFrames(a, c)
  {
    assert c.owed[|a.owed|..] == b.owed[|a.owed|..] + c.owed[|b.owed|..];
  }

  lemma {:induction false} OpenOwesFrames(o: Options, c: Core)
    requires c.phase.Open?
    ensures OwesFrames(c, OpenNext(o, c).state)
    decreases |c.reader.unread|
  {
    hide NextOf;
    var step := NextOf(ConfigOf(o), c.reader);
    ControlIsShort(ConfigOf(o), c.reader);
    if step.event.Some? {
      var c' := c.(reader := step.state);
      ReactsWell(c', step.event.value);
      var reaction := React(c', step.event.value);
      if reaction.Silent? {
        OpenOwesFrames(o, reaction.core);
        OwesTransitively(c, reaction.core, OpenNext(o, c).state);
      }
    }
  }

  lemma {:induction false} DrainOwesFrames(o: Options, c: Core)
    requires !c.phase.Handshaking?
    ensures OwesFrames(c, Drained(o, c).state)
    decreases Serving(o).size(c)
  {
    hide OpenNext;
    ServingIsResumable(o);
    var step := Serving(o).next(c);
    if c.phase.Open? {
      OpenOwesFrames(o, c);
    }
    assert OwesFrames(c, step.state);
    if step.event.Some? {
      DrainOwesFrames(o, step.state);
      OwesTransitively(c, step.state, Drained(o, c).state);
    }
  }

  // ---- From the first byte ----

  /** The step a session takes on what has arrived of a stream that begins with `hello`. */
  ghost predicate Greets(o: Options, hello: bytes, replies: seq<Reply>) {
    forall stream :: (stream <= hello || hello <= stream) ==> GreetsAt(o, hello, replies, stream)
  }

  ghost predicate GreetsAt(o: Options, hello: bytes, replies: seq<Reply>, stream: bytes)
    requires stream <= hello || hello <= stream
  {
    NextCore(o, Receive(START, stream)) ==
    if |stream| < |hello| then Step(Receive(START, stream), None)
    else Step(Core(Open, [], Append(Fresh(|hello|), stream[|hello|..]), replies), Some(Opened))
  }

  /** A head judged the same whatever comes after it, and found only once it is whole. */
  ghost predicate Judged(o: Options, hello: bytes, replies: seq<Reply>, rest: bytes)
    requires |hello| >= 4
  {
    && Handshake.FindHeadEnd(hello + rest) == |hello|
    && JudgeHead(o, Receive(START, hello + rest), |hello|)
       == Step(Core(Open, [], Append(Fresh(|hello|), rest), replies), Some(Opened))
  }

  lemma GreetsWhenJudged(o: Options, hello: bytes, replies: seq<Reply>)
    requires 4 <= |hello| <= 8192
    requires forall rest :: Judged(o, hello, replies, rest)
    ensures Greets(o, hello, replies)
  {
    hide Judged, GreetsAt;
    forall stream | stream <= hello || hello <= stream
      ensures GreetsAt(o, hello, replies, stream)
    {
      if |stream| < |hello| {
        assert Judged(o, hello, replies, []);
        WaitsForTheHead(o, hello, replies, stream);
      } else {
        assert Judged(o, hello, replies, stream[|hello|..]);
        MeetsTheHead(o, hello, replies, stream);
      }
    }
  }

  lemma WaitsForTheHead(o: Options, hello: bytes, replies: seq<Reply>, stream: bytes)
    requires 4 <= |hello| <= 8192 && stream <= hello && |stream| < |hello|
    requires Judged(o, hello, replies, [])
    ensures GreetsAt(o, hello, replies, stream)
  {
    hide JudgeHead, OpenNext, Handshake.FindHeadEnd, Handshake.AsText, Handshake.Octets;
    var more := hello[|stream|..];
    assert [] + stream == stream;
    assert stream + more == hello && hello + [] == hello;
    Handshake.HeadEndIsStable(stream, more);
  }

  lemma MeetsTheHead(o: Options, hello: bytes, replies: seq<Reply>, stream: bytes)
    requires 4 <= |hello| <= 8192 && hello <= stream
    requires Judged(o, hello, replies, stream[|hello|..])
    ensures GreetsAt(o, hello, replies, stream)
  {
    hide JudgeHead, OpenNext, Handshake.FindHeadEnd, Handshake.AsText, Handshake.Octets;
    assert [] + stream == stream;
    assert stream == hello + stream[|hello|..];
  }

  lemma ServerJudges(o: Options, client: Options, nonce: bytes, rest: bytes)
    requires o.side.Server? && client.side.Client? && client.path == o.path
    requires client.clientKey == Base64.Encoded(nonce)
    requires Handshake.IsRequestable(client.host, client.path, nonce)
    requires Handshake.IsOctets(client.host) && Handshake.IsOctets(client.path)
    ensures |Request(client)| >= 4
    ensures Judged(o, Request(client), [HeadReply(Response(o, client.clientKey))], rest)
  {
    hide Handshake.AnswerUpgrade, Handshake.WriteUpgradeRequest, Handshake.WriteUpgradeResponse, Handshake.FindHeadEnd,
         Handshake.Octets, Handshake.AsText, Handshake.IsRequestable, Handshake.IsOctets, Base64.Encoded, Handshake.AcceptKey;
    var host, path, key := client.host, client.path, client.clientKey;
    Handshake.RequestIsAccepted(o.sha1, host, path, nonce, o.allowedOrigins);
    Handshake.RequestOctets(host, path, nonce);
    Handshake.RequestHeadEnd(host, path, nonce, rest);
    Handshake.TextOfOctets(Handshake.WriteUpgradeRequest(host, path, key));
    Greeting(Request(client), rest);
    assert [] + [HeadReply(Response(o, key))] == [HeadReply(Response(o, key))];
  }

  /** A server greets the client that asks for its path with a well-formed host and a 16-byte nonce. */
  lemma ServerGreets(o: Options, client: Options, nonce: bytes)
    requires o.side.Server? && client.side.Client? && client.path == o.path
    requires client.clientKey == Base64.Encoded(nonce)
    requires Handshake.IsRequestable(client.host, client.path, nonce)
    requires Handshake.IsOctets(client.host) && Handshake.IsOctets(client.path)
    requires |Request(client)| <= 8192
    ensures Greets(o, Request(client), [HeadReply(Response(o, client.clientKey))])
  {
    hide Judged, Greets, Request, Response, Handshake.IsRequestable, Handshake.IsOctets, Base64.Encoded;
    forall rest
      ensures |Request(client)| >= 4 && Judged(o, Request(client), [HeadReply(Response(o, client.clientKey))], rest)
    {
      ServerJudges(o, client, nonce, rest);
    }
    ServerJudges(o, client, nonce, []);
    GreetsWhenJudged(o, Request(client), [HeadReply(Response(o, client.clientKey))]);
  }

  lemma ClientJudges(o: Options, rest: bytes)
    requires o.side.Client? && |o.sha1(o.clientKey + Handshake.ACCEPT_GUID)| == 20
    ensures 4 <= |Response(o, o.clientKey)| <= 8192
    ensures Judged(o, Response(o, o.clientKey), [], rest)
  {
    hide Handshake.CheckUpgradeResponse, Handshake.WriteUpgradeResponse, Handshake.FindHeadEnd, Handshake.Octets,
         Handshake.AsText, Handshake.AcceptKey;
    var hello := Response(o, o.clientKey);
    Handshake.ResponseIsAccepted(o.sha1, o.clientKey);
    Handshake.ResponseOctets(o.sha1, o.clientKey);
    Handshake.ResponseIsShort(o.sha1, o.clientKey);
    Handshake.ResponseHeadEnd(o.sha1, o.clientKey, rest);
    Handshake.TextOfOctets(Handshake.WriteUpgradeResponse(Handshake.AcceptKey(o.sha1, o.clientKey)));
    Greeting(hello, rest);
  }

  /** A client greets the server that answered its key. */
  lemma ClientGreets(o: Options)
    requires o.side.Client? && |o.sha1(o.clientKey + Handshake.ACCEPT_GUID)| == 20
    ensures Greets(o, Response(o, o.clientKey), [])
  {
    hide Judged, Greets, Response;
    forall rest
      ensures |Response(o, o.clientKey)| >= 4 && Judged(o, Response(o, o.clientKey), [], rest)
    {
      ClientJudges(o, rest);
    }
    ClientJudges(o, []);
    GreetsWhenJudged(o, Response(o, o.clientKey), []);
  }

  lemma Greeting(hello: bytes, rest: bytes)
    ensures ([] + (hello + rest))[..|hello|] == hello && ([] + (hello + rest))[|hello|..] == rest
  {
  }

  function Request(o: Options): bytes {
    Handshake.Octets(Handshake.WriteUpgradeRequest(o.host, o.path, o.clientKey))
  }

  function Response(o: Options, key: string): bytes {
    Handshake.Octets(Handshake.WriteUpgradeResponse(Handshake.AcceptKey(o.sha1, key)))
  }

  // ---- What has come of any beginning of a stream ----

  /** A stream's beginning leaves the session waiting for its head, or past it and owing its answer first. */
  lemma FromTheStart(o: Options, hello: bytes, replies: seq<Reply>, stream: bytes)
    requires Greets(o, hello, replies)
    requires stream <= hello || hello <= stream
    ensures var c := Drained(o, Receive(START, stream)).state;
            if |stream| < |hello| then c == Receive(START, stream)
            else OwesFrames(START.(phase := Open, owed := replies), c)
  {
    hide OpenNext, HandshakeNext;
    ServingIsResumable(o);
    assert GreetsAt(o, hello, replies, stream);
    if |stream| >= |hello| {
      var first := Core(Open, [], Append(Fresh(|hello|), stream[|hello|..]), replies);
      DrainOwesFrames(o, first);
    }
  }

  /** What one more delivery makes a session owe. */
  lemma DeliveryOwes(o: Options, hello: bytes, replies: seq<Reply>, before: bytes, chunk: bytes)
    requires Greets(o, hello, replies)
    requires before + chunk <= hello || hello <= before + chunk
    ensures var c, run := Drained(o, Receive(START, before)), Drained(o, Receive(START, before + chunk));
            && run == Run(Drained(o, Receive(c.state, chunk)).state,
                          c.events + Drained(o, Receive(c.state, chunk)).events)
            && if !c.state.phase.Handshaking? then OwesFrames(c.state, run.state)
               else
                 && c.state.owed == []
                 && if run.state.phase.Handshaking? then run.state.owed == []
                    else OwesFrames(START.(phase := Open, owed := replies), run.state)
  {
    hide OpenNext, HandshakeNext, Greets;
    ServingIsResumable(o);
    var m := Serving(o);
    DrainIsStable(m, Receive(START, before), chunk);
    assert m.feed(m.feed(START, before), chunk) == m.feed(START, before + chunk);
    FromTheStart(o, hello, replies, before + chunk);
    assert before <= before + chunk;
    Comparable(before, before + chunk, hello);
    FromTheStart(o, hello, replies, before);
    var c := Drain(m, Receive(START, before)).state;
    if !c.phase.Handshaking? {
      DrainOwesFrames(o, Receive(c, chunk));
    }
  }

  lemma Comparable(a: bytes, b: bytes, hello: bytes)
    requires a <= b && (b <= hello || hello <= b)
    ensures a <= hello || hello <= a
  {
    if |a| <= |hello| {
      assert a == b[..|a|];
    }
  }

  /**
   A greeted stream gives the opening and then what its frames, and the bytes after them, tell; and it
   leaves owed, after the answer to the head, what that leaves owed.
   */
  lemma StreamIsServed(o: Options, hello: bytes, replies: seq<Reply>, frames: seq<Frame>, tail: bytes)
    requires Greets(o, hello, replies)
    requires Taken(ConfigOf(o), frames, None) && EndsTaking(ConfigOf(o), frames, None, tail)
    ensures var run := Drained(o, Receive(START, hello + (EncodeAll(frames) + tail)));
            var told := Told(ConfigOf(o), frames, tail, |hello|, None);
            && run.events == [Opened] + Given(told) && run.state.owed == replies + Owing(told)
            && (run.state.phase.Open? <==> GoesOn(told)) && !run.state.phase.Handshaking?
  {
    hide NextCore, NextOf, Receive, Given, Owing, GoesOn, EncodeAll, Taken, EndsTaking, Told, Stable, Appends, Shrinks;
    ServingIsResumable(o);
    var u := EncodeAll(frames) + tail;
    var stream := hello + u;
    assert GreetsAt(o, hello, replies, stream);
    var first := Core(Open, [], Append(Fresh(|hello|), stream[|hello|..]), replies);
    assert stream[|hello|..] == u;
    ReadingIsResumable(ConfigOf(o));
    OpenDrains(o, first);
    StreamIsTold(ConfigOf(o), frames, tail, |hello|);
  }

  /** The answers to a conforming peer's frames: a pong for each ping and the close's own status, each in its turn. */
  function Answers(frames: seq<Frame>): seq<Reply> {
    if frames == [] then []
    else if frames[0].opcode.Close? then AnswerTo(frames[0])
    else AnswerTo(frames[0]) + Answers(frames[1..])
  }

  function AnswerTo(f: Frame): seq<Reply> {
    match f.opcode
    case Ping => [FrameReply(Pong, f.payload)]
    case Close => [FrameReply(Close, if |f.payload| < 2 then [] else f.payload[..2])]
    case _ => []
  }

  lemma OneIsAnswered(f: Frame)
    ensures Answers([f]) == AnswerTo(f)
  {
    hide AnswerTo;
    assert [f][1..] == [];
    assert AnswerTo(f) + [] == AnswerTo(f);
  }

  lemma StatusIsEchoed(payload: bytes)
    requires |payload| >= 2
    ensures StatusBytes(StatusIn(payload)) == payload[..2]
  {
  }

  /** What conformance says of the first frame. */
  lemma FirstConforms(cfg: Config, frames: seq<Frame>, message: Option<bytes>)
    requires frames != [] && Conforming(cfg, frames, message)
    ensures var f, text := frames[0], Held(message) + frames[0].payload;
            && (f.opcode.Close? ==> CloseSaid(f.payload, 0).CloseHeard?)
            && (!IsControl(f.opcode) && f.fin ==> Utf8.Valid(text))
            && (!f.opcode.Close? ==>
                  Conforming(cfg, frames[1..], if IsControl(f.opcode) then message else if f.fin then None else Some(text)))
  {
    hide Utf8.Valid, CloseSaid;
  }

  /** What one frame spells by itself. */
  lemma OneIsSpelled(f: Frame, at: nat, message: Option<bytes>)
    requires !IsControl(f.opcode) && f.fin ==> Utf8.Valid(Held(message) + f.payload)
    ensures Spelled([f], at, message) ==
            (match f.opcode
             case Ping => [PingHeard(f.payload, at)]
             case Pong => [PongHeard(f.payload, at)]
             case Close => [CloseSaid(f.payload, at)]
             case _ => if f.fin then [Message(Held(message) + f.payload, at)] else [])
  {
    hide Encode, Utf8.Valid, CloseSaid;
    assert [f][1..] == [];
  }

  lemma OneIsOwed(e: Event)
    ensures Owing([e]) ==
            (match e
             case PingHeard(payload, _) => [FrameReply(Pong, payload)]
             case CloseHeard(status, _, _) => [FrameReply(Close, if status.Some? then StatusBytes(status.value) else [])]
             case Faulted(fault, _) => [FrameReply(Close, StatusBytes(FaultStatus(fault)))]
             case _ => [])
    ensures GoesOn([e]) <==> !e.CloseHeard? && !e.Faulted?
  {
    hide StatusBytes, FaultStatus;
    assert [e][1..] == [] && [e][0] in [e];
  }

  lemma CloseIsAnswered(payload: bytes, at: nat)
    requires CloseSaid(payload, 0).CloseHeard?
    ensures var e := CloseSaid(payload, at);
            e.CloseHeard? && (if e.status.Some? then StatusBytes(e.status.value) else [])
                             == if |payload| < 2 then [] else payload[..2]
  {
    hide Utf8.Valid, StatusBytes, StatusIn;
    if payload != [] {
      StatusIsEchoed(payload);
    }
  }

  /** What one conforming frame spells by itself, and what it leaves open. */
  lemma FirstIsAnswered(cfg: Config, frames: seq<Frame>, at: nat, message: Option<bytes>)
    requires frames != [] && Conforming(cfg, frames, message)
    ensures Owing(Spelled([frames[0]], at, message)) == Answers([frames[0]])
    ensures GoesOn(Spelled([frames[0]], at, message)) <==> !frames[0].opcode.Close?
    ensures |Spelled([frames[0]], at, message)| <= 1
  {
    hide Answers, Encode, Utf8.Valid, StatusBytes, Spelled, Conforming, CloseSaid, Owing, GoesOn;
    var f := frames[0];
    OneIsAnswered(f);
    FirstConforms(cfg, frames, message);
    OneIsSpelled(f, at, message);
    var said := Spelled([f], at, message);
    if said == [] {
      NothingGiven();
    } else {
      OneIsOwed(said[0]);
      if f.opcode.Close? {
        CloseIsAnswered(f.payload, at);
      }
    }
  }

  lemma SpelledGoesOn(cfg: Config, frames: seq<Frame>, at: nat, message: Option<bytes>)
    requires frames != [] && Conforming(cfg, frames, message) && !frames[0].opcode.Close?
    ensures var f := frames[0];
            var open := if IsControl(f.opcode) then message else if f.fin then None else Some(Held(message) + f.payload);
            && Conforming(cfg, frames[1..], open)
            && Spelled(frames, at, message) == Spelled([f], at, message) + Spelled(frames[1..], at + |Encode(f)|, open)
  {
    hide Encode, Utf8.Valid, CloseSaid, Conforming;
    FirstConforms(cfg, frames, message);
    hide IsControl;
    OneIsSpelled(frames[0], at, message);
    SpelledOn(frames, at, message);
  }

  lemma SpelledOn(frames: seq<Frame>, at: nat, message: Option<bytes>)
    requires frames != [] && !frames[0].opcode.Close?
    requires !IsControl(frames[0].opcode) && frames[0].fin ==> Utf8.Valid(Held(message) + frames[0].payload)
    ensures var f, next := frames[0], at + |Encode(frames[0])|;
            Spelled(frames, at, message) ==
            (match f.opcode
             case Ping => [PingHeard(f.payload, at)] + Spelled(frames[1..], next, message)
             case Pong => [PongHeard(f.payload, at)] + Spelled(frames[1..], next, message)
             case _ =>
               if f.fin then [Message(Held(message) + f.payload, at)] + Spelled(frames[1..], next, None)
               else Spelled(frames[1..], next, Some(Held(message) + f.payload)))
  {
    hide Encode, Utf8.Valid, CloseSaid;
  }

  lemma AnswersGoOn(frames: seq<Frame>)
    requires frames != []
    ensures Answers(frames) == Answers([frames[0]]) + if frames[0].opcode.Close? then [] else Answers(frames[1..])
  {
    hide AnswerTo;
    OneIsAnswered(frames[0]);
    assert AnswerTo(frames[0]) + [] == AnswerTo(frames[0]);
  }

  predicate NoneCloses(frames: seq<Frame>) {
    forall f :: f in frames ==> !f.opcode.Close?
  }

  lemma NoneClosesIff(frames: seq<Frame>)
    requires frames != []
    ensures NoneCloses(frames) <==> !frames[0].opcode.Close? && NoneCloses(frames[1..])
  {
    assert frames == [frames[0]] + frames[1..];
  }

  lemma AtMostOneMore(said: seq<Event>, rest: seq<Event>)
    requires |said| <= 1
    ensures Owing(said + rest) == Owing(said) + Owing(rest)
    ensures GoesOn(said + rest) <==> GoesOn(said) && GoesOn(rest)
  {
    hide Owing, GoesOn;
    NothingGiven();
    if said == [] {
      assert said + rest == rest && [] + Owing(rest) == Owing(rest);
    } else {
      assert said == [said[0]];
      OneMore(said[0], rest);
    }
  }

  lemma NothingIsAnswered(at: nat, message: Option<bytes>)
    ensures Spelled([], at, message) == [] && Owing([]) == [] && Answers([]) == [] && GoesOn([]) && NoneCloses([])
  {
  }

  lemma {:induction false} ConformingIsAnswered(cfg: Config, frames: seq<Frame>, at: nat, message: Option<bytes>)
    requires Conforming(cfg, frames, message)
    ensures Owing(Spelled(frames, at, message)) == Answers(frames)
    ensures GoesOn(Spelled(frames, at, message)) <==> NoneCloses(frames)
    decreases |frames|
  {
    hide Encode, Conforming, Spelled, Owing, Answers, GoesOn, NoneCloses, IsControl;
    if frames == [] {
      NothingIsAnswered(at, message);
    } else {
      var f := frames[0];
      FirstIsAnswered(cfg, frames, at, message);
      AnswersGoOn(frames);
      NoneClosesIff(frames);
      if f.opcode.Close? {
        CloseIsTheEnd(frames, at, message);
        assert Answers([f]) + [] == Answers([f]);
      } else {
        var open := if IsControl(f.opcode) then message else if f.fin then None else Some(Held(message) + f.payload);
        SpelledGoesOn(cfg, frames, at, message);
        ConformingIsAnswered(cfg, frames[1..], at + |Encode(f)|, open);
        AtMostOneMore(Spelled([f], at, message), Spelled(frames[1..], at + |Encode(f)|, open));
      }
    }
  }

  lemma CloseIsTheEnd(frames: seq<Frame>, at: nat, message: Option<bytes>)
    requires frames != [] && frames[0].opcode.Close?
    ensures Spelled(frames, at, message) == Spelled([frames[0]], at, message)
  {
  }

  /**
   A conforming peer hears the opening's answer, then one pong for each of its pings, with that ping's
   payload, in order, and for its close frame the status it sent.
   */
  lemma ConformingIsServed(o: Options, hello: bytes, replies: seq<Reply>, frames: seq<Frame>)
    requires Greets(o, hello, replies) && Conforming(ConfigOf(o), frames, None)
    ensures var run := Drained(o, Receive(START, hello + EncodeAll(frames)));
            && run.events == [Opened] + Given(Spelled(frames, |hello|, None))
            && run.state.owed == replies + Answers(frames)
            && (run.state.phase.Open? <==> NoneCloses(frames))
  {
    hide Drained, Receive, Given, Owing, GoesOn, Taken, Spelled, Answers, Told, EndsTaking, EncodeAll, Conforming, Greets;
    ConformingIsTaken(ConfigOf(o), frames, None);
    ConformingIsAnswered(ConfigOf(o), frames, |hello|, None);
    assert EncodeAll(frames) + [] == EncodeAll(frames);
    NothingAfter(ConfigOf(o), frames, |hello|);
    StreamIsServed(o, hello, replies, frames, []);
  }
}
