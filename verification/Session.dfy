/**
 One WebSocket connection's protocol state, as Session.cpp keeps it: the handshake, then framing,
 then the end. Bytes go in through `Receive`, events come out of `Next`, and what the connection
 owes its peer is a list of replies that are printed in order.
 */
module Session {
  import opened Bytes
  import opened Frames
  import opened FrameReader
  import opened Resumable
  import Handshake

  datatype Side = Server | Client

  /** `sha1` and the mask sequence stand for the hash and the random source the program calls. */
  datatype Options = Options(
    side: Side,
    path: string,
    allowedOrigins: seq<string>,
    maxMessageBytes: nat,
    host: string,
    clientKey: string,
    sha1: string -> bytes,
    masks: nat -> MaskKey)

  datatype Phase = Handshaking | Open | Ended

  datatype SessionEvent =
    | Opened
    | TextMessage(text: bytes)
    | Refused(refusal: Handshake.Refusal, httpStatus: nat, origin: string)
    | SessionFault(fault: Fault, closeStatus: nat, at: nat)
    | Closed(closeStatus: nat, reason: bytes)

  /** What the session owes its peer: a head, or one unfragmented frame. */
  datatype Reply = HeadReply(head: bytes) | FrameReply(opcode: Opcode, payload: bytes)

  /** The receiving half of a session, with the replies it has come to owe. */
  datatype Core = Core(phase: Phase, inbound: bytes, reader: Reader, owed: seq<Reply>)

  const START := Core(Handshaking, [], Fresh(0), [])

  const CLOSE_NO_STATUS := 1005

  function ConfigOf(o: Options): Config {
    Config(o.side.Server?, o.maxMessageBytes)
  }

  function ClosePayload(status: nat): bytes {
    BigEndian(status, 2)
  }

  function CloseStatusFor(fault: Fault): nat {
    match fault
    case ProtocolViolation => 1002
    case InvalidUtf8 => 1007
    case MessageTooLarge => 1009
    case UnsupportedMessage => 1003
  }

  function Receive(c: Core, more: bytes): Core {
    match c.phase
    case Handshaking => c.(inbound := c.inbound + more)
    case Open => c.(reader := Append(c.reader, more))
    case Ended => c
  }

  function End(c: Core): Core {
    c.(phase := Ended, inbound := [])
  }

  /** The head's verdict: how the session goes on, what it owes, and the event. */
  function JudgeHead(o: Options, c: Core, headEnd: nat): Step<Core, SessionEvent>
    requires 4 <= headEnd <= |c.inbound|
  {
    var head := Handshake.AsText(c.inbound[..headEnd]);
    var joined := c.(phase := Open, inbound := [], reader := Append(Fresh(headEnd), c.inbound[headEnd..]));
    match o.side
    case Server =>
      var answer := Handshake.AnswerUpgrade(o.sha1, head, o.path, o.allowedOrigins);
      var owed := c.owed + [HeadReply(Handshake.Octets(answer.response))];
      if answer.refusal.NoRefusal? then Step(joined.(owed := owed), Some(Opened))
      else Step(End(c).(owed := owed), Some(Refused(answer.refusal, answer.status, answer.origin)))
    case Client =>
      var (complete, status) := Handshake.CheckUpgradeResponse(o.sha1, head, o.clientKey);
      if complete then Step(joined, Some(Opened))
      else Step(End(c), Some(Refused(Handshake.HandshakeRefused, status, "")))
  }

  function HandshakeNext(o: Options, c: Core): Step<Core, SessionEvent> {
    var headEnd := Handshake.FindHeadEnd(c.inbound);
    if headEnd == 0 && |c.inbound| < Handshake.MAX_HEAD_BYTES then Step(c, None)
    else if headEnd == 0 || headEnd > Handshake.MAX_HEAD_BYTES then
      Step(End(c), Some(Refused(Handshake.HandshakeRefused, 0, "")))
    else JudgeHead(o, c, headEnd)
  }

  /** What a frame's event makes of an open session: it goes on silently, or gives an event. */
  datatype Reaction = Silent(core: Core) | Gives(core: Core, event: SessionEvent)

  function React(c: Core, event: Event): Reaction {
    match event
    case Message(text, _) => Gives(c, TextMessage(text))
    case PingHeard(payload, _) => Silent(c.(owed := c.owed + [FrameReply(Pong, payload)]))
    case PongHeard(_, _) => Silent(c)
    case CloseHeard(status, reason, _) =>
      var echo := if status.Some? then ClosePayload(status.value) else [];
      Gives(End(c).(owed := c.owed + [FrameReply(Close, echo)]),
            Closed(if status.Some? then status.value else CLOSE_NO_STATUS, reason))
    case Faulted(fault, at) =>
      Gives(End(c).(owed := c.owed + [FrameReply(Close, ClosePayload(CloseStatusFor(fault)))]),
            SessionFault(fault, CloseStatusFor(fault), at))
  }

  function Reacted(event: Option<SessionEvent>, c: Core): Reaction {
    if event.Some? then Gives(c, event.value) else Silent(c)
  }

  function OpenNext(o: Options, c: Core): Step<Core, SessionEvent>
    decreases |c.reader.unread|
  {
    var step := NextOf(ConfigOf(o), c.reader);
    var c' := c.(reader := step.state);
    match step.event
    case None => Step(c', None)
    case Some(event) =>
      (match React(c', event)
       case Silent(c'') => assert c''.reader == step.state; OpenNext(o, c'')
       case Gives(c'', given) => Step(c'', Some(given)))
  }

  function NextCore(o: Options, c: Core): Step<Core, SessionEvent> {
    match c.phase
    case Handshaking => HandshakeNext(o, c)
    case Open => OpenNext(o, c)
    case Ended => Step(c, None)
  }

  // ---- However the stream is cut ----

  function SizeOf(c: Core): nat {
    match c.phase
    case Handshaking => |c.inbound| + 2
    case Open => |c.reader.unread| + 1
    case Ended => 0
  }

  function Serving(o: Options): Machine<Core, SessionEvent> {
    Machine(c => NextCore(o, c), (c, more) => Receive(c, more), c => SizeOf(c))
  }

  lemma {:induction false} OpenShrinks(o: Options, c: Core)
    requires c.phase.Open? && OpenNext(o, c).event.Some?
    ensures SizeOf(OpenNext(o, c).state) < SizeOf(c)
    decreases |c.reader.unread|
  {
    var step := NextOf(ConfigOf(o), c.reader);
    var reaction := React(c.(reader := step.state), step.event.value);
    if reaction.Silent? {
      OpenShrinks(o, reaction.core);
    }
  }

  lemma HandshakeIsStable(o: Options, c: Core, more: bytes)
    requires c.phase.Handshaking?
    ensures StableAt(Serving(o), c, more)
  {
    hide Handshake.FindHeadEnd, OpenNext;
    var u, headEnd := c.inbound, Handshake.FindHeadEnd(c.inbound);
    Handshake.HeadEndIsStable(u, more);
    if 0 < headEnd <= Handshake.MAX_HEAD_BYTES {
      assert (u + more)[..headEnd] == u[..headEnd];
      assert (u + more)[headEnd..] == u[headEnd..] + more;
      assert [] + (u + more)[headEnd..] == ([] + u[headEnd..]) + more;
    }
  }

  lemma {:induction false} OpenIsStable(o: Options, c: Core, more: bytes)
    requires c.phase.Open?
    ensures var step := OpenNext(o, c);
            NextCore(o, Receive(c, more)) ==
            if step.event.Some? then Step(Receive(step.state, more), step.event)
            else NextCore(o, Receive(step.state, more))
    decreases |c.reader.unread|
  {
    NextIsStable(ConfigOf(o), c.reader, more);
    var step := NextOf(ConfigOf(o), c.reader);
    if step.event.Some? {
      var reaction := React(c.(reader := step.state), step.event.value);
      if reaction.Silent? {
        OpenIsStable(o, reaction.core, more);
      } else if reaction.core.phase.Ended? {
        StopsTheReader(ConfigOf(o), c.reader);
      }
    }
  }

  /** A close or a fault leaves the reader stopped, so that nothing more reaches it. */
  lemma {:induction false} StopsTheReader(cfg: Config, r: Reader)
    requires NextOf(cfg, r).event.Some?
    requires NextOf(cfg, r).event.value.CloseHeard? || NextOf(cfg, r).event.value.Faulted?
    ensures NextOf(cfg, r).state.stopped
    decreases |r.unread|
  {
    hide Parse, ReadClose, Utf8.Valid;
    if TurnOf(cfg, r).Advance? {
      StopsTheReader(cfg, TurnOf(cfg, r).reader);
    }
  }

  lemma ServingIsResumable(o: Options)
    ensures IsResumable(Serving(o))
  {
    var m := Serving(o);
    forall c | m.next(c).event.Some?
      ensures m.size(m.next(c).state) < m.size(c)
    {
      if c.phase.Open? {
        OpenShrinks(o, c);
      }
    }
    forall c, more
      ensures StableAt(m, c, more)
    {
      if c.phase.Handshaking? {
        HandshakeIsStable(o, c, more);
      } else if c.phase.Open? {
        OpenIsStable(o, c, more);
      }
    }
    forall c
      ensures Receive(c, []) == c
    {
      assert c.inbound + [] == c.inbound && c.reader.unread + [] == c.reader.unread;
    }
    forall c, a, b
      ensures Receive(Receive(c, a), b) == Receive(c, a + b)
    {
      assert c.inbound + a + b == c.inbound + (a + b);
      assert c.reader.unread + a + b == c.reader.unread + (a + b);
    }
  }

  /** A session drained of every event due. */
  ghost function Drained(o: Options, c: Core): Run<Core, SessionEvent> {
    ServingIsResumable(o);
    Drain(Serving(o), c)
  }

  /** A session from its first inbound byte, given `pieces` one after the other and drained after each. */
  ghost function Served(o: Options, pieces: seq<bytes>): Run<Core, SessionEvent> {
    ServingIsResumable(o);
    FeedAll(Serving(o), START, pieces)
  }

  /**
   Whatever the byte stream and however reads cut it, the session gives the events, names the fault
   offsets and owes the replies that it would for one `Receive` of the whole stream.
   */
  lemma SessionChunkingIsInvisible(o: Options, pieces: seq<bytes>)
    ensures Served(o, pieces) == Served(o, [Concat(pieces)])
  {
    ServingIsResumable(o);
    assert Drain(Serving(o), START) == Run(START, []);
    ChunkingIsInvisible(Serving(o), START, pieces);
    ChunkingIsInvisible(Serving(o), START, [Concat(pieces)]);
    assert Concat([Concat(pieces)]) == Concat(pieces);
  }

  /** A head that ends past the bound, or has not ended by it, is refused without an answer. */
  lemma LongHeadIsRefused(o: Options, stream: bytes)
    requires |stream| >= 8192 && (Handshake.FindHeadEnd(stream) == 0 || Handshake.FindHeadEnd(stream) > 8192)
    ensures Served(o, [stream]) == Run(End(START), [Refused(Handshake.HandshakeRefused, 0, "")])
  {
    ServingIsResumable(o);
    FeedOne(Serving(o), START, stream);
    assert [] + stream == stream;
    DrainOne(Serving(o), Receive(START, stream), End(START), Refused(Handshake.HandshakeRefused, 0, ""));
  }

  // ---- What is owed, as bytes ----

  /** The frame a session prints: unfragmented, and masked with the next key on a client. */
  function FrameFor(o: Options, op: Opcode, payload: bytes, drawn: nat): Frame {
    Frame(op, payload, true, if o.side.Client? then Some(o.masks(drawn)) else None)
  }

  function DrawsMask(o: Options, reply: Reply): bool {
    o.side.Client? && reply.FrameReply?
  }

  function Printed(o: Options, replies: seq<Reply>, drawn: nat): bytes {
    if replies == [] then []
    else
      (match replies[0]
       case HeadReply(head) => head
       case FrameReply(op, payload) => Encode(FrameFor(o, op, payload, drawn)))
      + Printed(o, replies[1..], if DrawsMask(o, replies[0]) then drawn + 1 else drawn)
  }

  function Draws(o: Options, replies: seq<Reply>): nat {
    if replies == [] then 0 else (if DrawsMask(o, replies[0]) then 1 else 0) + Draws(o, replies[1..])
  }

  lemma {:induction false} PrintedAppend(o: Options, a: seq<Reply>, b: seq<Reply>, drawn: nat)
    ensures Printed(o, a + b, drawn) == Printed(o, a, drawn) + Printed(o, b, drawn + Draws(o, a))
    ensures Draws(o, a + b) == Draws(o, a) + Draws(o, b)
  {
    hide Encode, FrameFor;
    if a == [] {
      assert a + b == b;
    } else {
      assert (a + b)[0] == a[0] && (a + b)[1..] == a[1..] + b;
      PrintedAppend(o, a[1..], b, if DrawsMask(o, a[0]) then drawn + 1 else drawn);
    }
  }

  lemma PrintedNone(o: Options, drawn: nat)
    ensures Printed(o, [], drawn) == [] && Draws(o, []) == 0
  {
  }

  /** What an open session's next step is, one event of its reader at a time. */
  lemma OpenStep(o: Options, c: Core)
    ensures var step := NextOf(ConfigOf(o), c.reader);
            var c' := c.(reader := step.state);
            OpenNext(o, c) ==
            if step.event.None? then Step(c', None)
            else if React(c', step.event.value).Silent? then OpenNext(o, React(c', step.event.value).core)
            else Step(React(c', step.event.value).core, Some(React(c', step.event.value).event))
  {
    hide NextOf;
  }

  // ---- The session as the program keeps it ----

  class Connection {
    const options: Options
    var phase: Phase
    var inbound: bytes
    var outbound: bytes
    var reader: Buffered?
    var drawn: nat

    ghost predicate Valid()
      reads this, reader
    {
      && (phase.Open? ==> reader != null)
      && (reader != null ==>
            reader.Valid() && reader.Cfg() == ConfigOf(options))
    }

    /** The receiving half, owing nothing yet: what was owed before is in `outbound`. */
    ghost function Abs(): Core
      reads this, reader
      requires Valid()
    {
      Core(phase, if phase.Ended? then [] else inbound, if reader == null then Fresh(0) else reader.Abs(), [])
    }

    constructor (options: Options)
      ensures Valid() && this.options == options && Abs() == START && drawn == 0
      ensures outbound == if options.side.Client?
                          then Handshake.Octets(Handshake.WriteUpgradeRequest(options.host, options.path, options.clientKey))
                          else []
    {
      this.options := options;
      phase, inbound, reader, drawn := Handshaking, [], null, 0;
      outbound := if options.side.Client?
      then Handshake.Octets(Handshake.WriteUpgradeRequest(options.host, options.path, options.clientKey))
      else [];
    }

    method Take(more: bytes)
      requires Valid()
      modifies this`inbound, reader
      ensures Valid() && Abs() == Receive(old(Abs()), more)
    {
      match phase {
        case Ended =>
        case Open => reader.Receive(more);
        case Handshaking => inbound := inbound + more;
      }
    }

    /** Prints one frame of the session's own, as `_AppendFrame` does. */
    method Print(op: Opcode, payload: bytes)
      modifies this`outbound, this`drawn
      ensures outbound == old(outbound) + Printed(options, [FrameReply(op, payload)], old(drawn))
      ensures drawn == old(drawn) + Draws(options, [FrameReply(op, payload)])
    {
      outbound := AppendFrame(outbound, FrameFor(options, op, payload, drawn));
      assert Printed(options, [FrameReply(op, payload)], drawn) == Encode(FrameFor(options, op, payload, drawn)) + [];
      if options.side.Client? {
        drawn := drawn + 1;
      }
    }

    method Next() returns (event: Option<SessionEvent>)
      requires Valid()
      modifies this, reader
      ensures Valid() && (reader != old(reader) ==> fresh(reader))
      ensures var step := NextCore(options, old(Abs()));
              && event == step.event && Abs() == step.state.(owed := [])
              && outbound == old(outbound) + Printed(options, step.state.owed, old(drawn))
              && drawn == old(drawn) + Draws(options, step.state.owed)
    {
      match phase {
        case Handshaking => event := Judge();
        case Open => event := Pump();
        case Ended => event := None;
      }
    }

    method Judge() returns (event: Option<SessionEvent>)
      requires Valid() && phase.Handshaking?
      modifies this
      ensures Valid() && (reader != old(reader) ==> fresh(reader))
      ensures var step := HandshakeNext(options, old(Abs()));
              && event == step.event && Abs() == step.state.(owed := [])
              && outbound == old(outbound) + Printed(options, step.state.owed, old(drawn))
              && drawn == old(drawn) + Draws(options, step.state.owed)
    {
      hide Handshake.AnswerUpgrade, Handshake.CheckUpgradeResponse, Handshake.FindHeadEnd;
      var headEnd := Handshake.FindHeadEnd(inbound);
      if headEnd == 0 && |inbound| < Handshake.MAX_HEAD_BYTES {
        return None;
      }
      if headEnd == 0 || headEnd > Handshake.MAX_HEAD_BYTES {
        phase := Ended;
        return Some(Refused(Handshake.HandshakeRefused, 0, ""));
      }
      var refusal, reply := AnswerHead(Handshake.AsText(inbound[..headEnd]));
      outbound := outbound + reply;
      if refusal.Some? {
        phase := Ended;
        return refusal;
      }
      phase := Open;
      reader := new Buffered(options.side.Server?, options.maxMessageBytes, headEnd);
      reader.Receive(inbound[headEnd..]);
      inbound := [];
      event := Some(Opened);
    }

    /** The refusal a head meets, if any, and the bytes it is answered with. */
    method AnswerHead(head: string) returns (refusal: Option<SessionEvent>, reply: bytes)
      ensures (refusal, reply) ==
              if options.side.Server? then
                var answer := Handshake.AnswerUpgrade(options.sha1, head, options.path, options.allowedOrigins);
                (if answer.refusal.NoRefusal? then None
                 else Some(Refused(answer.refusal, answer.status, answer.origin)),
                 Handshake.Octets(answer.response))
              else
                var (complete, status) := Handshake.CheckUpgradeResponse(options.sha1, head, options.clientKey);
                (if complete then None else Some(Refused(Handshake.HandshakeRefused, status, "")), [])
    {
      if options.side.Server? {
        var answer := Handshake.AnswerUpgrade(options.sha1, head, options.path, options.allowedOrigins);
        reply := Handshake.Octets(answer.response);
        refusal := if answer.refusal.NoRefusal? then None
        else Some(Refused(answer.refusal, answer.status, answer.origin));
      } else {
        var (complete, status) := Handshake.CheckUpgradeResponse(options.sha1, head, options.clientKey);
        reply := [];
        refusal := if complete then None else Some(Refused(Handshake.HandshakeRefused, status, ""));
      }
    }

    method Pump() returns (event: Option<SessionEvent>)
      requires Valid() && phase.Open?
      modifies this`phase, this`outbound, this`drawn, reader
      ensures Valid() && reader == old(reader)
      ensures var step := OpenNext(options, old(Abs()));
              && event == step.event && Abs() == step.state.(owed := [])
              && outbound == old(outbound) + Printed(options, step.state.owed, old(drawn))
              && drawn == old(drawn) + Draws(options, step.state.owed)
    {
      hide NextOf, React, Printed, Draws, OpenNext;
      ghost var owed: seq<Reply> := [];
      PrintedNone(options, drawn);
      var going := true;
      event := None;
      while going
        invariant Valid() && reader == old(reader) && (going ==> phase.Open? && event.None?)
        invariant outbound == old(outbound) + Printed(options, owed, old(drawn))
        invariant drawn == old(drawn) + Draws(options, owed)
        invariant OpenNext(options, old(Abs())) ==
          if going then OpenNext(options, Abs().(owed := owed)) else Step(Abs().(owed := owed), event)
        decreases going, |Abs().reader.unread|
      {
        OpenStep(options, Abs().(owed := owed));
        var heard, given, replies := HearOnce(owed);
        PrintedAppend(options, owed, replies, old(drawn));
        assert owed + [] == owed;
        owed := owed + replies;
        event, going := given, heard && given.None?;
      }
    }

    /** One event of the reader, if it has one, and what the session does about it. */
    method HearOnce(ghost owed: seq<Reply>) returns (heard: bool, event: Option<SessionEvent>, ghost replies: seq<Reply>)
      requires Valid() && phase.Open?
      modifies this`phase, this`outbound, this`drawn, reader
      ensures Valid() && reader == old(reader)
      ensures var step := NextOf(ConfigOf(options), old(Abs()).reader);
              && heard == step.event.Some?
              && (!heard ==> event.None? && replies == [] && Abs() == old(Abs()).(reader := step.state))
              && (heard ==>
                    React(old(Abs()).(owed := owed).(reader := step.state), step.event.value)
                    == Reacted(event, Abs().(owed := owed + replies)))
      ensures heard ==> |Abs().reader.unread| < |old(Abs()).reader.unread|
      ensures event.None? ==> phase.Open?
      ensures outbound == old(outbound) + Printed(options, replies, old(drawn))
      ensures drawn == old(drawn) + Draws(options, replies)
    {
      hide NextOf, React, Printed, Draws, OpenNext;
      event, replies := None, [];
      PrintedNone(options, drawn);
      ghost var before := Abs();
      var next := reader.Next();
      heard := next.Some?;
      if heard {
        assert before.(owed := owed).(reader := Abs().reader) == Abs().(owed := owed);
        event, replies := Respond(next.value, owed);
      }
    }

    /** What an open session does about one event of its reader. */
    method Respond(heard: Event, ghost owed: seq<Reply>) returns (event: Option<SessionEvent>, ghost replies: seq<Reply>)
      requires Valid() && phase.Open?
      modifies this`phase, this`outbound, this`drawn
      ensures Valid()
      ensures React(old(Abs()).(owed := owed), heard) == Reacted(event, Abs().(owed := owed + replies))
      ensures event.None? ==> phase.Open?
      ensures outbound == old(outbound) + Printed(options, replies, old(drawn))
      ensures drawn == old(drawn) + Draws(options, replies)
    {
      hide Printed, Draws;
      event, replies := None, [];
      PrintedNone(options, drawn);
      match heard {
        case Message(text, _) =>
          event := Some(TextMessage(text));
        case PongHeard(_, _) =>
        case PingHeard(payload, _) =>
          Print(Pong, payload);
          replies := [FrameReply(Pong, payload)];
        case CloseHeard(status, reason, _) =>
          var echo := if status.Some? then ClosePayload(status.value) else [];
          Print(Close, echo);
          phase := Ended;
          replies := [FrameReply(Close, echo)];
          event := Some(Closed(if status.Some? then status.value else CLOSE_NO_STATUS, reason));
        case Faulted(fault, at) =>
          var status := CloseStatusFor(fault);
          Print(Close, ClosePayload(status));
          phase := Ended;
          replies := [FrameReply(Close, ClosePayload(status))];
          event := Some(SessionFault(fault, status, at));
      }
      assert owed + [] == owed;
    }

    /** Queues one text message, masked on a client; ignored unless open. */
    method SendText(text: bytes)
      requires Valid()
      modifies this`outbound, this`drawn
      ensures Valid()
      ensures outbound == old(outbound) + if phase.Open? then Printed(options, [FrameReply(Text, text)], old(drawn)) else []
      ensures drawn == old(drawn) + if phase.Open? then Draws(options, [FrameReply(Text, text)]) else 0
    {
      if phase.Open? {
        Print(Text, text);
      }
    }

    /** Queues a close frame when open, and ends the session. */
    method Shut(status: nat)
      requires Valid()
      modifies this`phase, this`outbound, this`drawn
      ensures Valid() && phase.Ended?
      ensures outbound == old(outbound) + if old(phase).Open?
                                          then Printed(options, [FrameReply(Close, ClosePayload(status))], old(drawn))
                                          else []
      ensures drawn == old(drawn) + if old(phase).Open?
                                    then Draws(options, [FrameReply(Close, ClosePayload(status))])
                                    else 0
    {
      if phase.Open? {
        Print(Close, ClosePayload(status));
      }
      phase := Ended;
    }
  }
}
