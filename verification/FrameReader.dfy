/**
 The resumable frame reader of Rfc6455.cpp: bytes in, events out, and what one stream of frames
 means however its bytes arrive.
 */
module FrameReader {
  import opened Bytes
  import opened Frames
  import opened Resumable
  import Utf8

  datatype Config = Config(expectMasked: bool, maxMessageBytes: nat)

  /** Unread bytes, the stream offset of the first of them, and a fragmented message in progress. */
  datatype Reader = Reader(unread: bytes, offset: nat, inMessage: bool, message: bytes, stopped: bool)

  datatype Event =
    | Message(text: bytes, at: nat)
    | PingHeard(payload: bytes, at: nat)
    | PongHeard(payload: bytes, at: nat)
    | CloseHeard(status: Option<nat>, reason: bytes, at: nat)
    | Faulted(fault: Fault, at: nat)

  /** What one frame does: nothing yet, a silent advance, or an event. */
  datatype Turn = Wait | Advance(reader: Reader) | Emit(reader: Reader, event: Event)

  function Fresh(base: nat): Reader {
    Reader([], base, false, [], false)
  }

  function Append(r: Reader, more: bytes): Reader {
    if r.stopped then r else r.(unread := r.unread + more)
  }

  function ContextOf(cfg: Config, r: Reader): Context {
    Context(cfg.expectMasked, cfg.maxMessageBytes, r.inMessage, |r.message|)
  }

  function Stop(r: Reader, fault: Fault, at: nat): Turn {
    Emit(r.(unread := [], message := [], stopped := true), Faulted(fault, at))
  }

  predicate CloseStatusIsValid(status: nat) {
    1000 <= status <= 1003 || 1007 <= status <= 1014 || 3000 <= status <= 4999
  }

  /** What a close frame's payload amounts to: a status and a reason, or the fault it is. */
  datatype ClosePart = Reads(status: Option<nat>, reason: bytes) | Breaks(fault: Fault)

  function ReadClose(payload: bytes): ClosePart {
    if payload == [] then Reads(None, [])
    else if |payload| == 1 then Breaks(ProtocolViolation)
    else
      var status := FromBigEndian(payload[..2]);
      if !CloseStatusIsValid(status) then Breaks(ProtocolViolation)
      else if !Utf8.Valid(payload[2..]) then Breaks(InvalidUtf8)
      else Reads(Some(status), payload[2..])
  }

  /** The effect of a whole frame on a reader that has already moved past it; it started at `at`. */
  function Settle(r: Reader, f: Frame, at: nat): Turn {
    match f.opcode
    case Ping => Emit(r, PingHeard(f.payload, at))
    case Pong => Emit(r, PongHeard(f.payload, at))
    case Close =>
      (match ReadClose(f.payload)
       case Breaks(fault) => Stop(r, fault, at)
       case Reads(status, reason) => Emit(r.(unread := [], stopped := true), CloseHeard(status, reason, at)))
    case _ =>
      var message := r.message + f.payload;
      if !f.fin then Advance(r.(inMessage := true, message := message))
      else if !Utf8.Valid(message) then Stop(r.(inMessage := false), InvalidUtf8, at)
      else Emit(r.(inMessage := false, message := []), Message(message, at))
  }

  function TurnOf(cfg: Config, r: Reader): Turn {
    match Parse(ContextOf(cfg, r), r.unread)
    case NeedMore => Wait
    case Refuse(fault) => Stop(r, fault, r.offset)
    case Parsed(frame, size) =>
      Settle(r.(unread := r.unread[size..], offset := r.offset + size), frame, r.offset)
  }

  function NextOf(cfg: Config, r: Reader): (o: Step<Reader, Event>)
    ensures o.event.Some? ==> |o.state.unread| < |r.unread|
    decreases |r.unread|
  {
    if r.stopped then Step(r, None)
    else
      match TurnOf(cfg, r)
      case Wait => Step(r, None)
      case Advance(r') => NextOf(cfg, r')
      case Emit(r', event) => Step(r', Some(event))
  }

  // ---- The reader as the program keeps it ----

  class Buffered {
    const expectMasked: bool
    const maxMessageBytes: nat
    var buffer: bytes
    var read: nat
    var offset: nat
    var inMessage: bool
    var message: bytes
    var stopped: bool

    ghost predicate Valid()
      reads this
    {
      read <= |buffer|
    }

    ghost function Abs(): Reader
      reads this
      requires Valid()
    {
      Reader(buffer[read..], offset, inMessage, message, stopped)
    }

    ghost function Cfg(): Config {
      Config(expectMasked, maxMessageBytes)
    }

    constructor (expectMasked: bool, maxMessageBytes: nat, base: nat)
      ensures Valid() && Abs() == Fresh(base) && Cfg() == Config(expectMasked, maxMessageBytes)
    {
      this.expectMasked := expectMasked;
      this.maxMessageBytes := maxMessageBytes;
      buffer, read, offset := [], 0, base;
      inMessage, message, stopped := false, [], false;
    }

    method Receive(more: bytes)
      requires Valid()
      modifies this
      ensures Valid() && Abs() == Append(old(Abs()), more)
    {
      if stopped {
        return;
      }
      if read > 0 {
        buffer := buffer[read..];
        read := 0;
      }
      buffer := buffer + more;
    }

    /** Reads the header at the front of the unread bytes and, when it has all arrived, the frame. */
    method Look() returns (v: Verdict)
      requires Valid()
      ensures v == Parse(ContextOf(Cfg(), Abs()), Abs().unread)
    {
      var available := |buffer| - read;
      if available < 2 {
        return NeedMore;
      }
      var b0, b1 := buffer[read], buffer[read + 1];
      var context := Context(expectMasked, maxMessageBytes, inMessage, |message|);
      var early := HeadFault(context, b0, b1);
      if early.Some? {
        return Refuse(early.value);
      }
      var header := HeaderBytes(b1);
      if available < header {
        return NeedMore;
      }
      var extended := ExtendedBytes(b1);
      SliceOfSuffix(buffer, read, 2, 2 + extended);
      v := LookPastHeader(context, buffer[read + 2..read + 2 + extended]);
    }

    /** The checks that need the whole header, `field` being its extended length. */
    method LookPastHeader(context: Context, field: bytes) returns (v: Verdict)
      requires Valid() && |buffer| - read >= 2 && |buffer| - read >= HeaderBytes(buffer[read + 1])
      requires OpcodeOf(buffer[read] % 16).Some? && |field| == ExtendedBytes(buffer[read + 1])
      ensures v == ParseBody(context, Abs().unread, field)
    {
      hide FromBigEndian, LengthAccepted, OpcodeOf, Masked, DataFault;
      var b0, b1 := buffer[read], buffer[read + 1];
      if !LengthAccepted(b1, field) {
        return Refuse(ProtocolViolation);
      }
      var length := ReadLength(b1, field);
      var header := HeaderBytes(b1);
      var op := OpcodeOf(b0 % 16).value;
      var late := DataFault(context, op, length);
      if late.Some? {
        return Refuse(late.value);
      }
      if |buffer| - read - header < length {
        return NeedMore;
      }
      SliceOfSuffix(buffer, read, header, header + length);
      var payload := buffer[read + header..read + header + length];
      if b1 < 128 {
        return Parsed(Frame(op, payload, b0 >= 128, None), header + length);
      }
      SliceOfSuffix(buffer, read, header - 4, header);
      var key := buffer[read + header - 4..read + header];
      var body := Frames.MaskInPlace(payload, 0, key);
      assert payload[0..] == payload;
      v := Parsed(Frame(op, body, b0 >= 128, Some(key)), header + length);
    }

    method ReadLength(b1: byte, field: bytes) returns (length: nat)
      requires |field| == ExtendedBytes(b1)
      ensures length == StatedLength(b1, field)
    {
      if field == [] {
        return b1 % 128;
      }
      length := 0;
      for i := 0 to |field|
        invariant length == FromBigEndian(field[..i])
      {
        assert field[..i + 1][..i] == field[..i];
        length := length * 256 + field[i];
      }
      assert field[..|field|] == field;
    }

    method Next() returns (event: Option<Event>)
      requires Valid()
      modifies this
      ensures Valid() && Step(Abs(), event) == NextOf(Cfg(), old(Abs()))
    {
      while !stopped
        invariant Valid()
        invariant NextOf(Cfg(), Abs()) == NextOf(Cfg(), old(Abs()))
        decreases |buffer| - read
      {
        var v := Look();
        if v.NeedMore? {
          return None;
        }
        event := Take(v);
        if event.Some? {
          return;
        }
      }
      event := None;
    }

    /** The rest of the loop's body, once the front of the stream is known. */
    method Take(v: Verdict) returns (event: Option<Event>)
      requires Valid() && !stopped && v == Parse(ContextOf(Cfg(), Abs()), Abs().unread) && !v.NeedMore?
      modifies this
      ensures Valid()
      ensures TurnOf(Cfg(), old(Abs())) == if event.Some? then Emit(Abs(), event.value) else Advance(Abs())
      ensures event.None? ==> |buffer| - read < old(|buffer| - read)
    {
      ghost var before := Abs();
      var start := offset;
      if v.Refuse? {
        event := Fault(v.fault, start);
        return;
      }
      var frame, size := v.frame, v.size;
      read := read + size;
      offset := offset + size;
      assert buffer[read..] == before.unread[size..];
      if IsControl(frame.opcode) {
        event := Control(frame, start);
        return;
      }
      message := message + frame.payload;
      inMessage := !frame.fin;
      if !frame.fin {
        return None;
      }
      var ok := Utf8.IsUtf8(message);
      if !ok {
        event := Fault(InvalidUtf8, start);
        return;
      }
      event := Some(Message(message, start));
      message := [];
    }

    method Fault(fault: Fault, at: nat) returns (event: Option<Event>)
      requires Valid()
      modifies this
      ensures Valid() && event.Some? && Emit(Abs(), event.value) == Stop(old(Abs()), fault, at)
    {
      stopped := true;
      buffer, read, message := [], 0, [];
      event := Some(Faulted(fault, at));
    }

    method Control(frame: Frame, at: nat) returns (event: Option<Event>)
      requires Valid() && IsControl(frame.opcode)
      modifies this
      ensures Valid() && event.Some? && Emit(Abs(), event.value) == Settle(old(Abs()), frame, at)
    {
      var payload := frame.payload;
      if frame.opcode.Ping? {
        return Some(PingHeard(payload, at));
      }
      if frame.opcode.Pong? {
        return Some(PongHeard(payload, at));
      }
      if |payload| == 1 {
        event := Fault(ProtocolViolation, at);
        return;
      }
      if |payload| >= 2 {
        var status := payload[0] as int * 256 + payload[1];
        assert payload[..2][..1] == [payload[0]] && payload[..1][..0] == [];
        assert FromBigEndian([payload[0]]) == payload[0];
        if !CloseStatusIsValid(status) {
          event := Fault(ProtocolViolation, at);
          return;
        }
        var ok := Utf8.IsUtf8(payload[2..]);
        if !ok {
          event := Fault(InvalidUtf8, at);
          return;
        }
        event := Some(CloseHeard(Some(status), payload[2..], at));
      } else {
        event := Some(CloseHeard(None, [], at));
      }
      stopped := true;
      buffer, read := [], 0;
    }
  }

  // ---- Arrival in pieces ----

  function AppendTurn(t: Turn, more: bytes): Turn {
    match t
    case Wait => Wait
    case Advance(r) => Advance(Append(r, more))
    case Emit(r, event) => Emit(Append(r, more), event)
  }

  lemma TurnIsStable(cfg: Config, r: Reader, more: bytes)
    requires !r.stopped && !TurnOf(cfg, r).Wait?
    ensures TurnOf(cfg, Append(r, more)) == AppendTurn(TurnOf(cfg, r), more)
  {
    hide Parse, Settle;
    var v := Parse(ContextOf(cfg, r), r.unread);
    ParseIsStable(ContextOf(cfg, r), r.unread, more);
    if v.Parsed? {
      var at := r.offset;
      var past := r.(unread := r.unread[v.size..], offset := at + v.size);
      assert (r.unread + more)[v.size..] == r.unread[v.size..] + more;
      SettlesAlike(past, v.frame, at, more);
    }
  }

  lemma SettlesAlike(r: Reader, f: Frame, at: nat, more: bytes)
    requires !r.stopped
    ensures Settle(Append(r, more), f, at) == AppendTurn(Settle(r, f, at), more)
  {
  }

  /** More bytes change neither an event already due nor the state reached while waiting. */
  lemma {:induction false} NextIsStable(cfg: Config, r: Reader, more: bytes)
    ensures var o := NextOf(cfg, r);
            NextOf(cfg, Append(r, more)) ==
            if o.event.Some? then Step(Append(o.state, more), o.event)
            else NextOf(cfg, Append(o.state, more))
    decreases |r.unread|
  {
    if !r.stopped && !TurnOf(cfg, r).Wait? {
      TurnIsStable(cfg, r, more);
      if TurnOf(cfg, r).Advance? {
        NextIsStable(cfg, TurnOf(cfg, r).reader, more);
      }
    }
  }

  /** The reader as a machine fed a stream: `NextOf` and `Append`. */
  function Reading(cfg: Config): Machine<Reader, Event> {
    Machine(r => NextOf(cfg, r), (r, more) => Append(r, more), (r: Reader) => |r.unread|)
  }

  lemma ReadingIsResumable(cfg: Config)
    ensures IsResumable(Reading(cfg))
  {
    var m := Reading(cfg);
    forall r: Reader, more: bytes
      ensures StableAt(m, r, more)
    {
      NextIsStable(cfg, r, more);
    }
    forall r: Reader
      ensures Append(r, []) == r
    {
      assert r.unread + [] == r.unread;
    }
    forall r: Reader, a: bytes, b: bytes
      ensures Append(Append(r, a), b) == Append(r, a + b)
    {
      assert r.unread + a + b == r.unread + (a + b);
    }
  }

  /** A reader drained of every event due. */
  ghost function Heard(cfg: Config, r: Reader): Run<Reader, Event> {
    ReadingIsResumable(cfg);
    Drain(Reading(cfg), r)
  }

  /** A stopped reader never delivers again, whatever arrives. */
  lemma StoppedIsFinal(cfg: Config, r: Reader, more: bytes)
    requires r.stopped
    ensures NextOf(cfg, Append(r, more)) == Step(r, None)
  {
  }

  // ---- Bounds over every reachable state ----

  /** The reader was built at stream offset `base` and has been given `given` bytes. */
  ghost predicate Reachable(cfg: Config, r: Reader, base: nat, given: nat) {
    !r.stopped ==>
      && |r.message| <= cfg.maxMessageBytes
      && (!r.inMessage ==> r.message == [])
      && r.offset + |r.unread| == base + given
  }

  /** One frame keeps a reader reachable, and names a byte of the stream when it gives an event. */
  lemma TurnKeepsReachable(cfg: Config, r: Reader, base: nat, given: nat)
    requires Reachable(cfg, r, base, given) && !r.stopped && cfg.maxMessageBytes < SIZE_T
    ensures match TurnOf(cfg, r)
            case Wait => |r.message| + |r.unread| < cfg.maxMessageBytes + 131
            case Advance(r') => Reachable(cfg, r', base, given) && r.offset < r'.offset
            case Emit(r', event) =>
              && Reachable(cfg, r', base, given)
              && r.offset == event.at <= base + given
              && (r'.stopped <==> event.CloseHeard? || event.Faulted?)
  {
    var c := ContextOf(cfg, r);
    match Parse(c, r.unread)
    case NeedMore =>
      WaitingIsBounded(c, r.unread);
    case Refuse(fault) =>
    case Parsed(f, size) =>
      ParsedFits(c, r.unread);
      var past := r.(unread := r.unread[size..], offset := r.offset + size);
      assert past.offset + |past.unread| == base + given;
  }

  /** Every reachable state keeps the memory bound, and events point into the stream. */
  lemma {:induction false} NextKeepsReachable(cfg: Config, r: Reader, base: nat, given: nat)
    requires Reachable(cfg, r, base, given) && cfg.maxMessageBytes < SIZE_T
    ensures var o := NextOf(cfg, r);
            && Reachable(cfg, o.state, base, given)
            && (o.event.None? && !o.state.stopped ==>
                  |o.state.message| + |o.state.unread| < cfg.maxMessageBytes + 131)
            && (o.event.Some? ==>
                  r.offset <= o.event.value.at <= base + given
                  && (o.state.stopped <==> o.event.value.CloseHeard? || o.event.value.Faulted?))
    decreases |r.unread|
  {
    if !r.stopped {
      TurnKeepsReachable(cfg, r, base, given);
      if TurnOf(cfg, r).Advance? {
        NextKeepsReachable(cfg, TurnOf(cfg, r).reader, base, given);
      }
    }
  }

  /** In a reachable reader the bound's unsigned subtraction is the true one. */
  lemma BoundNeverWraps(cfg: Config, r: Reader, base: nat, given: nat)
    requires Reachable(cfg, r, base, given) && !r.stopped && cfg.maxMessageBytes < SIZE_T
    ensures SizeSub(cfg.maxMessageBytes, |r.message|) == cfg.maxMessageBytes - |r.message|
  {
  }
}
