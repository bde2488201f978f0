/**
 What a whole stream of frames means to the reader: every event it gives however the stream is cut,
 and, for the frames a conforming peer prints, exactly the messages those frames spell.
 */
module FrameStream {
  import opened Bytes
  import opened FrameLanguage
  import opened Frames
  import opened FrameReader
  import opened Resumable
  import Utf8

  // ---- Frames, as their printer means them ----

  function EncodeAll(frames: seq<Frame>): bytes {
    if frames == [] then [] else Encode(frames[0]) + EncodeAll(frames[1..])
  }

  lemma {:induction false} EncodeAllAppend(a: seq<Frame>, b: seq<Frame>)
    ensures EncodeAll(a + b) == EncodeAll(a) + EncodeAll(b)
  {
    if a == [] {
      assert a + b == b;
    } else {
      assert (a + b)[1..] == a[1..] + b;
      EncodeAllAppend(a[1..], b);
    }
  }

  function Held(message: Option<bytes>): bytes {
    if message.Some? then message.value else []
  }

  /** A close status that a peer may send, section 7.4 of RFC 6455 and its registry. */
  predicate MayCloseWith(status: nat) {
    1000 <= status <= 1003 || 1007 <= status <= 1014 || 3000 <= status <= 4999
  }

  /** A close frame's status: its first two bytes, the more significant first. */
  function StatusIn(payload: bytes): nat
    requires |payload| >= 2
  {
    (payload[0] as int) * 256 + payload[1] as int
  }

  /** What a close frame says by its payload: nothing, a status and a reason, or a fault. */
  function CloseSaid(payload: bytes, at: nat): Event {
    if payload == [] then CloseHeard(None, [], at)
    else if |payload| == 1 || !MayCloseWith(StatusIn(payload)) then Faulted(ProtocolViolation, at)
    else if !Utf8.Valid(payload[2..]) then Faulted(InvalidUtf8, at)
    else CloseHeard(Some(StatusIn(payload)), payload[2..], at)
  }

  /**
   The events a list of frames spells; `message` is the fragment open before it, `at` its offset. A close
   frame and a text that is not UTF-8 are the last thing heard.
   */
  function Spelled(frames: seq<Frame>, at: nat, message: Option<bytes>): seq<Event> {
    if frames == [] then []
    else
      var f, rest, next := frames[0], frames[1..], at + |Encode(frames[0])|;
      match f.opcode
      case Ping => [PingHeard(f.payload, at)] + Spelled(rest, next, message)
      case Pong => [PongHeard(f.payload, at)] + Spelled(rest, next, message)
      case Close => [CloseSaid(f.payload, at)]
      case _ =>
        var text := Held(message) + f.payload;
        if !f.fin then Spelled(rest, next, Some(text))
        else if !Utf8.Valid(text) then [Faulted(InvalidUtf8, at)]
        else [Message(text, at)] + Spelled(rest, next, None)
  }

  /** The fragment open after a list of frames, unless one of them was the last thing heard. */
  function OpenAfter(frames: seq<Frame>, message: Option<bytes>): Option<Option<bytes>> {
    if frames == [] then Some(message)
    else
      var f, text := frames[0], Held(message) + frames[0].payload;
      match f.opcode
      case Ping => OpenAfter(frames[1..], message)
      case Pong => OpenAfter(frames[1..], message)
      case Close => None
      case _ =>
        if !f.fin then OpenAfter(frames[1..], Some(text))
        else if !Utf8.Valid(text) then None
        else OpenAfter(frames[1..], None)
  }

  /** Where the reader stands with a fragment open. */
  function ContextWith(cfg: Config, message: Option<bytes>): Context {
    Context(cfg.expectMasked, cfg.maxMessageBytes, message.Some?, |Held(message)|)
  }

  /** Frames that a reader takes one after the other, up to the last thing it hears. */
  ghost predicate Taken(cfg: Config, frames: seq<Frame>, message: Option<bytes>) {
    frames != [] ==>
      && IsTaken(ContextWith(cfg, message), frames[0])
      && (OpenAfter(frames[..1], message).Some? ==> Taken(cfg, frames[1..], OpenAfter(frames[..1], message).value))
  }

  /** What section 5 of RFC 6455 asks of a sender, frame by frame, up to its close frame. */
  ghost predicate Conforming(cfg: Config, frames: seq<Frame>, message: Option<bytes>) {
    frames != [] ==>
      var f, rest := frames[0], frames[1..];
      && Printable(f) && f.mask.Some? == cfg.expectMasked
      && if f.opcode.Close? then CloseSaid(f.payload, 0).CloseHeard?
         else if IsControl(f.opcode) then Conforming(cfg, rest, message)
         else
           var text := Held(message) + f.payload;
           && (f.opcode.Continuation? <==> message.Some?) && !f.opcode.Binary?
           && |text| <= cfg.maxMessageBytes
           && (f.fin ==> Utf8.Valid(text))
           && Conforming(cfg, rest, if f.fin then None else Some(text))
  }

  function Midway(u: bytes, at: nat, message: Option<bytes>): Reader {
    Reader(u, at, message.Some?, Held(message), false)
  }

  /** A conforming peer's frames are taken one after the other. */
  lemma {:induction false} ConformingIsTaken(cfg: Config, frames: seq<Frame>, message: Option<bytes>)
    requires Conforming(cfg, frames, message) && |Held(message)| <= cfg.maxMessageBytes
    ensures Taken(cfg, frames, message)
    decreases |frames|
  {
    if frames != [] {
      var f, text := frames[0], Held(message) + frames[0].payload;
      FirstOpens(frames, message);
      if IsControl(f.opcode) {
        if !f.opcode.Close? {
          ConformingIsTaken(cfg, frames[1..], message);
        }
      } else {
        ConformingIsTaken(cfg, frames[1..], if f.fin then None else Some(text));
      }
    }
  }

  /** What the first frame leaves open. */
  lemma FirstOpens(frames: seq<Frame>, message: Option<bytes>)
    requires frames != []
    ensures var f, text := frames[0], Held(message) + frames[0].payload;
            OpenAfter(frames[..1], message) ==
              if f.opcode.Close? then None
              else if IsControl(f.opcode) then Some(message)
              else if !f.fin then Some(Some(text))
              else if Utf8.Valid(text) then Some(None)
              else None
  {
    hide Utf8.Valid;
    assert frames[..1][1..] == [];
  }

  /** One frame that is taken, at the front of the unread bytes, takes its turn as its printer meant it. */
  lemma FrameTakesItsTurn(cfg: Config, f: Frame, at: nat, message: Option<bytes>, rest: bytes)
    requires IsTaken(ContextWith(cfg, message), f)
    ensures TurnOf(cfg, Midway(Encode(f) + rest, at, message)) == Settle(Midway(rest, at + |Encode(f)|, message), f, at)
  {
    hide IsTaken, Spells, Encode, Parse, Settle;
    var u := Encode(f) + rest;
    var r := Midway(u, at, message);
    TakenIsPrintable(ContextWith(cfg, message), f);
    SpellsIsEncode(Encode(f), f);
    assert u[..|Encode(f)|] == Encode(f);
    ParsedIffTaken(ContextOf(cfg, r), u, f, |Encode(f)|);
    assert u[|Encode(f)|..] == rest;
  }

  lemma TakenIsPrintable(c: Context, f: Frame)
    requires IsTaken(c, f)
    ensures Printable(f)
  {
  }

  /** The reader's verdict on a close frame is what the frame says. */
  lemma CloseIsRead(payload: bytes, at: nat)
    ensures match ReadClose(payload)
            case Breaks(fault) => CloseSaid(payload, at) == Faulted(fault, at)
            case Reads(status, reason) => CloseSaid(payload, at) == CloseHeard(status, reason, at)
  {
    hide Utf8.Valid;
    if |payload| >= 2 {
      TwoIsBigEndian([], payload[..2]);
      assert [] + payload[..2] == payload[..2];
    }
  }

  /** The machine gives `event` in state `r` and falls silent. */
  ghost predicate HearsLast(m: Machine<Reader, Event>, r: Reader, event: Event) {
    m.next(r).event == Some(event) && m.next(m.next(r).state) == Step(m.next(r).state, None)
  }

  /** What a machine makes of one frame it takes: the step that `Spelled` takes over it. */
  ghost predicate HearsFrame(m: Machine<Reader, Event>, f: Frame, at: nat, message: Option<bytes>, rest: bytes) {
    var r, next := Midway(Encode(f) + rest, at, message), at + |Encode(f)|;
    var text := Held(message) + f.payload;
    match f.opcode
    case Ping => m.next(r) == Step(Midway(rest, next, message), Some(PingHeard(f.payload, at)))
    case Pong => m.next(r) == Step(Midway(rest, next, message), Some(PongHeard(f.payload, at)))
    case Close => HearsLast(m, r, CloseSaid(f.payload, at))
    case _ =>
      if !f.fin then m.next(r) == m.next(Midway(rest, next, Some(text)))
      else if Utf8.Valid(text) then m.next(r) == Step(Midway(rest, next, None), Some(Message(text, at)))
      else HearsLast(m, r, Faulted(InvalidUtf8, at))
  }

  /** The step a machine takes when the frame at its front has the effect `t`. */
  ghost function Resolved(m: Machine<Reader, Event>, r: Reader, t: Turn): Step<Reader, Event> {
    match t
    case Wait => Step(r, None)
    case Advance(r') => m.next(r')
    case Emit(r', event) => Step(r', Some(event))
  }

  lemma SettledIsHeard(m: Machine<Reader, Event>, f: Frame, at: nat, message: Option<bytes>, rest: bytes)
    requires forall r: Reader :: r.stopped ==> m.next(r) == Step(r, None)
    requires var r := Midway(Encode(f) + rest, at, message);
             m.next(r) == Resolved(m, r, Settle(Midway(rest, at + |Encode(f)|, message), f, at))
    ensures HearsFrame(m, f, at, message, rest)
  {
    hide Encode, Utf8.Valid, ReadClose, CloseSaid;
    CloseIsRead(f.payload, at);
  }

  lemma FrameIsHeard(cfg: Config, f: Frame, at: nat, message: Option<bytes>, rest: bytes)
    requires IsTaken(ContextWith(cfg, message), f)
    ensures HearsFrame(Reading(cfg), f, at, message, rest)
  {
    hide IsTaken;
    FrameTakesItsTurn(cfg, f, at, message, rest);
    SettledIsHeard(Reading(cfg), f, at, message, rest);
  }

  /** What comes of bytes at which no frame is taken: a fault if they are refused, and otherwise a wait. */
  function TailSaid(cfg: Config, tail: bytes, at: nat, message: Option<bytes>): seq<Event> {
    match Parse(ContextWith(cfg, message), tail)
    case Refuse(fault) => [Faulted(fault, at)]
    case _ => []
  }

  ghost predicate HearsTail(m: Machine<Reader, Event>, cfg: Config, tail: bytes, at: nat, message: Option<bytes>) {
    var said, r := TailSaid(cfg, tail, at, message), Midway(tail, at, message);
    if said == [] then m.next(r) == Step(r, None) else HearsLast(m, r, said[0])
  }

  lemma TailIsHeard(cfg: Config, tail: bytes, at: nat, message: Option<bytes>)
    requires !Parse(ContextWith(cfg, message), tail).Parsed?
    ensures HearsTail(Reading(cfg), cfg, tail, at, message)
  {
    hide Parse;
    assert ContextOf(cfg, Midway(tail, at, message)) == ContextWith(cfg, message);
  }

  ghost predicate HearsFrames(m: Machine<Reader, Event>, cfg: Config) {
    forall f, at, message, rest :: IsTaken(ContextWith(cfg, message), f) ==> HearsFrame(m, f, at, message, rest)
  }

  /** The bytes after the frames are no frame that is taken, if anything is still heard of them. */
  ghost predicate EndsTaking(cfg: Config, frames: seq<Frame>, message: Option<bytes>, tail: bytes) {
    var open := OpenAfter(frames, message);
    open.Some? ==> !Parse(ContextWith(cfg, open.value), tail).Parsed?
  }

  /** The events of frames and of the bytes after them. */
  function Told(cfg: Config, frames: seq<Frame>, tail: bytes, at: nat, message: Option<bytes>): seq<Event> {
    var open := OpenAfter(frames, message);
    Spelled(frames, at, message)
    + if open.Some? then TailSaid(cfg, tail, at + |EncodeAll(frames)|, open.value) else []
  }

  lemma DrainsLast(m: Machine<Reader, Event>, r: Reader, event: Event)
    requires Shrinks(m) && HearsLast(m, r, event)
    ensures Drain(m, r).events == [event]
  {
    DrainOne(m, r, m.next(r).state, event);
  }

  lemma TailIsTold(m: Machine<Reader, Event>, cfg: Config, tail: bytes, at: nat, message: Option<bytes>)
    requires Shrinks(m) && HearsTail(m, cfg, tail, at, message)
    ensures Drain(m, Midway(tail, at, message)).events == TailSaid(cfg, tail, at, message)
  {
    hide Parse;
    var said := TailSaid(cfg, tail, at, message);
    if said != [] {
      DrainsLast(m, Midway(tail, at, message), said[0]);
    }
  }

  /** What the first frame and the rest spell, and what they leave open. */
  lemma SpelledStep(frames: seq<Frame>, at: nat, message: Option<bytes>)
    requires frames != []
    ensures var f, next, open := frames[0], at + |Encode(frames[0])|, OpenAfter(frames[..1], message);
            var text := Held(message) + f.payload;
            if open.None? then
              && OpenAfter(frames, message) == None
              && Spelled(frames, at, message) == [if f.opcode.Close? then CloseSaid(f.payload, at) else Faulted(InvalidUtf8, at)]
            else
              && OpenAfter(frames, message) == OpenAfter(frames[1..], open.value)
              && Spelled(frames, at, message) ==
                 (match f.opcode
                  case Ping => [PingHeard(f.payload, at)]
                  case Pong => [PongHeard(f.payload, at)]
                  case _ => if f.fin then [Message(text, at)] else [])
                 + Spelled(frames[1..], next, open.value)
  {
    hide Encode, Utf8.Valid, CloseSaid;
    FirstOpens(frames, message);
  }

  /** What the first frame and the rest tell. */
  lemma ToldStep(cfg: Config, frames: seq<Frame>, tail: bytes, at: nat, message: Option<bytes>)
    requires frames != []
    ensures var f, next, open := frames[0], at + |Encode(frames[0])|, OpenAfter(frames[..1], message);
            var text := Held(message) + f.payload;
            if open.None? then
              Told(cfg, frames, tail, at, message) == [if f.opcode.Close? then CloseSaid(f.payload, at) else Faulted(InvalidUtf8, at)]
            else
              && (EndsTaking(cfg, frames, message, tail) ==> EndsTaking(cfg, frames[1..], open.value, tail))
              && Told(cfg, frames, tail, at, message) ==
                 (match f.opcode
                  case Ping => [PingHeard(f.payload, at)]
                  case Pong => [PongHeard(f.payload, at)]
                  case _ => if f.fin then [Message(text, at)] else [])
                 + Told(cfg, frames[1..], tail, next, open.value)
  {
    hide Encode, Utf8.Valid, CloseSaid, TailSaid, Parse, Spelled, OpenAfter;
    SpelledStep(frames, at, message);
    assert at + |Encode(frames[0])| + |EncodeAll(frames[1..])| == at + |EncodeAll(frames)|;
  }

  lemma {:induction false} FramesAreHeard(m: Machine<Reader, Event>, cfg: Config, frames: seq<Frame>, tail: bytes,
                                          at: nat, message: Option<bytes>)
    requires Shrinks(m) && HearsFrames(m, cfg) && Taken(cfg, frames, message) && EndsTaking(cfg, frames, message, tail)
    requires forall at, message, tail :: !Parse(ContextWith(cfg, message), tail).Parsed? ==> HearsTail(m, cfg, tail, at, message)
    ensures Drain(m, Midway(EncodeAll(frames) + tail, at, message)).events == Told(cfg, frames, tail, at, message)
    decreases |frames|
  {
    hide IsTaken, Parse, Encode, Utf8.Valid, CloseSaid, TailSaid, HearsTail, Told, EndsTaking, OpenAfter;
    if frames == [] {
      assert EncodeAll(frames) + tail == tail;
      NothingTold(cfg, tail, at, message);
      TailIsTold(m, cfg, tail, at, message);
    } else {
      var f, next := frames[0], at + |Encode(frames[0])|;
      var rest, open := EncodeAll(frames[1..]) + tail, OpenAfter(frames[..1], message);
      assert EncodeAll(frames) + tail == Encode(f) + rest;
      assert HearsFrame(m, f, at, message, rest);
      FirstOpens(frames, message);
      ToldStep(cfg, frames, tail, at, message);
      if open.None? {
        DrainsLast(m, Midway(Encode(f) + rest, at, message),
                   if f.opcode.Close? then CloseSaid(f.payload, at) else Faulted(InvalidUtf8, at));
      } else {
        FramesAreHeard(m, cfg, frames[1..], tail, next, open.value);
      }
    }
  }

  lemma NothingTold(cfg: Config, tail: bytes, at: nat, message: Option<bytes>)
    ensures Told(cfg, [], tail, at, message) == TailSaid(cfg, tail, at, message)
    ensures EndsTaking(cfg, [], message, tail) ==> !Parse(ContextWith(cfg, message), tail).Parsed?
  {
    hide TailSaid, Parse;
  }

  /**
   Every stream: the frames a reader takes one after the other, and bytes at which it takes none, give
   what the frames spell and then, unless that was the last thing heard, the refusal of those bytes if
   they are refused.
   */
  lemma StreamIsTold(cfg: Config, frames: seq<Frame>, tail: bytes, at: nat)
    requires Taken(cfg, frames, None) && EndsTaking(cfg, frames, None, tail)
    ensures Heard(cfg, Append(Fresh(at), EncodeAll(frames) + tail)).events == Told(cfg, frames, tail, at, None)
  {
    hide Taken, EndsTaking, Parse, Told, IsTaken, Encode, HearsFrame, HearsTail;
    ReadingIsResumable(cfg);
    var m := Reading(cfg);
    forall f, at, message, rest | IsTaken(ContextWith(cfg, message), f)
      ensures HearsFrame(m, f, at, message, rest)
    {
      FrameIsHeard(cfg, f, at, message, rest);
    }
    forall at, message, tail | !Parse(ContextWith(cfg, message), tail).Parsed?
      ensures HearsTail(m, cfg, tail, at, message)
    {
      TailIsHeard(cfg, tail, at, message);
    }
    FramesAreHeard(m, cfg, frames, tail, at, None);
    assert Append(Fresh(at), EncodeAll(frames) + tail) == Midway(EncodeAll(frames) + tail, at, None);
  }

  /** Every stream is such frames and such bytes. */
  lemma {:induction false} EveryStreamIsTold(cfg: Config, u: bytes, message: Option<bytes>) returns (frames: seq<Frame>, tail: bytes)
    ensures u == EncodeAll(frames) + tail && Taken(cfg, frames, message) && EndsTaking(cfg, frames, message, tail)
    decreases |u|
  {
    hide Encode, Parse, IsTaken, Spells;
    frames, tail := [], u;
    assert EncodeAll([]) + u == u;
    if Parse(ContextWith(cfg, message), u).Parsed? {
      var f, n := Parse(ContextWith(cfg, message), u).frame, Parse(ContextWith(cfg, message), u).size;
      ParsedIffTaken(ContextWith(cfg, message), u, f, n);
      TakenIsPrintable(ContextWith(cfg, message), f);
      SpellsIsEncode(u[..n], f);
      var open := OpenAfter([f], message);
      if open.None? {
        frames, tail := [f], u[n..];
        assert frames[..1] == [f] && frames[1..] == [];
        assert EncodeAll(frames) == Encode(f) + EncodeAll([]);
      } else {
        var more, rest := EveryStreamIsTold(cfg, u[n..], open.value);
        frames, tail := [f] + more, rest;
        assert frames[..1] == [f] && frames[1..] == more;
        OpenGoesOn(frames, message);
      }
    }
  }

  lemma OpenGoesOn(frames: seq<Frame>, message: Option<bytes>)
    requires frames != [] && OpenAfter(frames[..1], message).Some?
    ensures OpenAfter(frames, message) == OpenAfter(frames[1..], OpenAfter(frames[..1], message).value)
  {
    hide Utf8.Valid;
    FirstOpens(frames, message);
  }

  lemma {:induction false} ConformingIsFaultless(cfg: Config, frames: seq<Frame>, at: nat, message: Option<bytes>)
    requires Conforming(cfg, frames, message)
    ensures forall e :: e in Spelled(frames, at, message) ==> !e.Faulted?
    decreases |frames|
  {
    if frames != [] {
      var f, next := frames[0], at + |Encode(frames[0])|;
      if f.opcode.Ping? || f.opcode.Pong? {
        ConformingIsFaultless(cfg, frames[1..], next, message);
      } else if !f.opcode.Close? {
        ConformingIsFaultless(cfg, frames[1..], next, if f.fin then None else Some(Held(message) + f.payload));
      }
    }
  }

  /** A conforming stream gives exactly the events its frames spell, and never a fault. */
  lemma ConformingIsHeard(cfg: Config, frames: seq<Frame>, at: nat)
    requires Conforming(cfg, frames, None)
    ensures Heard(cfg, Append(Fresh(at), EncodeAll(frames))).events == Spelled(frames, at, None)
    ensures forall e :: e in Spelled(frames, at, None) ==> !e.Faulted?
  {
    hide Conforming, Taken, Spelled, Told, EndsTaking, EncodeAll;
    ConformingIsTaken(cfg, frames, None);
    ConformingIsFaultless(cfg, frames, at, None);
    assert EncodeAll(frames) + [] == EncodeAll(frames);
    NothingAfter(cfg, frames, at);
    StreamIsTold(cfg, frames, [], at);
  }

  /** When nothing follows the frames, nothing more is told. */
  lemma NothingAfter(cfg: Config, frames: seq<Frame>, at: nat)
    ensures EndsTaking(cfg, frames, None, []) && Told(cfg, frames, [], at, None) == Spelled(frames, at, None)
  {
    hide Spelled, OpenAfter, HeadFault, ParseBody;
    assert Spelled(frames, at, None) + [] == Spelled(frames, at, None);
  }

  /** A conforming stream cut anywhere gives a prefix of the events its frames spell, and no fault. */
  lemma CutStreamIsHeard(cfg: Config, frames: seq<Frame>, at: nat, seen: bytes, more: bytes)
    requires Conforming(cfg, frames, None)
    requires EncodeAll(frames) == seen + more
    ensures Heard(cfg, Append(Fresh(at), seen)).events <= Spelled(frames, at, None)
    ensures forall e :: e in Heard(cfg, Append(Fresh(at), seen)).events ==> !e.Faulted?
  {
    ReadingIsResumable(cfg);
    PrefixOfStream(Reading(cfg), Fresh(at), seen, more);
    ConformingIsHeard(cfg, frames, at);
  }

  // ---- Fragmentation ----

  /** The texts among the reader's events, and the payloads of the data frames among frames. */
  function TextsIn(events: seq<Event>): seq<bytes> {
    if events == [] then []
    else (if events[0].Message? then [events[0].text] else []) + TextsIn(events[1..])
  }

  function DataIn(frames: seq<Frame>): seq<bytes> {
    if frames == [] then []
    else (if IsControl(frames[0].opcode) then [] else [frames[0].payload]) + DataIn(frames[1..])
  }

  /** Frames that end one message and no other: control frames anywhere before its last fragment. */
  predicate EndsOneMessage(frames: seq<Frame>) {
    && frames != []
    && var last := |frames| - 1;
       && frames[last].fin && !IsControl(frames[last].opcode)
       && forall i :: 0 <= i < last ==> (if IsControl(frames[i].opcode) then !frames[i].opcode.Close? else !frames[i].fin)
  }

  /** The texts that one whole message is heard as: itself if it is UTF-8, and otherwise none. */
  function HeardAs(text: bytes): seq<bytes> {
    if Utf8.Valid(text) then [text] else []
  }

  lemma LastFragment(f: Frame, at: nat, message: Option<bytes>)
    requires f.fin && !IsControl(f.opcode)
    ensures TextsIn(Spelled([f], at, message)) == HeardAs(Held(message) + Concat(DataIn([f])))
  {
    hide Encode, Utf8.Valid;
    var text := Held(message) + f.payload;
    assert [f][1..] == [];
    var pieces := DataIn([f]);
    assert pieces == [f.payload] && pieces[1..] == [];
    assert Concat(pieces) == f.payload;
    assert Spelled([], at + |Encode(f)|, None) == [];
    assert TextsIn([Message(text, at)]) == [text] + TextsIn([]);
    assert TextsIn([Faulted(InvalidUtf8, at)]) == [] + TextsIn([]);
  }

  lemma FirstOfMessage(frames: seq<Frame>)
    requires EndsOneMessage(frames)
    ensures frames != []
    ensures |frames| == 1 ==> frames[0].fin && !IsControl(frames[0].opcode)
    ensures |frames| > 1 ==> EndsOneMessage(frames[1..])
    ensures |frames| > 1 ==> if IsControl(frames[0].opcode) then !frames[0].opcode.Close? else !frames[0].fin
  {
  }

  /** A ping or a pong spells no text and carries no piece of one. */
  lemma ControlIsPassed(frames: seq<Frame>, at: nat, message: Option<bytes>)
    requires frames != [] && IsControl(frames[0].opcode) && !frames[0].opcode.Close?
    ensures TextsIn(Spelled(frames, at, message)) == TextsIn(Spelled(frames[1..], at + |Encode(frames[0])|, message))
    ensures DataIn(frames) == DataIn(frames[1..])
  {
    hide Encode;
    var rest := Spelled(frames[1..], at + |Encode(frames[0])|, message);
    assert Spelled(frames, at, message)[1..] == rest;
  }

  /** A piece that is not the last spells nothing yet, and is held. */
  lemma PieceIsHeld(frames: seq<Frame>, at: nat, message: Option<bytes>)
    requires frames != [] && !IsControl(frames[0].opcode) && !frames[0].fin
    ensures Spelled(frames, at, message)
         == Spelled(frames[1..], at + |Encode(frames[0])|, Some(Held(message) + frames[0].payload))
    ensures Concat(DataIn(frames)) == frames[0].payload + Concat(DataIn(frames[1..]))
  {
    hide Encode;
    assert DataIn(frames)[1..] == DataIn(frames[1..]);
  }

  /** However a message is cut into fragments, and whatever control frames come between, one message is heard: its pieces in order, if they are UTF-8. */
  lemma {:induction false} FragmentsReassemble(frames: seq<Frame>, at: nat, message: Option<bytes>)
    requires EndsOneMessage(frames)
    ensures TextsIn(Spelled(frames, at, message)) == HeardAs(Held(message) + Concat(DataIn(frames)))
  {
    hide Encode, EndsOneMessage, Spelled, TextsIn, DataIn, Concat;
    FirstOfMessage(frames);
    var f, rest, next := frames[0], frames[1..], at + |Encode(frames[0])|;
    if |frames| == 1 {
      LastFragment(f, at, message);
      assert frames == [f];
    } else if IsControl(f.opcode) {
      ControlIsPassed(frames, at, message);
      FragmentsReassemble(rest, next, message);
    } else {
      var held := Held(message) + f.payload;
      PieceIsHeld(frames, at, message);
      FragmentsReassemble(rest, next, Some(held));
      assert held + Concat(DataIn(rest)) == Held(message) + Concat(DataIn(frames));
    }
  }
}
