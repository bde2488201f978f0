/**
 Frames relayed over a connection, as Connector.cpp accepts them: the sender's numbering watched for
 restarts and gaps, and a frame whose actors do not advance dropped whole.
 */
module RelayFrames {
  import opened Bytes

  /** An actor of a decoded frame, with its pose's timestamp when it carries a pose. */
  datatype Actor = Actor(name: string, pose: Option<real>)

  /** A message: text that does not decode, or a frame. */
  datatype Message = Undecodable | Frame(number: nat, profile: string, actors: seq<Actor>)

  const UINT64 := 0x1_0000_0000_0000_0000

  /**
   What happened. A decoded frame starts a run of the sender's numbers, or follows the last with `gap`
   numbers skipped; `restarts` tells a restart reported with it.
   */
  datatype Happening =
    | Began
    | Unread
    | Decoded(number: nat, starts: bool, restarts: bool, gap: nat)
    | ProfileDropped
    | Regressed
    | Delivered(number: nat, actors: seq<Actor>)

  /** The connector's state, with everything that happened so far. */
  datatype Ledger = Ledger(
    peer: Option<string>,
    newConnection: bool,
    senderNumber: Option<nat>,
    poses: map<string, real>,
    frameNumber: nat,
    deliveredAny: bool,
    log: seq<Happening>)

  const START := Ledger(None, false, None, map[], 0, false, [])

  /** No two actors of one name, as the codec guarantees. */
  predicate UniqueActors(actors: seq<Actor>) {
    forall i, k :: 0 <= i < k < |actors| ==> actors[i].name != actors[k].name
  }

  function PosesOf(poses: map<string, real>, actors: seq<Actor>): map<string, real> {
    if actors == [] then poses
    else
      var before, last := PosesOf(poses, actors[..|actors| - 1]), actors[|actors| - 1];
      if last.pose.Some? then before[last.name := last.pose.value] else before
  }

  /** Every pose is past the one its actor was last delivered with. */
  predicate Advances(poses: map<string, real>, actors: seq<Actor>) {
    forall i :: 0 <= i < |actors| && actors[i].pose.Some? && actors[i].name in poses ==>
      actors[i].pose.value > poses[actors[i].name]
  }

  function Begin(l: Ledger, peer: string): Ledger {
    l.(peer := Some(peer), newConnection := true, senderNumber := None, log := l.log + [Began])
  }

  /** The numbers skipped between two that a sender sent, in 64-bit arithmetic. */
  function GapAfter(last: nat, number: nat): nat {
    if number > (last + 1) % UINT64 then ((number - 1) - (last + 1) + 1) % UINT64 else 0
  }

  /** A decoded frame's number, compared with the last. */
  function Numbered(l: Ledger, number: nat): Ledger {
    var restarts := if l.newConnection then l.deliveredAny else l.senderNumber.Some? && number <= l.senderNumber.value;
    var starts := l.newConnection || l.senderNumber.None? || number <= l.senderNumber.value;
    var gap := if starts then 0 else GapAfter(l.senderNumber.value, number);
    l.(newConnection := false, senderNumber := Some(number),
       poses := if restarts then map[] else l.poses,
       log := l.log + [Decoded(number, starts, restarts, gap)])
  }

  function Step(profile: string, l: Ledger, m: Message): Ledger {
    match m
    case Undecodable => l.(log := l.log + [Unread])
    case Frame(number, claimed, actors) =>
      var l' := Numbered(l, number);
      if profile != "" && claimed != profile then l'.(log := l'.log + [ProfileDropped])
      else if !Advances(l'.poses, actors) then l'.(log := l'.log + [Regressed])
      else
        l'.(poses := PosesOf(l'.poses, actors), frameNumber := l'.frameNumber + 1, deliveredAny := true,
            log := l'.log + [Delivered(l'.frameNumber + 1, actors)])
  }

  datatype Event = Event(message: Message, peer: string)

  function Pushed(profile: string, l: Ledger, e: Event): Ledger {
    Step(profile, if l.peer != Some(e.peer) then Begin(l, e.peer) else l, e.message)
  }

  function Run(profile: string, events: seq<Event>): Ledger {
    if events == [] then START else Pushed(profile, Run(profile, events[..|events| - 1]), events[|events| - 1])
  }

  // ---- What every run keeps ----

  /** The timestamps delivered since the last restart. */
  function History(log: seq<Happening>): map<string, real> {
    if log == [] then map[]
    else
      var before, last := History(log[..|log| - 1]), log[|log| - 1];
      if last.Delivered? then PosesOf(before, last.actors)
      else if last.Decoded? && last.restarts then map[]
      else before
  }

  function DeliveredCount(log: seq<Happening>): nat {
    if log == [] then 0 else DeliveredCount(log[..|log| - 1]) + if log[|log| - 1].Delivered? then 1 else 0
  }

  /** The run of numbers under way: its first number, and how many frames were decoded and skipped in it. */
  datatype Span = Span(first: nat, decoded: nat, skipped: nat)

  function SpanOf(log: seq<Happening>): Span {
    if log == [] then Span(0, 0, 0)
    else
      var before, last := SpanOf(log[..|log| - 1]), log[|log| - 1];
      if !last.Decoded? then before
      else if last.starts then Span(last.number, 1, 0)
      else Span(before.first, before.decoded + 1, before.skipped + last.gap)
  }

  function LastNumber(log: seq<Happening>): nat {
    if log == [] then 0
    else if log[|log| - 1].Decoded? then log[|log| - 1].number
    else LastNumber(log[..|log| - 1])
  }

  /** One thing that happened, given what came before it. */
  ghost predicate Justified(before: seq<Happening>, h: Happening) {
    match h
    case Delivered(number, actors) => Advances(History(before), actors) && number == DeliveredCount(before) + 1
    case Decoded(number, starts, restarts, gap) =>
      && (starts ==> gap == 0) && (restarts ==> starts)
      && (!starts ==> number > LastNumber(before) && gap == number - LastNumber(before) - 1)
      && (starts && !restarts ==> DeliveredCount(before) == 0)
    case _ => true
  }

  ghost predicate AllJustified(log: seq<Happening>) {
    forall i :: 0 <= i < |log| ==> Justified(log[..i], log[i])
  }

  ghost predicate Kept(l: Ledger) {
    && l.poses == History(l.log)
    && l.frameNumber == DeliveredCount(l.log)
    && (l.deliveredAny <==> DeliveredCount(l.log) > 0)
    && (!l.deliveredAny ==> l.poses == map[])
    && (l.newConnection ==> l.senderNumber.None?)
    && (l.peer.None? ==> l.log == [])
    && (!l.newConnection && l.peer.Some? ==> l.senderNumber.Some?)
    && (l.senderNumber.Some? ==>
          && l.senderNumber.value == LastNumber(l.log) < UINT64
          && SpanOf(l.log).decoded + SpanOf(l.log).skipped == LastNumber(l.log) - SpanOf(l.log).first + 1)
    && AllJustified(l.log)
  }

  lemma LogGrows(log: seq<Happening>, h: Happening)
    requires AllJustified(log) && Justified(log, h)
    ensures AllJustified(log + [h]) && (log + [h])[..|log|] == log
  {
    assert (log + [h])[..|log|] == log;
    forall i | 0 <= i < |log| + 1
      ensures Justified((log + [h])[..i], (log + [h])[i])
    {
      assert (log + [h])[..i] == log[..i];
      if i == |log| {
        assert log[..i] == log;
      }
    }
  }

  lemma BeginKeeps(l: Ledger, peer: string)
    requires Kept(l)
    ensures Kept(Begin(l, peer))
  {
    hide AllJustified, History, DeliveredCount, LastNumber, SpanOf;
    LogGrows(l.log, Began);
    DropChangesNothing(l.log, Began);
  }

  lemma GapIsBetween(last: nat, number: nat)
    requires last < number < UINT64
    ensures GapAfter(last, number) == number - last - 1
  {
  }

  lemma DecodedGrows(log: seq<Happening>, h: Happening)
    requires h.Decoded?
    ensures History(log + [h]) == if h.restarts then map[] else History(log)
    ensures DeliveredCount(log + [h]) == DeliveredCount(log) && LastNumber(log + [h]) == h.number
    ensures SpanOf(log + [h]) ==
      if h.starts then Span(h.number, 1, 0)
      else Span(SpanOf(log).first, SpanOf(log).decoded + 1, SpanOf(log).skipped + h.gap)
  {
    assert (log + [h])[..|log|] == log;
  }

  lemma NumberKeeps(l: Ledger, number: nat)
    requires Kept(l) && l.peer.Some? && number < UINT64
    ensures Kept(Numbered(l, number))
  {
    hide AllJustified, GapAfter, History, DeliveredCount, LastNumber, SpanOf;
    DecodedGrows(l.log, Numbered(l, number).log[|l.log|]);
    if !l.newConnection && l.senderNumber.Some? && l.senderNumber.value < number {
      GapIsBetween(l.senderNumber.value, number);
    }
    LogGrows(l.log, Numbered(l, number).log[|l.log|]);
  }

  predicate InRange(m: Message) {
    m.Frame? ==> m.number < UINT64
  }

  lemma DropKeeps(l: Ledger, why: Happening)
    requires Kept(l) && l.peer.Some? && (why.Unread? || why.ProfileDropped? || why.Regressed?)
    ensures Kept(l.(log := l.log + [why]))
  {
    hide AllJustified, History, DeliveredCount, LastNumber, SpanOf;
    LogGrows(l.log, why);
    DropChangesNothing(l.log, why);
  }

  lemma DropChangesNothing(log: seq<Happening>, why: Happening)
    requires !why.Delivered? && !why.Decoded?
    ensures History(log + [why]) == History(log) && DeliveredCount(log + [why]) == DeliveredCount(log)
    ensures LastNumber(log + [why]) == LastNumber(log) && SpanOf(log + [why]) == SpanOf(log)
  {
    assert (log + [why])[..|log|] == log;
  }

  lemma DeliveryKeeps(l: Ledger, actors: seq<Actor>)
    requires Kept(l) && l.peer.Some? && Advances(l.poses, actors)
    ensures Kept(l.(poses := PosesOf(l.poses, actors), frameNumber := l.frameNumber + 1, deliveredAny := true,
                    log := l.log + [Delivered(l.frameNumber + 1, actors)]))
  {
    hide AllJustified, PosesOf, Advances;
    LogGrows(l.log, Delivered(l.frameNumber + 1, actors));
  }

  lemma StepKeeps(profile: string, l: Ledger, m: Message)
    requires Kept(l) && l.peer.Some? && InRange(m)
    ensures Kept(Step(profile, l, m))
  {
    hide Kept, Numbered, Advances, PosesOf;
    match m {
      case Undecodable => DropKeeps(l, Unread);
      case Frame(number, claimed, actors) =>
        NumberKeeps(l, number);
        var l' := Numbered(l, number);
        NumberedKeepsPeer(l, number);
        DropKeeps(l', ProfileDropped);
        DropKeeps(l', Regressed);
        if Advances(l'.poses, actors) {
          DeliveryKeeps(l', actors);
        }
    }
  }

  lemma NumberedKeepsPeer(l: Ledger, number: nat)
    ensures Numbered(l, number).peer == l.peer && !Numbered(l, number).newConnection
    ensures Numbered(l, number).senderNumber.Some?
  {
  }

  /**
   Over every run: what is delivered advances on everything its actors delivered since the last restart
   and is numbered one more than the delivery before it; a frame that follows the last counts exactly
   the numbers between; and the frames decoded and skipped in a run of numbers make up its span.
   */
  lemma {:induction false} RunKeeps(profile: string, events: seq<Event>)
    requires forall e :: e in events ==> InRange(e.message)
    ensures Kept(Run(profile, events))
  {
    hide Step;
    if events != [] {
      hide Kept;
      var front, e := Run(profile, events[..|events| - 1]), events[|events| - 1];
      RunKeeps(profile, events[..|events| - 1]);
      BeginKeeps(front, e.peer);
      StepKeeps(profile, if front.peer != Some(e.peer) then Begin(front, e.peer) else front, e.message);
    }
  }

  // ---- The promises over whole runs ----

  /** Decoded frames and skipped numbers make up the sender's run of numbers, first to last. */
  lemma NumbersAreAccounted(profile: string, events: seq<Event>)
    requires forall e :: e in events ==> InRange(e.message)
    requires Run(profile, events).senderNumber.Some?
    ensures var span := SpanOf(Run(profile, events).log);
            span.decoded + span.skipped == Run(profile, events).senderNumber.value - span.first + 1
  {
    hide Run, AllJustified;
    RunKeeps(profile, events);
  }

  /** Whether no restart was reported strictly between two moments. */
  predicate Unbroken(log: seq<Happening>, i: nat, k: nat)
    requires i <= k <= |log|
  {
    forall j :: i <= j < k ==> !(log[j].Decoded? && log[j].restarts)
  }

  lemma {:induction false} PosesKeep(poses: map<string, real>, actors: seq<Actor>, i: nat)
    requires i < |actors| && actors[i].pose.Some? && UniqueActors(actors)
    ensures actors[i].name in PosesOf(poses, actors) && PosesOf(poses, actors)[actors[i].name] == actors[i].pose.value
  {
    if i < |actors| - 1 {
      PosesKeep(poses, actors[..|actors| - 1], i);
    }
  }

  lemma {:induction false} PosesRise(poses: map<string, real>, actors: seq<Actor>, name: string)
    requires Advances(poses, actors) && name in poses
    ensures name in PosesOf(poses, actors) && PosesOf(poses, actors)[name] >= poses[name]
  {
    if actors != [] {
      PosesRise(poses, actors[..|actors| - 1], name);
    }
  }

  lemma DeliveredAdvances(log: seq<Happening>, k: nat)
    requires k < |log| && AllJustified(log) && log[k].Delivered?
    ensures Advances(History(log[..k]), log[k].actors)
  {
    hide Advances, History;
    assert Justified(log[..k], log[k]);
  }

  /** Between restarts the history only rises. */
  lemma {:induction false} HistoryRises(log: seq<Happening>, i: nat, k: nat, name: string)
    requires i <= k <= |log| && AllJustified(log) && Unbroken(log, i, k) && name in History(log[..i])
    ensures name in History(log[..k]) && History(log[..k])[name] >= History(log[..i])[name]
  {
    if i < k {
      hide AllJustified, Advances, PosesOf;
      HistoryRises(log, i, k - 1, name);
      assert log[..k][..k - 1] == log[..k - 1];
      if log[k - 1].Delivered? {
        DeliveredAdvances(log, k - 1);
        PosesRise(History(log[..k - 1]), log[k - 1].actors, name);
      }
    }
  }

  /** Between two restarts, each actor's delivered pose timestamps strictly increase. */
  lemma ActorsAdvance(profile: string, events: seq<Event>, i: nat, k: nat, a: nat, b: nat)
    requires forall e :: e in events ==> InRange(e.message)
    requires var log := Run(profile, events).log;
             && i < k < |log| && log[i].Delivered? && log[k].Delivered? && Unbroken(log, i, k)
             && a < |log[i].actors| && b < |log[k].actors| && UniqueActors(log[i].actors)
             && log[i].actors[a].name == log[k].actors[b].name
             && log[i].actors[a].pose.Some? && log[k].actors[b].pose.Some?
    ensures var log := Run(profile, events).log;
            log[i].actors[a].pose.value < log[k].actors[b].pose.value
  {
    hide Run;
    RunKeeps(profile, events);
    var log := Run(profile, events).log;
    hide AllJustified;
    DeliveryIsRecorded(log, i, a);
    HistoryRises(log, i + 1, k, log[i].actors[a].name);
    DeliveryAdvances(log, k, b);
  }

  lemma DeliveryIsRecorded(log: seq<Happening>, i: nat, a: nat)
    requires i < |log| && log[i].Delivered? && a < |log[i].actors| && log[i].actors[a].pose.Some?
    requires UniqueActors(log[i].actors)
    ensures log[i].actors[a].name in History(log[..i + 1])
    ensures History(log[..i + 1])[log[i].actors[a].name] == log[i].actors[a].pose.value
  {
    assert log[..i + 1][..i] == log[..i];
    PosesKeep(History(log[..i]), log[i].actors, a);
  }

  lemma DeliveryAdvances(log: seq<Happening>, k: nat, b: nat)
    requires k < |log| && AllJustified(log) && log[k].Delivered? && b < |log[k].actors| && log[k].actors[b].pose.Some?
    ensures log[k].actors[b].name in History(log[..k]) ==>
              log[k].actors[b].pose.value > History(log[..k])[log[k].actors[b].name]
  {
    assert Justified(log[..k], log[k]);
  }

  /** Two connectors that will go on alike, whatever they have seen. */
  predicate Alike(l: Ledger, l': Ledger) {
    l.(log := []) == l'.(log := [])
  }

  /** The last frame was decoded and then dropped. */
  predicate Dropped(l: Ledger) {
    l.log != [] && (l.log[|l.log| - 1].ProfileDropped? || l.log[|l.log| - 1].Regressed?)
  }

  /** What a step adds to the log, and the state it leaves, do not depend on the log so far. */
  lemma StepIgnoresTheLog(profile: string, l: Ledger, m: Message)
    ensures var bare := Step(profile, l.(log := []), m); Step(profile, l, m) == bare.(log := l.log + bare.log)
  {
    hide Advances, PosesOf, GapAfter;
    if m.Frame? {
      NumberingIgnoresTheLog(l, m.number);
    }
  }

  lemma NumberingIgnoresTheLog(l: Ledger, number: nat)
    ensures var bare := Numbered(l.(log := []), number); Numbered(l, number) == bare.(log := l.log + bare.log)
  {
  }

  lemma AlikePushed(profile: string, l: Ledger, l': Ledger, e: Event)
    requires Alike(l, l')
    ensures Alike(Pushed(profile, l, e), Pushed(profile, l', e))
    ensures exists more :: Pushed(profile, l, e).log == l.log + more && Pushed(profile, l', e).log == l'.log + more
  {
    hide Step;
    var m, m' := if l.peer != Some(e.peer) then Begin(l, e.peer) else l, if l'.peer != Some(e.peer) then Begin(l', e.peer) else l';
    StepIgnoresTheLog(profile, m, e.message);
    StepIgnoresTheLog(profile, m', e.message);
    var added := Step(profile, m.(log := []), e.message).log;
    var more := (if l.peer != Some(e.peer) then [Began] else []) + added;
    assert Pushed(profile, l, e).log == l.log + more && Pushed(profile, l', e).log == l'.log + more;
  }

  lemma DroppedAlike(profile: string, l: Ledger, e: Event, e': Event)
    requires e.peer == e'.peer && e.message.Frame? && e'.message.Frame? && e.message.number == e'.message.number
    requires Dropped(Pushed(profile, l, e)) && Dropped(Pushed(profile, l, e'))
    ensures Alike(Pushed(profile, l, e), Pushed(profile, l, e'))
    ensures |Pushed(profile, l, e).log| == |Pushed(profile, l, e').log|
  {
    hide Advances, PosesOf, GapAfter;
  }

  /**
   A dropped frame leaves nothing behind but its number: whatever else it said, the connector does the
   same ever after, delivery by delivery.
   */
  lemma {:induction false} DropsLeaveNoTrace(profile: string, before: seq<Event>, e: Event, e': Event, after: seq<Event>)
    requires e.peer == e'.peer && e.message.Frame? && e'.message.Frame? && e.message.number == e'.message.number
    requires Dropped(Pushed(profile, Run(profile, before), e)) && Dropped(Pushed(profile, Run(profile, before), e'))
    ensures var l, l' := Run(profile, before + [e] + after), Run(profile, before + [e'] + after);
            var n := |Run(profile, before + [e]).log|;
            Alike(l, l') && n <= |l.log| == |l'.log| && l.log[n..] == l'.log[n..]
    decreases |after|
  {
    hide Pushed, Dropped, Alike;
    assert (before + [e])[..|before|] == before && (before + [e'])[..|before|] == before;
    DroppedAlike(profile, Run(profile, before), e, e');
    if after == [] {
      assert before + [e] + after == before + [e] && before + [e'] + after == before + [e'];
    } else {
      var front, last := after[..|after| - 1], after[|after| - 1];
      DropsLeaveNoTrace(profile, before, e, e', front);
      assert (before + [e] + after)[..|before + [e] + after| - 1] == before + [e] + front;
      assert (before + [e'] + after)[..|before + [e'] + after| - 1] == before + [e'] + front;
      AlikePushed(profile, Run(profile, before + [e] + front), Run(profile, before + [e'] + front), last);
    }
  }

  // ---- The connector as the program keeps it ----

  class WebSocketConnector {
    const sourceProfile: string
    var peer: Option<string>
    var newConnection: bool
    var haveSenderNumber: bool
    var senderNumber: nat
    var poseTimestamps: map<string, real>
    var frameNumber: nat
    var deliveredAny: bool
    ghost var ledger: Ledger

    ghost predicate Valid()
      reads this
    {
      && peer == ledger.peer && newConnection == ledger.newConnection
      && ledger.senderNumber == (if haveSenderNumber then Some(senderNumber) else None)
      && poseTimestamps == ledger.poses && frameNumber == ledger.frameNumber && deliveredAny == ledger.deliveredAny
    }

    constructor (sourceProfile: string)
      ensures Valid() && ledger == START && this.sourceProfile == sourceProfile
    {
      this.sourceProfile := sourceProfile;
      peer, newConnection, haveSenderNumber, senderNumber := None, false, false, 0;
      poseTimestamps, frameNumber, deliveredAny, ledger := map[], 0, false, START;
    }

    method BeginConnection(sender: string)
      requires Valid()
      modifies this
      ensures Valid() && ledger == Begin(old(ledger), sender)
    {
      peer, newConnection, haveSenderNumber := Some(sender), true, false;
      ledger := Begin(ledger, sender);
    }

    /** The sender's numbering: a restart, or a gap. */
    method TakeNumber(number: nat)
      requires Valid()
      modifies this
      ensures Valid() && ledger == Numbered(old(ledger), number)
    {
      ghost var account := Numbered(ledger, number);
      if newConnection {
        newConnection := false;
        if deliveredAny {
          poseTimestamps := map[];
        }
      } else if haveSenderNumber {
        if number <= senderNumber {
          poseTimestamps := map[];
        }
      }
      senderNumber, haveSenderNumber := number, true;
      ledger := account;
    }

    /** Whether some actor's pose does not advance on its own last one. */
    method Regresses(actors: seq<Actor>) returns (regressed: bool)
      ensures regressed <==> !Advances(poseTimestamps, actors)
    {
      regressed := false;
      for i := 0 to |actors|
        invariant regressed <==> !Advances(poseTimestamps, actors[..i])
      {
        var actor := actors[i];
        if actor.pose.Some? && actor.name in poseTimestamps && !(actor.pose.value > poseTimestamps[actor.name]) {
          regressed := true;
          assert actors[..i + 1][i] == actor;
        }
        assert actors[..i] == actors[..i + 1][..i];
      }
      assert actors[..|actors|] == actors;
    }

    method Remember(actors: seq<Actor>)
      modifies this`poseTimestamps
      ensures poseTimestamps == PosesOf(old(poseTimestamps), actors)
    {
      for i := 0 to |actors|
        invariant poseTimestamps == PosesOf(old(poseTimestamps), actors[..i])
      {
        assert actors[..i + 1][..i] == actors[..i];
        if actors[i].pose.Some? {
          poseTimestamps := poseTimestamps[actors[i].name := actors[i].pose.value];
        }
      }
      assert actors[..|actors|] == actors;
    }

    /** One message: unreadable, from another profile, regressing, or delivered. */
    method AcceptMessage(m: Message) returns (delivered: bool)
      requires Valid()
      modifies this
      ensures Valid() && ledger == Step(sourceProfile, old(ledger), m)
      ensures delivered <==> ledger.frameNumber == old(ledger).frameNumber + 1
    {
      hide Numbered, Advances, PosesOf;
      ghost var account := Step(sourceProfile, ledger, m);
      delivered := false;
      if m.Undecodable? {
        ledger := account;
        return;
      }
      NumberingDeliversNothing(ledger, m.number);
      TakeNumber(m.number);
      if sourceProfile != "" && m.profile != sourceProfile {
        ledger := account;
        return;
      }
      var regressed := Regresses(m.actors);
      if regressed {
        ledger := account;
        return;
      }
      Remember(m.actors);
      frameNumber := frameNumber + 1;
      deliveredAny := true;
      delivered := true;
      ledger := account;
    }

    method PushMessage(m: Message, sender: string) returns (delivered: bool)
      requires Valid()
      modifies this
      ensures Valid() && ledger == Pushed(sourceProfile, old(ledger), Event(m, sender))
      ensures delivered <==> ledger.frameNumber == old(ledger).frameNumber + 1
    {
      if peer != Some(sender) {
        BeginConnection(sender);
      }
      delivered := AcceptMessage(m);
    }
  }

  lemma NumberingDeliversNothing(l: Ledger, number: nat)
    ensures Numbered(l, number).frameNumber == l.frameNumber && Numbered(l, number).deliveredAny == l.deliveredAny
  {
  }
}
