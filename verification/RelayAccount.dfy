/**
 The relay's connector from its events alone: which frame is delivered and which is dropped, where a
 restart and a gap are reported, and everything that happens in between, told without its state.
 */
module RelayAccount {
  import opened Bytes
  import opened RelayFrames

  // ---- What befalls a message ----

  /** The number of the last frame this peer sent with no other peer between. */
  function LastFrom(past: seq<Event>, peer: string): Option<nat> {
    if past == [] then None
    else
      var last := past[|past| - 1];
      if last.peer != peer then None
      else if last.message.Frame? then Some(last.message.number)
      else LastFrom(past[..|past| - 1], peer)
  }

  datatype Verdict = Unreadable | OtherProfile | NotAdvancing | Delivers

  datatype Fate = Fate(verdict: Verdict, restarts: bool)

  ghost predicate AnyDelivered(fates: seq<Fate>) {
    exists i :: 0 <= i < |fates| && fates[i].verdict == Delivers
  }

  /** The event `i` was delivered, and no restart has been reported since. */
  predicate StillCounts(past: seq<Event>, fates: seq<Fate>, i: int): (counts: bool)
    ensures counts ==> 0 <= i < |past| && past[i].message.Frame?
  {
    && 0 <= i < |past| && i < |fates| && fates[i].verdict == Delivers && past[i].message.Frame?
    && forall n :: i < n < |fates| ==> !fates[n].restarts
  }

  /** A delivery that still counts carried this actor no earlier than this time. */
  ghost predicate WasHeard(past: seq<Event>, fates: seq<Fate>, name: string, time: real) {
    exists i, a :: StillCounts(past, fates, i) && HasPose(past[i].message, a, name) && past[i].message.actors[a].pose.value >= time
  }

  predicate HasPose(m: Message, a: int, name: string) {
    m.Frame? && 0 <= a < |m.actors| && m.actors[a].name == name && m.actors[a].pose.Some?
  }

  /** Some pose of the frame is not past one of its actor that still counts. */
  ghost predicate Lags(past: seq<Event>, fates: seq<Fate>, m: Message, restarts: bool) {
    && m.Frame? && !restarts
    && exists a :: 0 <= a < |m.actors| && m.actors[a].pose.Some? && WasHeard(past, fates, m.actors[a].name, m.actors[a].pose.value)
  }

  /** The number does not rise on the peer's last, or the peer is a new one after something was delivered. */
  ghost predicate IsRestart(past: seq<Event>, fates: seq<Fate>, e: Event) {
    && e.message.Frame?
    && match LastFrom(past, e.peer)
       case None => AnyDelivered(fates)
       case Some(number) => e.message.number <= number
  }

  ghost predicate Befalls(profile: string, past: seq<Event>, fates: seq<Fate>, e: Event, f: Fate) {
    && f.restarts == IsRestart(past, fates, e)
    && f.verdict == (if e.message.Undecodable? then Unreadable
                     else if profile != "" && e.message.profile != profile then OtherProfile
                     else if Lags(past, fates, e.message, f.restarts) then NotAdvancing
                     else Delivers)
  }

  ghost predicate AreFates(profile: string, events: seq<Event>, fates: seq<Fate>) {
    && |events| == |fates|
    && forall k :: 0 <= k < |events| ==> Befalls(profile, events[..k], fates[..k], events[k], fates[k])
  }

  // ---- What happens of it ----

  function Deliveries(fates: seq<Fate>): nat {
    if fates == [] then 0
    else Deliveries(fates[..|fates| - 1]) + if fates[|fates| - 1].verdict == Delivers then 1 else 0
  }

  /** A message of a new peer begins a connection first; a frame is numbered, and then dropped or delivered. */
  function Happens(past: seq<Event>, fates: seq<Fate>, e: Event, f: Fate): seq<Happening> {
    (if past == [] || past[|past| - 1].peer != e.peer then [Began] else []) +
    match e.message
    case Undecodable => [Unread]
    case Frame(number, _, actors) =>
      [match LastFrom(past, e.peer)
       case None => Decoded(number, true, f.restarts, 0)
       case Some(last) => if number <= last then Decoded(number, true, true, 0) else Decoded(number, false, false, number - last - 1)]
      + (match f.verdict
         case OtherProfile => [ProfileDropped]
         case NotAdvancing => [Regressed]
         case _ => [Delivered(Deliveries(fates) + 1, actors)])
  }

  function Log(events: seq<Event>, fates: seq<Fate>): seq<Happening>
    requires |events| == |fates|
  {
    if events == [] then []
    else
      var last := |events| - 1;
      Log(events[..last], fates[..last]) + Happens(events[..last], fates[..last], events[last], fates[last])
  }

  // ---- The ledger told by the fates ----

  /** The history has an actor's latest pose among those that still count. */
  ghost predicate PosesFit(events: seq<Event>, fates: seq<Fate>, poses: map<string, real>) {
    && (forall i, a :: StillCounts(events, fates, i) && 0 <= a < |events[i].message.actors| && events[i].message.actors[a].pose.Some? ==>
          var actor := events[i].message.actors[a]; actor.name in poses && actor.pose.value <= poses[actor.name])
    && forall name :: name in poses ==> WasHeard(events, fates, name, poses[name])
  }

  ghost predicate Tells(profile: string, events: seq<Event>, fates: seq<Fate>, l: Ledger) {
    && |events| == |fates| && AreFates(profile, events, fates)
    && l.log == Log(events, fates)
    && l.frameNumber == Deliveries(fates)
    && (l.deliveredAny <==> AnyDelivered(fates))
    && l.peer == (if events == [] then None else Some(events[|events| - 1].peer))
    && (events != [] ==> l.senderNumber == LastFrom(events, events[|events| - 1].peer) && l.newConnection == l.senderNumber.None?)
    && PosesFit(events, fates, l.poses)
  }

  predicate IsEvent(e: Event) {
    e.message.Frame? ==> e.message.number < 0x1_0000_0000_0000_0000 && UniqueActors(e.message.actors)
  }

  // ---- One step ----

  lemma FatesGoOn(profile: string, events: seq<Event>, fates: seq<Fate>, e: Event, f: Fate)
    requires AreFates(profile, events, fates) && Befalls(profile, events, fates, e, f)
    ensures AreFates(profile, events + [e], fates + [f])
  {
    hide Befalls;
    var more, theirs := events + [e], fates + [f];
    forall k | 0 <= k < |more|
      ensures Befalls(profile, more[..k], theirs[..k], more[k], theirs[k])
    {
      assert k < |events| ==> more[..k] == events[..k] && theirs[..k] == fates[..k];
      assert k == |events| ==> more[..k] == events && theirs[..k] == fates;
    }
  }

  lemma AccountGoesOn(events: seq<Event>, fates: seq<Fate>, e: Event, f: Fate)
    requires |events| == |fates|
    ensures Log(events + [e], fates + [f]) == Log(events, fates) + Happens(events, fates, e, f)
    ensures Deliveries(fates + [f]) == Deliveries(fates) + if f.verdict == Delivers then 1 else 0
    ensures AnyDelivered(fates + [f]) <==> AnyDelivered(fates) || f.verdict == Delivers
    ensures LastFrom(events + [e], e.peer) == if e.message.Frame? then Some(e.message.number) else LastFrom(events, e.peer)
  {
    hide Happens;
    assert (events + [e])[..|events|] == events && (fates + [f])[..|fates|] == fates;
    if i :| 0 <= i < |fates| && fates[i].verdict == Delivers {
      assert (fates + [f])[i].verdict == Delivers;
    }
    if f.verdict == Delivers {
      assert (fates + [f])[|fates|].verdict == Delivers;
    }
  }

  /** What still counts after one more event. */
  lemma CountsGoOn(events: seq<Event>, fates: seq<Fate>, e: Event, f: Fate, i: int)
    requires |events| == |fates|
    ensures i < |events| ==> (StillCounts(events + [e], fates + [f], i) <==> StillCounts(events, fates, i) && !f.restarts)
    ensures StillCounts(events + [e], fates + [f], |events|) <==> f.verdict == Delivers && e.message.Frame?
  {
    var more, theirs := events + [e], fates + [f];
    if 0 <= i < |events| {
      assert theirs[|fates|] == f;
      assert forall n :: 0 <= n < |fates| ==> theirs[n] == fates[n];
    }
  }

  lemma HeardStays(events: seq<Event>, fates: seq<Fate>, e: Event, f: Fate, name: string, time: real)
    requires |events| == |fates| && !f.restarts && WasHeard(events, fates, name, time)
    ensures WasHeard(events + [e], fates + [f], name, time)
  {
    hide StillCounts;
    var i, a :| StillCounts(events, fates, i) && HasPose(events[i].message, a, name) && events[i].message.actors[a].pose.value >= time;
    CountsGoOn(events, fates, e, f, i);
    assert (events + [e])[i] == events[i];
  }

  /** A frame that is not delivered leaves the history, or a restart empties it. */
  lemma DropFits(events: seq<Event>, fates: seq<Fate>, e: Event, f: Fate, poses: map<string, real>)
    requires |events| == |fates| && PosesFit(events, fates, poses) && f.verdict != Delivers
    ensures PosesFit(events + [e], fates + [f], if f.restarts then map[] else poses)
  {
    hide StillCounts, WasHeard;
    var more, theirs := events + [e], fates + [f];
    var kept := if f.restarts then map[] else poses;
    forall i, a | StillCounts(more, theirs, i) && 0 <= a < |more[i].message.actors| && more[i].message.actors[a].pose.Some?
      ensures var actor := more[i].message.actors[a]; actor.name in kept && actor.pose.value <= kept[actor.name]
    {
      CountsGoOn(events, fates, e, f, i);
      assert i < |events| && more[i] == events[i];
    }
    forall name | name in kept
      ensures WasHeard(more, theirs, name, kept[name])
    {
      HeardStays(events, fates, e, f, name, kept[name]);
    }
  }

  lemma {:induction false} PosesOfSays(poses: map<string, real>, actors: seq<Actor>)
    requires UniqueActors(actors)
    ensures forall a :: 0 <= a < |actors| && actors[a].pose.Some? ==>
              actors[a].name in PosesOf(poses, actors) && PosesOf(poses, actors)[actors[a].name] == actors[a].pose.value
    ensures forall name :: name in PosesOf(poses, actors) ==>
              (exists a :: 0 <= a < |actors| && actors[a].name == name && actors[a].pose.Some?)
              || (name in poses && PosesOf(poses, actors)[name] == poses[name])
    ensures forall name :: name in poses ==> name in PosesOf(poses, actors)
  {
    if actors != [] {
      var front, last := actors[..|actors| - 1], actors[|actors| - 1];
      PosesOfSays(poses, front);
      assert forall a :: 0 <= a < |front| ==> front[a] == actors[a];
    }
  }

  /** A delivered frame's poses are the latest of their actors. */
  lemma DeliveryFits(events: seq<Event>, fates: seq<Fate>, e: Event, f: Fate, poses: map<string, real>)
    requires |events| == |fates| && PosesFit(events, fates, poses) && f.verdict == Delivers && e.message.Frame? && IsEvent(e)
    requires var kept := if f.restarts then map[] else poses; Advances(kept, e.message.actors)
    ensures PosesFit(events + [e], fates + [f], PosesOf(if f.restarts then map[] else poses, e.message.actors))
  {
    hide StillCounts, WasHeard, PosesOf;
    var more, theirs, actors := events + [e], fates + [f], e.message.actors;
    var kept := if f.restarts then map[] else poses;
    var now := PosesOf(kept, actors);
    PosesOfSays(kept, actors);
    forall i, a | StillCounts(more, theirs, i) && 0 <= a < |more[i].message.actors| && more[i].message.actors[a].pose.Some?
      ensures var actor := more[i].message.actors[a]; actor.name in now && actor.pose.value <= now[actor.name]
    {
      CountsGoOn(events, fates, e, f, i);
      if i < |events| {
        assert more[i] == events[i];
        var actor := events[i].message.actors[a];
        assert actor.name in kept && actor.pose.value <= kept[actor.name];
        RisesOrStays(kept, actors, actor.name);
      }
    }
    forall name | name in now
      ensures WasHeard(more, theirs, name, now[name])
    {
      if a :| 0 <= a < |actors| && actors[a].name == name && actors[a].pose.Some? {
        JustHeard(events, fates, e, f, a);
      } else {
        HeardStays(events, fates, e, f, name, kept[name]);
      }
    }
  }

  lemma RisesOrStays(poses: map<string, real>, actors: seq<Actor>, name: string)
    requires UniqueActors(actors) && Advances(poses, actors) && name in poses
    ensures name in PosesOf(poses, actors) && poses[name] <= PosesOf(poses, actors)[name]
  {
    hide PosesOf;
    PosesOfSays(poses, actors);
  }

  lemma JustHeard(events: seq<Event>, fates: seq<Fate>, e: Event, f: Fate, a: nat)
    requires |events| == |fates| && f.verdict == Delivers && e.message.Frame?
    requires a < |e.message.actors| && e.message.actors[a].pose.Some?
    ensures WasHeard(events + [e], fates + [f], e.message.actors[a].name, e.message.actors[a].pose.value)
  {
    hide StillCounts;
    CountsGoOn(events, fates, e, f, 0);
    assert HasPose((events + [e])[|events|].message, a, e.message.actors[a].name);
  }

  /** Whether a frame advances, by the history and by what still counts. */
  lemma LagsIff(events: seq<Event>, fates: seq<Fate>, m: Message, restarts: bool, poses: map<string, real>)
    requires PosesFit(events, fates, poses) && m.Frame?
    ensures Advances(if restarts then map[] else poses, m.actors) <==> !Lags(events, fates, m, restarts)
  {
    hide StillCounts;
    if !restarts {
      forall a | 0 <= a < |m.actors| && m.actors[a].pose.Some?
        ensures (m.actors[a].name in poses && m.actors[a].pose.value <= poses[m.actors[a].name])
            <==> WasHeard(events, fates, m.actors[a].name, m.actors[a].pose.value)
      {
        HeardIff(events, fates, poses, m.actors[a].name, m.actors[a].pose.value);
      }
    }
  }

  lemma HeardIff(events: seq<Event>, fates: seq<Fate>, poses: map<string, real>, name: string, time: real)
    requires PosesFit(events, fates, poses)
    ensures (name in poses && time <= poses[name]) <==> WasHeard(events, fates, name, time)
  {
    hide StillCounts;
  }

  /** What befalls a message, as the ledger decides it. */
  function FateOf(profile: string, l: Ledger, e: Event): Fate {
    var l' := if l.peer != Some(e.peer) then Begin(l, e.peer) else l;
    if e.message.Undecodable? then Fate(Unreadable, false)
    else
      var restarts := if l'.newConnection then l'.deliveredAny
                      else l'.senderNumber.Some? && e.message.number <= l'.senderNumber.value;
      Fate(if profile != "" && e.message.profile != profile then OtherProfile
           else if !Advances(if restarts then map[] else l.poses, e.message.actors) then NotAdvancing else Delivers, restarts)
  }

  lemma NumberIs(profile: string, events: seq<Event>, fates: seq<Fate>, l: Ledger, e: Event)
    requires Tells(profile, events, fates, l)
    ensures var l' := if l.peer != Some(e.peer) then Begin(l, e.peer) else l;
            l'.senderNumber == LastFrom(events, e.peer) && l'.newConnection == l'.senderNumber.None?
  {
    hide AreFates, PosesFit, Log;
  }

  lemma FateBefalls(profile: string, events: seq<Event>, fates: seq<Fate>, l: Ledger, e: Event)
    requires Tells(profile, events, fates, l)
    ensures Befalls(profile, events, fates, e, FateOf(profile, l, e))
  {
    hide AreFates, PosesFit, Log, Lags, Advances, LastFrom, AnyDelivered;
    NumberIs(profile, events, fates, l, e);
    if e.message.Frame? {
      LagsIff(events, fates, e.message, FateOf(profile, l, e).restarts, l.poses);
    }
  }

  /** The ledger after one message, in the terms of its fate. */
  ghost predicate Moves(past: seq<Event>, fates: seq<Fate>, l: Ledger, l': Ledger, e: Event, f: Fate) {
    && l'.log == l.log + Happens(past, fates, e, f)
    && l'.frameNumber == l.frameNumber + (if f.verdict == Delivers then 1 else 0)
    && l'.deliveredAny == (l.deliveredAny || f.verdict == Delivers)
    && l'.peer == Some(e.peer)
    && l'.senderNumber == (if e.message.Frame? then Some(e.message.number) else LastFrom(past, e.peer))
    && l'.newConnection == l'.senderNumber.None?
    && var kept := if f.restarts then map[] else l.poses;
       if f.verdict == Delivers then e.message.Frame? && Advances(kept, e.message.actors) && l'.poses == PosesOf(kept, e.message.actors)
       else l'.poses == kept
  }

  /** The connection a message belongs to, begun where its peer is new. */
  ghost predicate Connected(past: seq<Event>, fates: seq<Fate>, l: Ledger, l0: Ledger, e: Event) {
    && l0.log == l.log + (if past == [] || past[|past| - 1].peer != e.peer then [Began] else [])
    && l0.frameNumber == l.frameNumber == Deliveries(fates) && l0.deliveredAny == l.deliveredAny && l0.poses == l.poses
    && l0.peer == Some(e.peer)
    && l0.senderNumber == LastFrom(past, e.peer) && l0.newConnection == l0.senderNumber.None?
  }

  lemma ConnectionIs(profile: string, events: seq<Event>, fates: seq<Fate>, l: Ledger, e: Event)
    requires Tells(profile, events, fates, l)
    ensures Connected(events, fates, l, if l.peer != Some(e.peer) then Begin(l, e.peer) else l, e)
  {
    hide AreFates, PosesFit, Log, LastFrom, AnyDelivered, Deliveries;
    NumberIs(profile, events, fates, l, e);
  }

  lemma UnreadMoves(profile: string, past: seq<Event>, fates: seq<Fate>, l: Ledger, l0: Ledger, e: Event)
    requires Connected(past, fates, l, l0, e) && e.message.Undecodable?
    ensures Moves(past, fates, l, Step(profile, l0, e.message), e, Fate(Unreadable, false))
  {
    hide LastFrom, Deliveries, Advances, PosesOf;
  }

  lemma FrameMoves(profile: string, past: seq<Event>, fates: seq<Fate>, l: Ledger, l0: Ledger, e: Event, f: Fate)
    requires Connected(past, fates, l, l0, e) && e.message.Frame? && e.message.number < UINT64
    requires LastFrom(past, e.peer).Some? ==> LastFrom(past, e.peer).value < UINT64
    requires f.restarts == if l0.newConnection then l0.deliveredAny else e.message.number <= l0.senderNumber.value
    requires f.verdict == if profile != "" && e.message.profile != profile then OtherProfile
                          else if !Advances(if f.restarts then map[] else l.poses, e.message.actors) then NotAdvancing else Delivers
    ensures Moves(past, fates, l, Step(profile, l0, e.message), e, f)
  {
    hide LastFrom, Deliveries, Advances, PosesOf, GapAfter;
    if LastFrom(past, e.peer).Some? && LastFrom(past, e.peer).value < e.message.number {
      GapIsBetween(LastFrom(past, e.peer).value, e.message.number);
    }
  }

  lemma StepMoves(profile: string, events: seq<Event>, fates: seq<Fate>, l: Ledger, e: Event)
    requires Tells(profile, events, fates, l) && IsEvent(e)
    requires LastFrom(events, e.peer).Some? ==> LastFrom(events, e.peer).value < UINT64
    ensures Moves(events, fates, l, Pushed(profile, l, e), e, FateOf(profile, l, e))
  {
    hide Tells, Moves, LastFrom, Step, Advances;
    var l0 := if l.peer != Some(e.peer) then Begin(l, e.peer) else l;
    ConnectionIs(profile, events, fates, l, e);
    if e.message.Undecodable? {
      UnreadMoves(profile, events, fates, l, l0, e);
    } else {
      FrameMoves(profile, events, fates, l, l0, e, FateOf(profile, l, e));
    }
  }

  lemma {:induction false} LastFromIsBounded(events: seq<Event>, peer: string)
    requires forall e :: e in events ==> IsEvent(e)
    ensures LastFrom(events, peer).Some? ==> LastFrom(events, peer).value < UINT64
  {
    if events != [] {
      assert events[|events| - 1] in events;
      LastFromIsBounded(events[..|events| - 1], peer);
    }
  }

  lemma StepTells(profile: string, events: seq<Event>, fates: seq<Fate>, l: Ledger, e: Event)
    requires Tells(profile, events, fates, l) && IsEvent(e) && forall e :: e in events ==> IsEvent(e)
    ensures Tells(profile, events + [e], fates + [FateOf(profile, l, e)], Pushed(profile, l, e))
  {
    hide AreFates, PosesFit, Log, Happens, LastFrom, AnyDelivered, Deliveries, FateOf, Pushed, Befalls, IsEvent, Advances, PosesOf;
    var f := FateOf(profile, l, e);
    LastFromIsBounded(events, e.peer);
    FateBefalls(profile, events, fates, l, e);
    StepMoves(profile, events, fates, l, e);
    FatesGoOn(profile, events, fates, e, f);
    AccountGoesOn(events, fates, e, f);
    if f.verdict == Delivers {
      DeliveryFits(events, fates, e, f, l.poses);
    } else {
      DropFits(events, fates, e, f, l.poses);
    }
  }

  lemma StartTells(profile: string)
    ensures Tells(profile, [], [], START)
  {
  }

  /**
   Every run told from its events alone. Each message has its fate, the only one it can have: a frame is
   delivered exactly when it is of the profile asked for, where one is, and each of its poses is past
   every delivered one of its actor since the last restart; a restart is reported exactly when a frame's
   number does not rise on the last of its peer, or comes from a new peer after something was delivered.
   What happens, in order, is what these fates make of the messages.
   */
  lemma {:induction false} EventsTell(profile: string, events: seq<Event>) returns (fates: seq<Fate>)
    requires forall e :: e in events ==> IsEvent(e)
    ensures Tells(profile, events, fates, Run(profile, events))
  {
    hide Tells, Pushed, IsEvent;
    if events == [] {
      fates := [];
      StartTells(profile);
    } else {
      var front, e := events[..|events| - 1], events[|events| - 1];
      var before := EventsTell(profile, front);
      StepTells(profile, front, before, Run(profile, front), e);
      fates := before + [FateOf(profile, Run(profile, front), e)];
      assert front + [e] == events;
    }
  }

  lemma BefallsOnce(profile: string, past: seq<Event>, fates: seq<Fate>, e: Event, f: Fate, f': Fate)
    requires Befalls(profile, past, fates, e, f) && Befalls(profile, past, fates, e, f')
    ensures f == f'
  {
    hide IsRestart, Lags;
  }

  /** No events have two lists of fates. */
  lemma {:induction false} FatesAreUnique(profile: string, events: seq<Event>, one: seq<Fate>, other: seq<Fate>)
    requires AreFates(profile, events, one) && AreFates(profile, events, other)
    ensures one == other
  {
    hide Befalls;
    if events != [] {
      var last := |events| - 1;
      FatesOfPrefix(profile, events, one, last);
      FatesOfPrefix(profile, events, other, last);
      FatesAreUnique(profile, events[..last], one[..last], other[..last]);
      BefallsOnce(profile, events[..last], one[..last], events[last], one[last], other[last]);
      assert one == one[..last] + [one[last]] && other == other[..last] + [other[last]];
    }
  }

  lemma FatesOfPrefix(profile: string, events: seq<Event>, fates: seq<Fate>, n: nat)
    requires AreFates(profile, events, fates) && n <= |events|
    ensures AreFates(profile, events[..n], fates[..n])
  {
    hide Befalls;
    forall k | 0 <= k < n
      ensures Befalls(profile, events[..n][..k], fates[..n][..k], events[..n][k], fates[..n][k])
    {
      assert events[..n][..k] == events[..k] && fates[..n][..k] == fates[..k];
    }
  }
}
