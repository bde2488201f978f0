/**
 A stream of VRChat tracker datagrams cut into frames, as FrameAssembler.cpp of the VRChat OSC connector
 does it: a channel coming round again, a gap, a new peer or a flush ends a frame.
 */
module VrchatFrames {
  import opened Bytes

  type Vector = seq<real>

  datatype Channel = Position | Rotation | NoChannel

  /** A decoded message; `value` is None when the conversion to canonical space refuses it. */
  datatype Message = Message(tracker: string, channel: Channel, value: Option<Vector>)

  /** A bound of zero disables its rule. */
  datatype Config = Config(
    frameWindowSeconds: real,
    sourceTimeoutSeconds: real,
    stalenessSeconds: real,
    calibrationJumpMeters: real)

  // ---- What a frame holds ----

  /** One accepted channel value, with the datagram it came in. */
  datatype Entry = Entry(tracker: string, channel: Channel, value: Vector, packet: nat, at: real, peer: string)

  /** `restarts` is how many restarts had been seen when the frame opened. */
  datatype OpenFrame = OpenFrame(
    receiveTime: real,
    peer: string,
    beginsNewSession: bool,
    entries: seq<Entry>,
    duplicates: nat,
    restarts: nat)

  /** The datagram that filled a tracker's channel, if one did. */
  function Holder(entries: seq<Entry>, tracker: string, channel: Channel): Option<nat> {
    if entries == [] then None
    else
      var last := entries[|entries| - 1];
      if last.tracker == tracker && last.channel == channel then Some(last.packet)
      else Holder(entries[..|entries| - 1], tracker, channel)
  }

  predicate DistinctChannels(entries: seq<Entry>) {
    && (forall i :: 0 <= i < |entries| ==> !entries[i].channel.NoChannel?)
    && forall i, k :: 0 <= i < k < |entries| ==>
         entries[i].tracker != entries[k].tracker || entries[i].channel != entries[k].channel
  }

  datatype Sample = Sample(tracker: string, position: Option<Vector>, rotation: Option<Vector>, receiveTime: real)

  function IndexOf(samples: seq<Sample>, tracker: string): (i: nat)
    ensures i <= |samples| && (i < |samples| ==> samples[i].tracker == tracker)
    ensures forall k :: 0 <= k < i ==> samples[k].tracker != tracker
  {
    if samples == [] || samples[0].tracker == tracker then 0 else 1 + IndexOf(samples[1..], tracker)
  }

  function Filled(s: Sample, channel: Channel, value: Vector): Sample {
    if channel.Position? then s.(position := Some(value)) else s.(rotation := Some(value))
  }

  /** A value put into its tracker's sample, which is added when the frame has none yet. */
  function Placed(samples: seq<Sample>, e: Entry): seq<Sample> {
    var i := IndexOf(samples, e.tracker);
    if i < |samples| then samples[i := Filled(samples[i], e.channel, e.value)]
    else samples + [Filled(Sample(e.tracker, None, None, e.at), e.channel, e.value)]
  }

  /** The samples of a frame, in the order it first saw each tracker. */
  function SamplesOf(entries: seq<Entry>): seq<Sample> {
    if entries == [] then [] else Placed(SamplesOf(entries[..|entries| - 1]), entries[|entries| - 1])
  }

  // ---- The account of a run ----

  datatype Cause = Repeat | Gap | Restart | Flush

  datatype Closure = Closure(frame: OpenFrame, cause: Cause)

  datatype Stats = Stats(
    framesEmitted: nat,
    samplesEmitted: nat,
    positionsAccepted: nat,
    rotationsAccepted: nat,
    messagesDuplicated: nat,
    messagesRefused: nat,
    sourceTimeouts: nat,
    sessionRestarts: nat,
    closedByRepeat: nat,
    closedByGap: nat,
    closedByRestart: nat,
    closedByFlush: nat)

  const NO_STATS := Stats(0, 0, 0, 0, 0, 0, 0, 0, 0, 0, 0, 0)

  /** The assembler's state, with every frame it closed and every value it accepted so far. */
  datatype Ledger = Ledger(
    frame: Option<OpenFrame>,
    peer: string,
    lastArrival: Option<real>,
    pendingNewSession: bool,
    packet: nat,
    stats: Stats,
    closures: seq<Closure>,
    accepted: seq<Entry>)

  const START := Ledger(None, "", None, false, 0, NO_STATS, [], [])

  function ClosedBy(stats: Stats, cause: Cause, samples: nat): Stats {
    var counted := stats.(framesEmitted := stats.framesEmitted + 1, samplesEmitted := stats.samplesEmitted + samples);
    match cause
    case Repeat => counted.(closedByRepeat := stats.closedByRepeat + 1)
    case Gap => counted.(closedByGap := stats.closedByGap + 1)
    case Restart => counted.(closedByRestart := stats.closedByRestart + 1)
    case Flush => counted.(closedByFlush := stats.closedByFlush + 1)
  }

  function Close(l: Ledger, cause: Cause): Ledger {
    if l.frame.None? then l
    else
      l.(frame := None, closures := l.closures + [Closure(l.frame.value, cause)],
         stats := ClosedBy(l.stats, cause, |SamplesOf(l.frame.value.entries)|))
  }

  /** A value joins the open frame, which opens with it if none is. */
  function Join(l: Ledger, m: Message, receiveTime: real, peer: string): Ledger
    requires m.value.Some?
  {
    var entry := Entry(m.tracker, m.channel, m.value.value, l.packet, receiveTime, peer);
    var f := if l.frame.Some? then l.frame.value
             else OpenFrame(receiveTime, peer, l.pendingNewSession, [], 0, l.stats.sessionRestarts);
    l.(frame := Some(f.(entries := f.entries + [entry])),
       pendingNewSession := l.pendingNewSession && l.frame.Some?,
       accepted := l.accepted + [entry],
       stats := if m.channel.Position? then l.stats.(positionsAccepted := l.stats.positionsAccepted + 1)
                else l.stats.(rotationsAccepted := l.stats.rotationsAccepted + 1))
  }

  function Refuse(l: Ledger): Ledger {
    l.(stats := l.stats.(messagesRefused := l.stats.messagesRefused + 1))
  }

  function Duplicate(l: Ledger): Ledger
    requires l.frame.Some?
  {
    l.(frame := Some(l.frame.value.(duplicates := l.frame.value.duplicates + 1)),
       stats := l.stats.(messagesDuplicated := l.stats.messagesDuplicated + 1))
  }

  function Held(l: Ledger, m: Message): Option<nat> {
    if l.frame.Some? then Holder(l.frame.value.entries, m.tracker, m.channel) else None
  }

  function Take(l: Ledger, m: Message, receiveTime: real, peer: string): Ledger {
    if m.channel.NoChannel? then Refuse(l)
    else if Held(l, m) == Some(l.packet) then Duplicate(l)
    else
      var l' := if Held(l, m).Some? then Close(l, Repeat) else l;
      if m.value.None? then Refuse(l') else Join(l', m, receiveTime, peer)
  }

  function TakeAll(l: Ledger, messages: seq<Message>, receiveTime: real, peer: string): Ledger {
    if messages == [] then l
    else Take(TakeAll(l, messages[..|messages| - 1], receiveTime, peer), messages[|messages| - 1], receiveTime, peer)
  }

  /** A datagram is numbered and its arrival timed, and a silence before it is counted. */
  function Noticed(cfg: Config, l: Ledger, receiveTime: real): Ledger {
    var late := l.lastArrival.Some? && cfg.sourceTimeoutSeconds > 0.0
                && receiveTime - l.lastArrival.value > cfg.sourceTimeoutSeconds;
    l.(packet := l.packet + 1, lastArrival := Some(receiveTime),
       stats := if late then l.stats.(sourceTimeouts := l.stats.sourceTimeouts + 1) else l.stats)
  }

  function Restarted(l: Ledger): Ledger {
    var l' := Close(l, Restart);
    l'.(pendingNewSession := true, stats := l'.stats.(sessionRestarts := l'.stats.sessionRestarts + 1))
  }

  /** A named peer other than the last one named is a restart. */
  function Attributed(l: Ledger, peer: string): Ledger {
    var l' := if peer != "" && l.peer != "" && peer != l.peer then Restarted(l) else l;
    l'.(peer := if peer != "" then peer else l'.peer)
  }

  predicate Overdue(cfg: Config, l: Ledger, receiveTime: real) {
    l.frame.Some? && cfg.frameWindowSeconds > 0.0 && receiveTime - l.frame.value.receiveTime > cfg.frameWindowSeconds
  }

  /** What a datagram's arrival does before its messages are read. */
  function Arrive(cfg: Config, l: Ledger, receiveTime: real, peer: string): Ledger {
    var l' := Attributed(Noticed(cfg, l, receiveTime), peer);
    if Overdue(cfg, l', receiveTime) then Close(l', Gap) else l'
  }

  datatype Event = Pushed(messages: seq<Message>, receiveTime: real, peer: string) | Flushed

  function Step(cfg: Config, l: Ledger, e: Event): Ledger {
    match e
    case Pushed(messages, receiveTime, peer) => TakeAll(Arrive(cfg, l, receiveTime, peer), messages, receiveTime, peer)
    case Flushed => Close(l, Flush)
  }

  /** Everything that came of a run of pushes and flushes. */
  function Run(cfg: Config, events: seq<Event>): Ledger {
    if events == [] then START else Step(cfg, Run(cfg, events[..|events| - 1]), events[|events| - 1])
  }

  // ---- What every run keeps ----

  function Contents(closures: seq<Closure>): seq<Entry> {
    if closures == [] then [] else Contents(closures[..|closures| - 1]) + closures[|closures| - 1].frame.entries
  }

  lemma ContentsAppend(closures: seq<Closure>, c: Closure)
    ensures Contents(closures + [c]) == Contents(closures) + c.frame.entries
  {
    assert (closures + [c])[..|closures|] == closures;
  }

  function OpenEntries(l: Ledger): seq<Entry> {
    if l.frame.Some? then l.frame.value.entries else []
  }

  /** One frame: each tracker's channel once, one named peer, and all within the window of the first value. */
  ghost predicate Coheres(cfg: Config, f: OpenFrame) {
    && f.entries != [] && DistinctChannels(f.entries)
    && f.receiveTime == f.entries[0].at && f.peer == f.entries[0].peer
    && (forall i, k :: 0 <= i < k < |f.entries| ==> SamePeer(f.entries[i].peer, f.entries[k].peer))
    && (cfg.frameWindowSeconds > 0.0 ==>
          forall i :: 0 <= i < |f.entries| ==> Within(cfg, f.receiveTime, f.entries[i].at))
  }

  /** Two datagrams that name no two different peers. */
  predicate SamePeer(one: string, other: string) {
    one == "" || other == "" || one == other
  }

  predicate Within(cfg: Config, first: real, at: real) {
    at - first <= cfg.frameWindowSeconds
  }

  /** The frames opened so far, in order. */
  function Opened(l: Ledger): seq<OpenFrame> {
    seq(|l.closures|, i requires 0 <= i < |l.closures| => l.closures[i].frame)
    + if l.frame.Some? then [l.frame.value] else []
  }

  /** A frame begins a session exactly when a restart was seen since the frame before it opened. */
  ghost predicate SessionsBegin(frames: seq<OpenFrame>) {
    forall i :: 0 <= i < |frames| ==> BeginsAt(frames, i)
  }

  predicate BeginsAt(frames: seq<OpenFrame>, i: nat)
    requires i < |frames|
  {
    BeginsAfter(frames[i], LastRestarts(frames[..i]))
  }

  predicate BeginsAfter(f: OpenFrame, restarts: nat) {
    f.restarts >= restarts && (f.beginsNewSession <==> f.restarts > restarts)
  }

  function LastRestarts(frames: seq<OpenFrame>): nat {
    if frames == [] then 0 else frames[|frames| - 1].restarts
  }

  ghost predicate Kept(cfg: Config, l: Ledger) {
    && l.accepted == Contents(l.closures) + OpenEntries(l)
    && (l.frame.Some? ==> Coheres(cfg, l.frame.value))
    && (forall e :: e in OpenEntries(l) ==> e.peer == "" || e.peer == l.peer)
    && (forall c :: c in l.closures ==> Coheres(cfg, c.frame))
    && SessionsBegin(Opened(l))
    && LastRestarts(Opened(l)) <= l.stats.sessionRestarts
    && (l.pendingNewSession <==> l.stats.sessionRestarts > LastRestarts(Opened(l)))
    && |l.closures| == l.stats.framesEmitted
                    == l.stats.closedByRepeat + l.stats.closedByGap + l.stats.closedByRestart + l.stats.closedByFlush
    && l.stats.positionsAccepted + l.stats.rotationsAccepted == |l.accepted|
  }

  lemma CloseKeeps(cfg: Config, l: Ledger, cause: Cause)
    requires Kept(cfg, l)
    ensures Kept(cfg, Close(l, cause)) && Close(l, cause).frame.None?
    ensures Close(l, cause).packet == l.packet && Close(l, cause).peer == l.peer
    ensures Close(l, cause).pendingNewSession == l.pendingNewSession
  {
    hide Coheres, SessionsBegin, SamplesOf;
    if l.frame.Some? {
      ContentsAppend(l.closures, Closure(l.frame.value, cause));
      assert Opened(Close(l, cause)) == Opened(l);
    }
  }

  lemma RestartKeeps(cfg: Config, l: Ledger)
    requires Kept(cfg, l)
    ensures Kept(cfg, Restarted(l)) && Restarted(l).frame.None?
  {
    hide Coheres, SessionsBegin, Close, Contents;
    CloseKeeps(cfg, l, Restart);
    assert Opened(Restarted(l)) == Opened(Close(l, Restart));
  }

  /** Counts that frames do not depend on, the clock and the packet's number may change. */
  lemma OtherwiseKept(cfg: Config, l: Ledger, l': Ledger)
    requires Kept(cfg, l)
    requires l'.frame == l.frame && l'.closures == l.closures && l'.accepted == l.accepted
    requires l'.pendingNewSession == l.pendingNewSession && l'.stats.sessionRestarts == l.stats.sessionRestarts
    requires l'.stats.framesEmitted == l.stats.framesEmitted && l'.stats.closedByRepeat == l.stats.closedByRepeat
    requires l'.stats.closedByGap == l.stats.closedByGap && l'.stats.closedByRestart == l.stats.closedByRestart
    requires l'.stats.closedByFlush == l.stats.closedByFlush
    requires l'.stats.positionsAccepted == l.stats.positionsAccepted && l'.stats.rotationsAccepted == l.stats.rotationsAccepted
    requires forall e :: e in OpenEntries(l) ==> e.peer == "" || e.peer == l'.peer
    ensures Kept(cfg, l')
  {
    hide Coheres, SessionsBegin, Contents;
    assert Opened(l') == Opened(l);
  }

  /** The frame left open by an arrival can take values of that datagram. */
  ghost predicate Ready(cfg: Config, l: Ledger, receiveTime: real, peer: string) {
    && Kept(cfg, l) && (peer == "" || peer == l.peer)
    && (l.frame.Some? && cfg.frameWindowSeconds > 0.0 ==> Within(cfg, l.frame.value.receiveTime, receiveTime))
  }

  lemma NoticeKeeps(cfg: Config, l: Ledger, receiveTime: real)
    requires Kept(cfg, l)
    ensures Kept(cfg, Noticed(cfg, l, receiveTime))
  {
    hide Kept;
    Peered(cfg, l);
    OtherwiseKept(cfg, l, Noticed(cfg, l, receiveTime));
  }

  lemma AttributionKeeps(cfg: Config, l: Ledger, peer: string)
    requires Kept(cfg, l)
    ensures var l' := Attributed(l, peer); Kept(cfg, l') && (peer == "" || peer == l'.peer)
  {
    hide Kept, Restarted;
    RestartKeeps(cfg, l);
    var l' := if peer != "" && l.peer != "" && peer != l.peer then Restarted(l) else l;
    Peered(cfg, l');
    OtherwiseKept(cfg, l', Attributed(l, peer));
  }

  lemma ArrivalKeeps(cfg: Config, l: Ledger, receiveTime: real, peer: string)
    requires Kept(cfg, l)
    ensures Ready(cfg, Arrive(cfg, l, receiveTime, peer), receiveTime, peer)
  {
    hide Kept, Noticed, Attributed, Close;
    NoticeKeeps(cfg, l, receiveTime);
    AttributionKeeps(cfg, Noticed(cfg, l, receiveTime), peer);
    CloseKeeps(cfg, Attributed(Noticed(cfg, l, receiveTime), peer), Gap);
  }

  lemma Peered(cfg: Config, l: Ledger)
    requires Kept(cfg, l)
    ensures forall e :: e in OpenEntries(l) ==> e.peer == "" || e.peer == l.peer
  {
    hide Coheres, SessionsBegin, Contents;
  }

  lemma {:induction false} NoHolderNoEntry(entries: seq<Entry>, tracker: string, channel: Channel)
    ensures Holder(entries, tracker, channel).None? <==>
            forall i :: 0 <= i < |entries| ==> entries[i].tracker != tracker || entries[i].channel != channel
  {
    if entries != [] {
      NoHolderNoEntry(entries[..|entries| - 1], tracker, channel);
    }
  }

  lemma SessionGoesOn(before: seq<OpenFrame>, f: OpenFrame, f': OpenFrame)
    requires SessionsBegin(before + [f]) && f'.restarts == f.restarts && f'.beginsNewSession == f.beginsNewSession
    ensures SessionsBegin(before + [f'])
  {
    forall i | 0 <= i < |before| + 1
      ensures BeginsAt(before + [f'], i)
    {
      assert BeginsAt(before + [f], i);
      assert (before + [f'])[..i] == before[..i] == (before + [f])[..i];
    }
  }

  lemma SessionAppends(frames: seq<OpenFrame>, f: OpenFrame)
    requires SessionsBegin(frames) && BeginsAfter(f, LastRestarts(frames))
    ensures SessionsBegin(frames + [f])
  {
    forall i | 0 <= i < |frames| + 1
      ensures BeginsAt(frames + [f], i)
    {
      assert (frames + [f])[..i] == frames[..i];
      if i < |frames| {
        assert BeginsAt(frames, i);
      } else {
        assert frames[..i] == frames;
      }
    }
  }

  /** A value whose channel is free joins a frame that is ready for it. */
  lemma JoinKeeps(cfg: Config, l: Ledger, m: Message, receiveTime: real, peer: string)
    requires Ready(cfg, l, receiveTime, peer) && m.value.Some? && !m.channel.NoChannel? && Held(l, m).None?
    ensures Ready(cfg, Join(l, m, receiveTime, peer), receiveTime, peer)
  {
    hide Within, Contents, SessionsBegin, Coheres, DistinctChannels;
    var l' := Join(l, m, receiveTime, peer);
    var entry := Entry(m.tracker, m.channel, m.value.value, l.packet, receiveTime, peer);
    NoHolderNoEntry(OpenEntries(l), m.tracker, m.channel);
    assert OpenEntries(l') == OpenEntries(l) + [entry];
    JoinCoheres(cfg, l, m, receiveTime, peer);
    if l.frame.Some? {
      var before := Opened(l)[..|l.closures|];
      assert Opened(l') == before + [l'.frame.value] && Opened(l) == before + [l.frame.value];
      SessionGoesOn(before, l.frame.value, l'.frame.value);
    } else {
      assert Opened(l') == Opened(l) + [l'.frame.value];
      SessionAppends(Opened(l), l'.frame.value);
      if cfg.frameWindowSeconds > 0.0 {
        NoTime(cfg, receiveTime);
      }
    }
  }

  lemma JoinCoheres(cfg: Config, l: Ledger, m: Message, receiveTime: real, peer: string)
    requires Ready(cfg, l, receiveTime, peer) && m.value.Some? && !m.channel.NoChannel?
    requires forall e :: e in OpenEntries(l) ==> e.tracker != m.tracker || e.channel != m.channel
    ensures Coheres(cfg, Join(l, m, receiveTime, peer).frame.value)
  {
    hide Contents, SessionsBegin, Opened, Within;
    if cfg.frameWindowSeconds > 0.0 {
      NoTime(cfg, receiveTime);
    }
    var before := OpenEntries(l);
    forall i | 0 <= i < |before|
      ensures SamePeer(before[i].peer, peer)
    {
      assert before[i] in before;
    }
    if l.frame.Some? {
      assert Coheres(cfg, l.frame.value);
    }
  }

  lemma NoTime(cfg: Config, at: real)
    requires cfg.frameWindowSeconds > 0.0
    ensures Within(cfg, at, at)
  {
  }

  lemma DuplicateKeeps(cfg: Config, l: Ledger)
    requires Kept(cfg, l) && l.frame.Some?
    ensures Kept(cfg, Duplicate(l))
  {
    hide Within, Contents, DistinctChannels, SessionsBegin;
    var before := Opened(l)[..|l.closures|];
    assert Opened(l) == before + [l.frame.value] && Opened(Duplicate(l)) == before + [Duplicate(l).frame.value];
    SessionGoesOn(before, l.frame.value, Duplicate(l).frame.value);
  }

  lemma TakeKeeps(cfg: Config, l: Ledger, m: Message, receiveTime: real, peer: string)
    requires Ready(cfg, l, receiveTime, peer)
    ensures Ready(cfg, Take(l, m, receiveTime, peer), receiveTime, peer)
  {
    hide Kept, Within, Close, Join, Holder;
    Peered(cfg, l);
    CloseKeeps(cfg, l, Repeat);
    Peered(cfg, Close(l, Repeat));
    if m.channel.NoChannel? {
      OtherwiseKept(cfg, l, Refuse(l));
    } else if Held(l, m) == Some(l.packet) {
      DuplicateKeeps(cfg, l);
    } else {
      var l' := if Held(l, m).Some? then Close(l, Repeat) else l;
      if m.value.None? {
        OtherwiseKept(cfg, l', Refuse(l'));
      } else {
        JoinKeeps(cfg, l', m, receiveTime, peer);
      }
    }
  }

  lemma {:induction false} TakeAllKeeps(cfg: Config, l: Ledger, messages: seq<Message>, receiveTime: real, peer: string)
    requires Ready(cfg, l, receiveTime, peer)
    ensures Ready(cfg, TakeAll(l, messages, receiveTime, peer), receiveTime, peer)
  {
    hide Ready, Take;
    if messages != [] {
      var front := messages[..|messages| - 1];
      TakeAllKeeps(cfg, l, front, receiveTime, peer);
      TakeKeeps(cfg, TakeAll(l, front, receiveTime, peer), messages[|messages| - 1], receiveTime, peer);
    }
  }

  lemma StartIsKept(cfg: Config)
    ensures Kept(cfg, START)
  {
  }

  /**
   Over every run of pushes and flushes: the values of the closed frames and of the open one are the
   accepted values in their order; each frame carries a tracker's channel once, names one peer at most
   and lies within the window of its first value; a frame begins a session exactly when a restart was
   seen since the frame before it opened; and every frame was closed, and counted, for one cause.
   */
  lemma {:induction false} RunKeeps(cfg: Config, events: seq<Event>)
    ensures Kept(cfg, Run(cfg, events))
  {
    hide Kept, TakeAll, Arrive, Close, Within;
    if events == [] {
      StartIsKept(cfg);
    } else {
      var front, last := Run(cfg, events[..|events| - 1]), events[|events| - 1];
      RunKeeps(cfg, events[..|events| - 1]);
      match last {
        case Pushed(messages, receiveTime, peer) =>
          ArrivalKeeps(cfg, front, receiveTime, peer);
          TakeAllKeeps(cfg, Arrive(cfg, front, receiveTime, peer), messages, receiveTime, peer);
        case Flushed => CloseKeeps(cfg, front, Flush);
      }
    }
  }

  // ---- Samples ----

  /** How many channels the samples carry. */
  function ChannelCount(samples: seq<Sample>): nat {
    if samples == [] then 0
    else
      var s := samples[|samples| - 1];
      ChannelCount(samples[..|samples| - 1]) + (if s.position.Some? then 1 else 0) + (if s.rotation.Some? then 1 else 0)
  }

  predicate DistinctTrackers(samples: seq<Sample>) {
    forall i, k :: 0 <= i < k < |samples| ==> samples[i].tracker != samples[k].tracker
  }

  /** What the samples hold for a tracker's channel. */
  function Carried(samples: seq<Sample>, tracker: string, channel: Channel): Option<Vector> {
    var i := IndexOf(samples, tracker);
    if i == |samples| then None else if channel.Position? then samples[i].position else samples[i].rotation
  }

  /** The value accepted for a tracker's channel. */
  function Accepted(entries: seq<Entry>, tracker: string, channel: Channel): Option<Vector> {
    if entries == [] then None
    else
      var last := entries[|entries| - 1];
      if last.tracker == tracker && last.channel == channel then Some(last.value)
      else Accepted(entries[..|entries| - 1], tracker, channel)
  }

  /** The one entry of a channel is what was accepted for it, and where there is none nothing was. */
  lemma {:induction false} AcceptedIsTheEntry(entries: seq<Entry>, tracker: string, channel: Channel)
    requires DistinctChannels(entries)
    ensures forall i :: 0 <= i < |entries| && entries[i].tracker == tracker && entries[i].channel == channel ==>
              Accepted(entries, tracker, channel) == Some(entries[i].value)
    ensures Accepted(entries, tracker, channel).Some? <==> Holder(entries, tracker, channel).Some?
  {
    if entries != [] {
      AcceptedIsTheEntry(entries[..|entries| - 1], tracker, channel);
    }
  }

  lemma {:induction false} IndexIsUnique(samples: seq<Sample>, i: nat)
    requires i < |samples| && DistinctTrackers(samples)
    ensures IndexOf(samples, samples[i].tracker) == i
  {
  }

  lemma {:induction false} ChannelCountUpdates(samples: seq<Sample>, i: nat, s: Sample)
    requires i < |samples|
    ensures ChannelCount(samples[i := s]) == ChannelCount(samples)
      - (if samples[i].position.Some? then 1 else 0) - (if samples[i].rotation.Some? then 1 else 0)
      + (if s.position.Some? then 1 else 0) + (if s.rotation.Some? then 1 else 0)
  {
    var front := samples[..|samples| - 1];
    if i < |front| {
      ChannelCountUpdates(front, i, s);
      assert samples[i := s][..|samples| - 1] == front[i := s];
    } else {
      assert samples[i := s][..|samples| - 1] == front;
    }
  }

  /** A frame's samples: one for each tracker, each with a channel, together holding every accepted value and no other. */
  lemma {:induction false} SamplesHoldTheEntries(entries: seq<Entry>)
    requires DistinctChannels(entries)
    ensures DistinctTrackers(SamplesOf(entries)) && ChannelCount(SamplesOf(entries)) == |entries|
    ensures forall s :: s in SamplesOf(entries) ==> s.position.Some? || s.rotation.Some?
    ensures forall tracker: string, channel: Channel :: !channel.NoChannel? ==>
              Carried(SamplesOf(entries), tracker, channel) == Accepted(entries, tracker, channel)
    ensures forall i :: 0 <= i < |entries| ==>
              Carried(SamplesOf(entries), entries[i].tracker, entries[i].channel) == Some(entries[i].value)
  {
    if entries != [] {
      var front, e := entries[..|entries| - 1], entries[|entries| - 1];
      SamplesHoldTheEntries(front);
      NoHolderNoEntry(front, e.tracker, e.channel);
      AcceptedIsTheEntry(front, e.tracker, e.channel);
      assert Carried(SamplesOf(front), e.tracker, e.channel).None?;
      PlacedCounts(SamplesOf(front), e);
      forall tracker, channel: Channel | !channel.NoChannel?
        ensures Carried(SamplesOf(entries), tracker, channel) == Accepted(entries, tracker, channel)
      {
        PlacedCarries(SamplesOf(front), e, tracker, channel);
      }
      forall i | 0 <= i < |entries|
        ensures Carried(SamplesOf(entries), entries[i].tracker, entries[i].channel) == Some(entries[i].value)
      {
        AcceptedIsTheEntry(entries, entries[i].tracker, entries[i].channel);
      }
    }
  }

  lemma ChannelCountAppends(samples: seq<Sample>, s: Sample)
    ensures ChannelCount(samples + [s]) ==
      ChannelCount(samples) + (if s.position.Some? then 1 else 0) + (if s.rotation.Some? then 1 else 0)
  {
    assert (samples + [s])[..|samples|] == samples;
  }

  lemma PlacedCounts(samples: seq<Sample>, e: Entry)
    requires DistinctTrackers(samples) && !e.channel.NoChannel? && Carried(samples, e.tracker, e.channel).None?
    requires forall s :: s in samples ==> s.position.Some? || s.rotation.Some?
    ensures DistinctTrackers(Placed(samples, e)) && ChannelCount(Placed(samples, e)) == ChannelCount(samples) + 1
    ensures forall s :: s in Placed(samples, e) ==> s.position.Some? || s.rotation.Some?
  {
    hide ChannelCount;
    var i := IndexOf(samples, e.tracker);
    if i < |samples| {
      ChannelCountUpdates(samples, i, Filled(samples[i], e.channel, e.value));
    } else {
      ChannelCountAppends(samples, Filled(Sample(e.tracker, None, None, e.at), e.channel, e.value));
    }
  }

  lemma PlacedCarries(samples: seq<Sample>, e: Entry, tracker: string, channel: Channel)
    requires DistinctTrackers(samples) && !e.channel.NoChannel? && !channel.NoChannel?
    ensures Carried(Placed(samples, e), tracker, channel) ==
            if tracker == e.tracker && channel == e.channel then Some(e.value) else Carried(samples, tracker, channel)
  {
    var placed, k := Placed(samples, e), IndexOf(samples, tracker);
    assert DistinctTrackers(placed);
    if k < |samples| {
      assert placed[k].tracker == tracker;
      IndexIsUnique(placed, k);
    } else if tracker == e.tracker {
      assert placed[|samples|].tracker == tracker;
      IndexIsUnique(placed, |samples|);
    } else {
      assert forall i :: 0 <= i < |placed| ==> placed[i].tracker != tracker;
    }
  }
}
