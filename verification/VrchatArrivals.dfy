/**
 The VRChat tracker assembler from its events alone: which value joins which frame, where and why frames
 are cut, and what every frame and every count comes to, told without the assembler's state.
 */
module VrchatArrivals {
  import opened Bytes
  import opened VrchatFrames

  // ---- What arrives ----

  /** A datagram comes, then its messages one by one; a flush stands between datagrams. */
  datatype Arrival =
    | Came(at: real, sender: string)
    | Told(message: Message, packet: nat, receiveTime: real, peer: string)
    | FlushMark

  function Pushes(events: seq<Event>): nat {
    if events == [] then 0 else Pushes(events[..|events| - 1]) + if events[|events| - 1].Pushed? then 1 else 0
  }

  function Messages(messages: seq<Message>, packet: nat, receiveTime: real, peer: string): seq<Arrival> {
    if messages == [] then []
    else
      var last := |messages| - 1;
      Messages(messages[..last], packet, receiveTime, peer) + [Told(messages[last], packet, receiveTime, peer)]
  }

  function Arrivals(events: seq<Event>): seq<Arrival> {
    if events == [] then []
    else
      Arrivals(events[..|events| - 1]) +
      match events[|events| - 1]
      case Pushed(messages, receiveTime, peer) => [Came(receiveTime, peer)] + Messages(messages, Pushes(events), receiveTime, peer)
      case Flushed => [FlushMark]
  }

  /** The peer named last, and when the last datagram came. */
  function LastNamed(past: seq<Arrival>): string {
    if past == [] then ""
    else
      var last := past[|past| - 1];
      if last.Came? && last.sender != "" then last.sender else LastNamed(past[..|past| - 1])
  }

  function LastCame(past: seq<Arrival>): Option<real> {
    if past == [] then None
    else
      var last := past[|past| - 1];
      if last.Came? then Some(last.at) else LastCame(past[..|past| - 1])
  }

  /** A datagram that names another peer than the one named last. */
  predicate IsRestart(past: seq<Arrival>, a: Arrival) {
    a.Came? && a.sender != "" && LastNamed(past) != "" && a.sender != LastNamed(past)
  }

  function Restarts(all: seq<Arrival>): nat {
    if all == [] then 0
    else
      var last := |all| - 1;
      Restarts(all[..last]) + if IsRestart(all[..last], all[last]) then 1 else 0
  }

  /** A datagram that comes after a silence beyond the bound. */
  predicate IsLate(cfg: Config, past: seq<Arrival>, a: Arrival) {
    && a.Came? && LastCame(past).Some?
    && cfg.sourceTimeoutSeconds > 0.0 && a.at - LastCame(past).value > cfg.sourceTimeoutSeconds
  }

  function Silences(cfg: Config, all: seq<Arrival>): nat {
    if all == [] then 0
    else
      var last := |all| - 1;
      Silences(cfg, all[..last]) + if IsLate(cfg, all[..last], all[last]) then 1 else 0
  }

  // ---- Where frames are cut ----

  datatype How = Joins | Repeats | Refused | Nothing

  /** The frame an arrival falls into, counted from zero, what becomes of it there, and why it ended the frame before. */
  datatype Fate = Fate(frame: nat, how: How, cut: Option<Cause>)

  function Current(fates: seq<Fate>): nat {
    if fates == [] then 0 else fates[|fates| - 1].frame
  }

  /** The value that arrived at `i` has joined the frame `g`. */
  predicate IsIn(past: seq<Arrival>, fates: seq<Fate>, g: nat, i: int) {
    0 <= i < |past| && i < |fates| && past[i].Told? && past[i].message.value.Some? && fates[i].frame == g && fates[i].how == Joins
  }

  predicate SameChannel(m: Message, n: Message) {
    m.tracker == n.tracker && m.channel == n.channel
  }

  /** The datagram `packet` has filled this channel of this tracker in the current frame. */
  ghost predicate HasFilled(past: seq<Arrival>, fates: seq<Fate>, m: Message, packet: nat) {
    exists i :: IsIn(past, fates, Current(fates), i) && SameChannel(past[i].message, m) && past[i].packet == packet
  }

  ghost predicate OtherHasFilled(past: seq<Arrival>, fates: seq<Fate>, m: Message, packet: nat) {
    exists i :: IsIn(past, fates, Current(fates), i) && SameChannel(past[i].message, m) && past[i].packet != packet
  }

  ghost predicate IsOpen(past: seq<Arrival>, fates: seq<Fate>) {
    exists i :: IsIn(past, fates, Current(fates), i)
  }

  /** The current frame's first value came longer ago than the window. */
  ghost predicate IsOverdue(cfg: Config, past: seq<Arrival>, fates: seq<Fate>, now: real) {
    && cfg.frameWindowSeconds > 0.0
    && exists i :: IsIn(past, fates, Current(fates), i) && (forall k :: IsIn(past, fates, Current(fates), k) ==> i <= k)
                && now - past[i].receiveTime > cfg.frameWindowSeconds
  }

  /** Why an arrival ends the current frame, if it does. */
  ghost function Cut(cfg: Config, past: seq<Arrival>, fates: seq<Fate>, a: Arrival): Option<Cause> {
    if !IsOpen(past, fates) then None
    else
      match a
      case Came(at, _) =>
        if IsRestart(past, a) then Some(Restart) else if IsOverdue(cfg, past, fates, at) then Some(Gap) else None
      case Told(m, packet, _, _) =>
        if !m.channel.NoChannel? && OtherHasFilled(past, fates, m, packet) then Some(Repeat) else None
      case FlushMark => Some(Flush)
  }

  ghost function HowOf(past: seq<Arrival>, fates: seq<Fate>, a: Arrival): How {
    if !a.Told? then Nothing
    else if a.message.channel.NoChannel? then Refused
    else if HasFilled(past, fates, a.message, a.packet) then Repeats
    else if a.message.value.None? then Refused
    else Joins
  }

  ghost predicate Befalls(cfg: Config, past: seq<Arrival>, fates: seq<Fate>, a: Arrival, f: Fate) {
    && f.cut == Cut(cfg, past, fates, a)
    && f.how == HowOf(past, fates, a)
    && f.frame == Current(fates) + if f.cut.Some? then 1 else 0
  }

  ghost predicate AreFates(cfg: Config, all: seq<Arrival>, fates: seq<Fate>) {
    |all| == |fates| && forall k :: 0 <= k < |all| ==> Befalls(cfg, all[..k], fates[..k], all[k], fates[k])
  }

  // ---- What a frame holds ----

  function EntryOf(a: Arrival): Entry
    requires a.Told? && a.message.value.Some?
  {
    Entry(a.message.tracker, a.message.channel, a.message.value.value, a.packet, a.receiveTime, a.peer)
  }

  /** Everything that joined the frame `g`, in its order of arrival. */
  function Joined(all: seq<Arrival>, fates: seq<Fate>, g: nat): seq<Entry>
    requires |all| == |fates|
  {
    if all == [] then []
    else
      var last := |all| - 1;
      Joined(all[..last], fates[..last], g) + if IsIn(all, fates, g, last) then [EntryOf(all[last])] else []
  }

  /** When and from whom its first value came, and how many restarts had been seen by then. */
  datatype Start = Start(receiveTime: real, peer: string, restarts: nat)

  function StartOf(all: seq<Arrival>, fates: seq<Fate>, g: nat): Option<Start>
    requires |all| == |fates|
  {
    if all == [] then None
    else
      var last := |all| - 1;
      var before := StartOf(all[..last], fates[..last], g);
      if before.Some? then before
      else if IsIn(all, fates, g, last) then Some(Start(all[last].receiveTime, all[last].peer, Restarts(all[..last])))
      else None
  }

  function RepeatedIn(fates: seq<Fate>, g: nat): nat {
    if fates == [] then 0
    else
      var last := |fates| - 1;
      RepeatedIn(fates[..last], g) + if fates[last].frame == g && fates[last].how == Repeats then 1 else 0
  }

  ghost predicate IsFrame(all: seq<Arrival>, fates: seq<Fate>, g: nat, f: OpenFrame)
    requires |all| == |fates|
  {
    && f.entries == Joined(all, fates, g)
    && f.duplicates == RepeatedIn(fates, g)
    && StartOf(all, fates, g) == Some(Start(f.receiveTime, f.peer, f.restarts))
  }

  /** Why the frames ended, in order. */
  function Causes(fates: seq<Fate>): seq<Cause> {
    if fates == [] then []
    else
      var last := |fates| - 1;
      Causes(fates[..last]) + if fates[last].cut.Some? then [fates[last].cut.value] else []
  }

  // ---- What is counted ----

  function CountOf(fates: seq<Fate>, how: How): nat {
    if fates == [] then 0
    else
      var last := |fates| - 1;
      CountOf(fates[..last], how) + if fates[last].how == how then 1 else 0
  }

  function Positions(all: seq<Arrival>, fates: seq<Fate>): nat
    requires |all| == |fates|
  {
    if all == [] then 0
    else
      var last := |all| - 1;
      Positions(all[..last], fates[..last])
      + if fates[last].how == Joins && all[last].Told? && all[last].message.channel.Position? then 1 else 0
  }

  function Endings(causes: seq<Cause>, cause: Cause): nat {
    if causes == [] then 0
    else
      var last := |causes| - 1;
      Endings(causes[..last], cause) + if causes[last] == cause then 1 else 0
  }

  function SampleCount(closures: seq<Closure>): nat {
    if closures == [] then 0
    else
      var last := |closures| - 1;
      SampleCount(closures[..last]) + |SamplesOf(closures[last].frame.entries)|
  }

  ghost predicate IsCounted(cfg: Config, all: seq<Arrival>, fates: seq<Fate>, closures: seq<Closure>, stats: Stats)
    requires |all| == |fates|
  {
    && stats.framesEmitted == |Causes(fates)|
    && stats.samplesEmitted == SampleCount(closures)
    && stats.positionsAccepted == Positions(all, fates)
    && stats.positionsAccepted + stats.rotationsAccepted == CountOf(fates, Joins)
    && stats.messagesDuplicated == CountOf(fates, Repeats)
    && stats.messagesRefused == CountOf(fates, Refused)
    && stats.sourceTimeouts == Silences(cfg, all)
    && stats.sessionRestarts == Restarts(all)
    && stats.closedByRepeat == Endings(Causes(fates), Repeat)
    && stats.closedByGap == Endings(Causes(fates), Gap)
    && stats.closedByRestart == Endings(Causes(fates), Restart)
    && stats.closedByFlush == Endings(Causes(fates), Flush)
  }

  // ---- The ledger told by the fates ----

  ghost predicate FramesFit(all: seq<Arrival>, fates: seq<Fate>, l: Ledger)
    requires |all| == |fates|
  {
    && (forall i :: 0 <= i < |fates| ==> fates[i].frame <= |l.closures|)
    && |Causes(fates)| == |l.closures|
    && (forall g :: 0 <= g < |l.closures| ==> IsFrame(all, fates, g, l.closures[g].frame) && l.closures[g].cause == Causes(fates)[g])
    && if l.frame.Some? then IsFrame(all, fates, |l.closures|, l.frame.value)
       else Joined(all, fates, |l.closures|) == [] && RepeatedIn(fates, |l.closures|) == 0
            && StartOf(all, fates, |l.closures|).None?
  }

  ghost predicate Tells(cfg: Config, all: seq<Arrival>, fates: seq<Fate>, l: Ledger) {
    && |all| == |fates| && AreFates(cfg, all, fates) && Current(fates) == |l.closures|
    && FramesFit(all, fates, l)
    && IsCounted(cfg, all, fates, l.closures, l.stats)
    && l.peer == LastNamed(all) && l.lastArrival == LastCame(all)
  }

  // ---- One more arrival ----

  lemma FatesGoOn(cfg: Config, all: seq<Arrival>, fates: seq<Fate>, a: Arrival, f: Fate)
    requires AreFates(cfg, all, fates) && Befalls(cfg, all, fates, a, f)
    ensures AreFates(cfg, all + [a], fates + [f])
  {
    hide Befalls;
    var more, theirs := all + [a], fates + [f];
    forall k | 0 <= k < |more|
      ensures Befalls(cfg, more[..k], theirs[..k], more[k], theirs[k])
    {
      assert k < |all| ==> more[..k] == all[..k] && theirs[..k] == fates[..k];
      assert k == |all| ==> more[..k] == all && theirs[..k] == fates;
    }
  }

  predicate JoinsAt(a: Arrival, f: Fate, g: nat) {
    a.Told? && a.message.value.Some? && f.frame == g && f.how == Joins
  }

  lemma FrameGoesOn(all: seq<Arrival>, fates: seq<Fate>, a: Arrival, f: Fate, g: nat)
    requires |all| == |fates|
    ensures Joined(all + [a], fates + [f], g) == Joined(all, fates, g) + if JoinsAt(a, f, g) then [EntryOf(a)] else []
    ensures StartOf(all + [a], fates + [f], g) ==
              if StartOf(all, fates, g).Some? then StartOf(all, fates, g)
              else if JoinsAt(a, f, g) then Some(Start(a.receiveTime, a.peer, Restarts(all))) else None
    ensures RepeatedIn(fates + [f], g) == RepeatedIn(fates, g) + if f.frame == g && f.how == Repeats then 1 else 0
  {
    hide Restarts;
    assert (all + [a])[..|all|] == all && (fates + [f])[..|fates|] == fates;
  }

  lemma CausesGoOn(fates: seq<Fate>, f: Fate)
    ensures Causes(fates + [f]) == Causes(fates) + if f.cut.Some? then [f.cut.value] else []
    ensures forall how :: CountOf(fates + [f], how) == CountOf(fates, how) + if f.how == how then 1 else 0
  {
    assert (fates + [f])[..|fates|] == fates;
  }

  lemma EndingsGoOn(causes: seq<Cause>, c: Cause)
    ensures forall cause :: Endings(causes + [c], cause) == Endings(causes, cause) + if c == cause then 1 else 0
  {
    assert (causes + [c])[..|causes|] == causes;
  }

  lemma PositionsGoOn(all: seq<Arrival>, fates: seq<Fate>, a: Arrival, f: Fate)
    requires |all| == |fates|
    ensures Positions(all + [a], fates + [f]) ==
              Positions(all, fates) + if f.how == Joins && a.Told? && a.message.channel.Position? then 1 else 0
  {
    assert (all + [a])[..|all|] == all && (fates + [f])[..|fates|] == fates;
  }

  lemma PastGoesOn(cfg: Config, all: seq<Arrival>, a: Arrival)
    ensures LastNamed(all + [a]) == if a.Came? && a.sender != "" then a.sender else LastNamed(all)
    ensures LastCame(all + [a]) == if a.Came? then Some(a.at) else LastCame(all)
    ensures Restarts(all + [a]) == Restarts(all) + if IsRestart(all, a) then 1 else 0
    ensures Silences(cfg, all + [a]) == Silences(cfg, all) + if IsLate(cfg, all, a) then 1 else 0
  {
    hide IsRestart, IsLate;
    assert (all + [a])[..|all|] == all;
  }

  lemma SamplesGoOn(closures: seq<Closure>, c: Closure)
    ensures SampleCount(closures + [c]) == SampleCount(closures) + |SamplesOf(c.frame.entries)|
  {
    hide SamplesOf;
    assert (closures + [c])[..|closures|] == closures;
  }

  /** A frame that no arrival has reached yet. */
  lemma {:induction false} NothingAhead(all: seq<Arrival>, fates: seq<Fate>, g: nat)
    requires |all| == |fates| && forall i :: 0 <= i < |fates| ==> fates[i].frame < g
    ensures Joined(all, fates, g) == [] && RepeatedIn(fates, g) == 0 && StartOf(all, fates, g).None?
  {
    if all != [] {
      NothingAhead(all[..|all| - 1], fates[..|all| - 1], g);
    }
  }

  /** What one arrival does to the frames, given its fate. */
  ghost predicate Moves(l: Ledger, l': Ledger, a: Arrival, f: Fate, restarts: nat) {
    && (f.cut.Some? ==> l.frame.Some?)
    && l'.closures == l.closures + (if f.cut.Some? then [Closure(l.frame.value, f.cut.value)] else [])
    && f.frame == |l'.closures|
    && var m := if f.cut.Some? then None else l.frame;
       if JoinsAt(a, f, f.frame) then
         var start := if m.Some? then m.value else OpenFrame(a.receiveTime, a.peer, l.pendingNewSession, [], 0, restarts);
         l'.frame == Some(start.(entries := start.entries + [EntryOf(a)]))
       else
         && f.how != Joins
         && if f.how == Repeats then m.Some? && l'.frame == Some(m.value.(duplicates := m.value.duplicates + 1))
            else l'.frame == m
  }

  lemma ClosedFit(all: seq<Arrival>, fates: seq<Fate>, l: Ledger, l': Ledger, a: Arrival, f: Fate)
    requires |all| == |fates| && FramesFit(all, fates, l) && Moves(l, l', a, f, Restarts(all))
    ensures var more, theirs := all + [a], fates + [f];
            && |Causes(theirs)| == |l'.closures|
            && forall g :: 0 <= g < |l'.closures| ==>
                 IsFrame(more, theirs, g, l'.closures[g].frame) && l'.closures[g].cause == Causes(theirs)[g]
  {
    hide Joined, StartOf, RepeatedIn, Causes, JoinsAt;
    var more, theirs := all + [a], fates + [f];
    CausesGoOn(fates, f);
    forall g | 0 <= g < |l'.closures|
      ensures IsFrame(more, theirs, g, l'.closures[g].frame) && l'.closures[g].cause == Causes(theirs)[g]
    {
      NotHere(a, f, g);
      FrameGoesOn(all, fates, a, f, g);
      if g < |l.closures| {
        assert IsFrame(all, fates, g, l.closures[g].frame);
      } else {
        assert IsFrame(all, fates, g, l.frame.value);
      }
    }
  }

  lemma NotHere(a: Arrival, f: Fate, g: nat)
    requires f.frame != g
    ensures !JoinsAt(a, f, g)
  {
  }

  lemma OpenFit(all: seq<Arrival>, fates: seq<Fate>, l: Ledger, l': Ledger, a: Arrival, f: Fate)
    requires |all| == |fates| && FramesFit(all, fates, l) && Moves(l, l', a, f, Restarts(all))
    ensures var more, theirs, g := all + [a], fates + [f], |l'.closures|;
            if l'.frame.Some? then IsFrame(more, theirs, g, l'.frame.value)
            else Joined(more, theirs, g) == [] && RepeatedIn(theirs, g) == 0 && StartOf(more, theirs, g).None?
  {
    hide Joined, StartOf, RepeatedIn, Causes;
    if f.cut.Some? {
      NothingAhead(all, fates, f.frame);
    }
    FrameGoesOn(all, fates, a, f, f.frame);
  }

  lemma FramesGoOn(all: seq<Arrival>, fates: seq<Fate>, l: Ledger, l': Ledger, a: Arrival, f: Fate)
    requires |all| == |fates| && FramesFit(all, fates, l) && Moves(l, l', a, f, Restarts(all))
    ensures FramesFit(all + [a], fates + [f], l')
  {
    ClosedFit(all, fates, l, l', a, f);
    OpenFit(all, fates, l, l', a, f);
    hide Joined, StartOf, RepeatedIn, Causes, IsFrame, JoinsAt;
  }

  // ---- What holds a channel ----

  lemma {:induction false} FirstStarts(all: seq<Arrival>, fates: seq<Fate>, g: nat)
    requires |all| == |fates|
    ensures StartOf(all, fates, g).None? ==> forall i :: !IsIn(all, fates, g, i)
    ensures StartOf(all, fates, g).Some? ==>
              exists i :: IsIn(all, fates, g, i) && (forall k :: IsIn(all, fates, g, k) ==> i <= k)
                       && all[i].receiveTime == StartOf(all, fates, g).value.receiveTime
  {
    hide Restarts;
    if all != [] {
      var last := |all| - 1;
      var front, theirs := all[..last], fates[..last];
      FirstStarts(front, theirs, g);
      InBefore(all, fates, g);
      if StartOf(front, theirs, g).Some? {
        var i :| IsIn(front, theirs, g, i) && (forall k :: IsIn(front, theirs, g, k) ==> i <= k)
              && front[i].receiveTime == StartOf(front, theirs, g).value.receiveTime;
        assert IsIn(all, fates, g, i);
        forall k | IsIn(all, fates, g, k)
          ensures i <= k
        {
          assert k < last ==> IsIn(front, theirs, g, k);
        }
      } else if IsIn(all, fates, g, last) {
        assert forall k :: IsIn(all, fates, g, k) && k < last ==> IsIn(front, theirs, g, k);
      }
    }
  }

  lemma InBefore(all: seq<Arrival>, fates: seq<Fate>, g: nat)
    requires |all| == |fates| && all != []
    ensures var last := |all| - 1;
            forall i :: i < last ==> (IsIn(all[..last], fates[..last], g, i) <==> IsIn(all, fates, g, i))
  {
  }

  lemma HolderGoesOn(entries: seq<Entry>, e: Entry, tracker: string, channel: Channel)
    requires DistinctChannels(entries + [e])
    ensures DistinctChannels(entries)
    ensures Holder(entries + [e], tracker, channel) ==
              if e.tracker == tracker && e.channel == channel then Some(e.packet) else Holder(entries, tracker, channel)
    ensures e.tracker == tracker && e.channel == channel ==> Holder(entries, tracker, channel).None?
  {
    var more := entries + [e];
    assert more[..|entries|] == entries;
    assert forall i :: 0 <= i < |entries| ==> entries[i] == more[i];
    NoHolderNoEntry(entries, tracker, channel);
  }

  /** The datagram that filled a channel is that of whichever arrival joined with it. */
  lemma {:induction false} HolderSays(all: seq<Arrival>, fates: seq<Fate>, g: nat, m: Message)
    requires |all| == |fates| && DistinctChannels(Joined(all, fates, g))
    ensures var holder := Holder(Joined(all, fates, g), m.tracker, m.channel);
            && (forall i :: IsIn(all, fates, g, i) && SameChannel(all[i].message, m) ==> holder == Some(all[i].packet))
            && (holder.Some? ==> exists i :: IsIn(all, fates, g, i) && SameChannel(all[i].message, m))
  {
    hide Joined, DistinctChannels, Holder;
    if all == [] {
      NothingAhead(all, fates, g);
      NoHolderNoEntry([], m.tracker, m.channel);
    } else {
      var last := |all| - 1;
      var front, theirs := all[..last], fates[..last];
      var before := Joined(front, theirs, g);
      JoinedBefore(all, fates, g);
      if IsIn(all, fates, g, last) {
        HolderGoesOn(before, EntryOf(all[last]), m.tracker, m.channel);
        HolderSays(front, theirs, g, m);
      } else {
        assert before + [] == before;
        HolderSays(front, theirs, g, m);
      }
      if Holder(before, m.tracker, m.channel).Some? {
        var i :| IsIn(front, theirs, g, i) && SameChannel(front[i].message, m);
        assert IsIn(all, fates, g, i);
      }
    }
  }

  lemma JoinedBefore(all: seq<Arrival>, fates: seq<Fate>, g: nat)
    requires |all| == |fates| && all != []
    ensures var last := |all| - 1;
            && Joined(all, fates, g) == Joined(all[..last], fates[..last], g) +
                 (if IsIn(all, fates, g, last) then [EntryOf(all[last])] else [])
            && forall i :: i < last ==> (IsIn(all[..last], fates[..last], g, i) <==> IsIn(all, fates, g, i))
  {
  }

  /** The current frame as the ledger has it: open, overdue, and which datagram filled a channel. */
  lemma CurrentIs(cfg: Config, all: seq<Arrival>, fates: seq<Fate>, l: Ledger)
    requires |all| == |fates| && Current(fates) == |l.closures| && FramesFit(all, fates, l)
    ensures IsOpen(all, fates) <==> l.frame.Some?
    ensures forall now: real :: IsOverdue(cfg, all, fates, now) <==>
              l.frame.Some? && cfg.frameWindowSeconds > 0.0 && now - l.frame.value.receiveTime > cfg.frameWindowSeconds
  {
    hide Joined, StartOf, RepeatedIn, Causes;
    FirstStarts(all, fates, |l.closures|);
  }

  lemma HeldIs(all: seq<Arrival>, fates: seq<Fate>, l: Ledger, m: Message, packet: nat)
    requires |all| == |fates| && Current(fates) == |l.closures| && FramesFit(all, fates, l)
    requires l.frame.Some? ==> DistinctChannels(l.frame.value.entries)
    ensures HasFilled(all, fates, m, packet) <==> Held(l, m) == Some(packet)
    ensures OtherHasFilled(all, fates, m, packet) <==> Held(l, m).Some? && Held(l, m) != Some(packet)
  {
    hide Joined, StartOf, RepeatedIn, Causes, Holder, SameChannel;
    var g := |l.closures|;
    NoneIsDistinct();
    assert Joined(all, fates, g) == OpenEntries(l);
    HolderSays(all, fates, g, m);
    assert Holder([], m.tracker, m.channel).None? by { NoHolderNoEntry([], m.tracker, m.channel); }
  }

  lemma NoneIsDistinct()
    ensures DistinctChannels([])
  {
  }

  // ---- One step ----

  /** The counts after one arrival, given its fate. */
  ghost predicate CountsMove(cfg: Config, past: seq<Arrival>, l: Ledger, l': Ledger, a: Arrival, f: Fate) {
    var s, s' := l.stats, l'.stats;
    && s'.framesEmitted == s.framesEmitted + (if f.cut.Some? then 1 else 0)
    && s'.samplesEmitted == s.samplesEmitted
         + (if f.cut.Some? && l.frame.Some? then |SamplesOf(l.frame.value.entries)| else 0)
    && s'.positionsAccepted == s.positionsAccepted
         + (if f.how == Joins && a.Told? && a.message.channel.Position? then 1 else 0)
    && s'.positionsAccepted + s'.rotationsAccepted == s.positionsAccepted + s.rotationsAccepted + (if f.how == Joins then 1 else 0)
    && s'.messagesDuplicated == s.messagesDuplicated + (if f.how == Repeats then 1 else 0)
    && s'.messagesRefused == s.messagesRefused + (if f.how == Refused then 1 else 0)
    && s'.sourceTimeouts == s.sourceTimeouts + (if IsLate(cfg, past, a) then 1 else 0)
    && s'.sessionRestarts == s.sessionRestarts + (if IsRestart(past, a) then 1 else 0)
    && s'.closedByRepeat == s.closedByRepeat + (if f.cut == Some(Repeat) then 1 else 0)
    && s'.closedByGap == s.closedByGap + (if f.cut == Some(Gap) then 1 else 0)
    && s'.closedByRestart == s.closedByRestart + (if f.cut == Some(Restart) then 1 else 0)
    && s'.closedByFlush == s.closedByFlush + (if f.cut == Some(Flush) then 1 else 0)
  }

  lemma CountsGoOn(cfg: Config, all: seq<Arrival>, fates: seq<Fate>, l: Ledger, l': Ledger, a: Arrival, f: Fate)
    requires |all| == |fates| && IsCounted(cfg, all, fates, l.closures, l.stats) && CountsMove(cfg, all, l, l', a, f)
    requires f.cut.Some? ==> l.frame.Some?
    requires l'.closures == l.closures + (if f.cut.Some? then [Closure(l.frame.value, f.cut.value)] else [])
    ensures IsCounted(cfg, all + [a], fates + [f], l'.closures, l'.stats)
  {
    hide CountOf, Positions, Endings, SampleCount, Silences, Restarts, Causes, LastNamed, LastCame, IsLate, IsRestart, SamplesOf;
    CausesGoOn(fates, f);
    PositionsGoOn(all, fates, a, f);
    PastGoesOn(cfg, all, a);
    if f.cut.Some? {
      EndingsGoOn(Causes(fates), f.cut.value);
      SamplesGoOn(l.closures, Closure(l.frame.value, f.cut.value));
    } else {
      assert Causes(fates) + [] == Causes(fates) && l'.closures == l.closures;
    }
  }

  /** An arrival whose fate and effect are known. */
  lemma ArrivalTells(cfg: Config, all: seq<Arrival>, fates: seq<Fate>, l: Ledger, l': Ledger, a: Arrival, f: Fate)
    requires Tells(cfg, all, fates, l) && Befalls(cfg, all, fates, a, f)
    requires Moves(l, l', a, f, Restarts(all)) && CountsMove(cfg, all, l, l', a, f)
    requires l'.peer == (if a.Came? && a.sender != "" then a.sender else l.peer)
    requires l'.lastArrival == (if a.Came? then Some(a.at) else l.lastArrival)
    ensures Tells(cfg, all + [a], fates + [f], l')
  {
    FatesGoOn(cfg, all, fates, a, f);
    FramesGoOn(all, fates, l, l', a, f);
    CountsGoOn(cfg, all, fates, l, l', a, f);
    PastGoesOn(cfg, all, a);
    hide AreFates, FramesFit, IsCounted, LastNamed, LastCame, CountsMove, Befalls, JoinsAt;
  }

  /** What befalls a message, by the datagram that holds its channel. */
  function MessageFate(l: Ledger, m: Message): Fate {
    var cut := !m.channel.NoChannel? && Held(l, m).Some? && Held(l, m) != Some(l.packet);
    Fate(|l.closures| + if cut then 1 else 0,
         if m.channel.NoChannel? then Refused else if Held(l, m) == Some(l.packet) then Repeats
         else if m.value.None? then Refused else Joins,
         if cut then Some(Repeat) else None)
  }

  lemma MessageBefalls(cfg: Config, all: seq<Arrival>, fates: seq<Fate>, l: Ledger, m: Message, receiveTime: real, peer: string)
    requires Tells(cfg, all, fates, l) && (l.frame.Some? ==> DistinctChannels(l.frame.value.entries))
    ensures Befalls(cfg, all, fates, Told(m, l.packet, receiveTime, peer), MessageFate(l, m))
  {
    hide AreFates, FramesFit, IsCounted, HasFilled, OtherHasFilled, IsOpen, DistinctChannels, LastNamed, LastCame, Holder;
    CurrentIs(cfg, all, fates, l);
    HeldIs(all, fates, l, m, l.packet);
  }

  lemma MessageMoves(cfg: Config, past: seq<Arrival>, l: Ledger, m: Message, receiveTime: real, peer: string)
    ensures var l', a, f := Take(l, m, receiveTime, peer), Told(m, l.packet, receiveTime, peer), MessageFate(l, m);
            && Moves(l, l', a, f, l.stats.sessionRestarts) && CountsMove(cfg, past, l, l', a, f)
            && l'.peer == l.peer && l'.lastArrival == l.lastArrival && l'.packet == l.packet
  {
    hide Holder, SamplesOf;
  }

  lemma TakeTells(cfg: Config, all: seq<Arrival>, fates: seq<Fate>, l: Ledger, m: Message, receiveTime: real, peer: string)
    requires Tells(cfg, all, fates, l) && (l.frame.Some? ==> DistinctChannels(l.frame.value.entries))
    ensures var a := Told(m, l.packet, receiveTime, peer);
            Tells(cfg, all + [a], fates + [MessageFate(l, m)], Take(l, m, receiveTime, peer))
    ensures Take(l, m, receiveTime, peer).packet == l.packet
  {
    hide AreFates, FramesFit, Moves, CountsMove, Befalls, Take, MessageFate, LastNamed, LastCame, DistinctChannels;
    MessageBefalls(cfg, all, fates, l, m, receiveTime, peer);
    MessageMoves(cfg, all, l, m, receiveTime, peer);
    ArrivalTells(cfg, all, fates, l, Take(l, m, receiveTime, peer), Told(m, l.packet, receiveTime, peer), MessageFate(l, m));
  }

  /** What befalls a datagram that comes, by the peer named last and the open frame. */
  function CameFate(cfg: Config, l: Ledger, receiveTime: real, peer: string): Fate {
    var restarts := peer != "" && l.peer != "" && peer != l.peer;
    var overdue := l.frame.Some? && cfg.frameWindowSeconds > 0.0 && receiveTime - l.frame.value.receiveTime > cfg.frameWindowSeconds;
    var cut := if l.frame.None? then None else if restarts then Some(Restart) else if overdue then Some(Gap) else None;
    Fate(|l.closures| + if cut.Some? then 1 else 0, Nothing, cut)
  }

  lemma CameBefalls(cfg: Config, all: seq<Arrival>, fates: seq<Fate>, l: Ledger, receiveTime: real, peer: string)
    requires Tells(cfg, all, fates, l)
    ensures Befalls(cfg, all, fates, Came(receiveTime, peer), CameFate(cfg, l, receiveTime, peer))
  {
    hide AreFates, FramesFit, IsCounted, IsOverdue, IsOpen, LastNamed, LastCame;
    CurrentIs(cfg, all, fates, l);
  }

  lemma CameMoves(cfg: Config, past: seq<Arrival>, l: Ledger, receiveTime: real, peer: string)
    requires l.peer == LastNamed(past) && l.lastArrival == LastCame(past)
    ensures var l', a, f := Arrive(cfg, l, receiveTime, peer), Came(receiveTime, peer), CameFate(cfg, l, receiveTime, peer);
            && Moves(l, l', a, f, Restarts(past)) && CountsMove(cfg, past, l, l', a, f)
            && l'.peer == (if peer != "" then peer else l.peer) && l'.lastArrival == Some(receiveTime)
            && l'.packet == l.packet + 1
  {
    hide SamplesOf, LastNamed, LastCame, Restarts;
  }

  lemma ArriveTells(cfg: Config, all: seq<Arrival>, fates: seq<Fate>, l: Ledger, receiveTime: real, peer: string)
    requires Tells(cfg, all, fates, l)
    ensures Tells(cfg, all + [Came(receiveTime, peer)], fates + [CameFate(cfg, l, receiveTime, peer)], Arrive(cfg, l, receiveTime, peer))
    ensures Arrive(cfg, l, receiveTime, peer).packet == l.packet + 1
  {
    hide AreFates, FramesFit, IsCounted, Moves, CountsMove, Befalls, Arrive, CameFate, LastNamed, LastCame;
    CameBefalls(cfg, all, fates, l, receiveTime, peer);
    CameMoves(cfg, all, l, receiveTime, peer);
    ArrivalTells(cfg, all, fates, l, Arrive(cfg, l, receiveTime, peer), Came(receiveTime, peer), CameFate(cfg, l, receiveTime, peer));
  }

  function FlushFate(l: Ledger): Fate {
    Fate(|l.closures| + if l.frame.Some? then 1 else 0, Nothing, if l.frame.Some? then Some(Flush) else None)
  }

  lemma FlushTells(cfg: Config, all: seq<Arrival>, fates: seq<Fate>, l: Ledger)
    requires Tells(cfg, all, fates, l)
    ensures Tells(cfg, all + [FlushMark], fates + [FlushFate(l)], Close(l, Flush))
    ensures Close(l, Flush).packet == l.packet
  {
    hide AreFates, FramesFit, IsCounted, IsOpen, LastNamed, LastCame, Restarts, SamplesOf;
    CurrentIs(cfg, all, fates, l);
    ArrivalTells(cfg, all, fates, l, Close(l, Flush), FlushMark, FlushFate(l));
  }

  // ---- Whole runs ----

  lemma OpenIsDistinct(cfg: Config, l: Ledger, receiveTime: real, peer: string)
    requires Ready(cfg, l, receiveTime, peer)
    ensures l.frame.Some? ==> DistinctChannels(l.frame.value.entries)
  {
    hide DistinctChannels, SessionsBegin, Contents;
  }

  lemma {:induction false} TakeAllTells(cfg: Config, all: seq<Arrival>, fates: seq<Fate>, l: Ledger, messages: seq<Message>,
                                        receiveTime: real, peer: string)
    returns (more: seq<Fate>)
    requires Tells(cfg, all, fates, l) && Ready(cfg, l, receiveTime, peer)
    ensures Tells(cfg, all + Messages(messages, l.packet, receiveTime, peer), more, TakeAll(l, messages, receiveTime, peer))
    ensures TakeAll(l, messages, receiveTime, peer).packet == l.packet
  {
    hide Tells, Take, Ready;
    if messages == [] {
      more := fates;
      assert all + [] == all;
    } else {
      var last := |messages| - 1;
      var front := messages[..last];
      var before := TakeAllTells(cfg, all, fates, l, front, receiveTime, peer);
      TakeAllKeeps(cfg, l, front, receiveTime, peer);
      var l' := TakeAll(l, front, receiveTime, peer);
      var earlier := all + Messages(front, l.packet, receiveTime, peer);
      OpenIsDistinct(cfg, l', receiveTime, peer);
      TakeTells(cfg, earlier, before, l', messages[last], receiveTime, peer);
      more := before + [MessageFate(l', messages[last])];
      assert all + Messages(messages, l.packet, receiveTime, peer) == earlier + [Told(messages[last], l.packet, receiveTime, peer)];
    }
  }

  lemma StartTells(cfg: Config)
    ensures Tells(cfg, [], [], START)
  {
    hide Befalls;
    assert AreFates(cfg, [], []);
  }

  /**
   Every run told from its events alone. Each arrival has its fate, the only one it can have: a value
   joins the current frame unless it has no channel, is refused, or its own datagram has filled that
   channel there; and the frame ends exactly where another datagram has filled it, a datagram names
   another peer, one comes beyond the window of the frame's first value, or a flush stands. The frames
   of the run are those the fates make, each with its causes and start, and every count is a count of fates.
   */
  lemma {:induction false} EventsTell(cfg: Config, events: seq<Event>) returns (fates: seq<Fate>)
    ensures Tells(cfg, Arrivals(events), fates, Run(cfg, events)) && Run(cfg, events).packet == Pushes(events)
  {
    hide Tells, Arrive, TakeAll, Close, Kept, Messages;
    if events == [] {
      fates := [];
      StartTells(cfg);
    } else {
      var front, last := events[..|events| - 1], events[|events| - 1];
      var before := EventsTell(cfg, front);
      var l := Run(cfg, front);
      RunKeeps(cfg, front);
      match last {
        case Pushed(messages, receiveTime, peer) =>
          ArriveTells(cfg, Arrivals(front), before, l, receiveTime, peer);
          ArrivalKeeps(cfg, l, receiveTime, peer);
          var all := Arrivals(front) + [Came(receiveTime, peer)];
          fates := TakeAllTells(cfg, all, before + [CameFate(cfg, l, receiveTime, peer)], Arrive(cfg, l, receiveTime, peer),
                                messages, receiveTime, peer);
          assert Arrivals(events) == all + Messages(messages, Pushes(events), receiveTime, peer);
        case Flushed =>
          FlushTells(cfg, Arrivals(front), before, l);
          fates := before + [FlushFate(l)];
      }
    }
  }

  lemma BefallsOnce(cfg: Config, past: seq<Arrival>, fates: seq<Fate>, a: Arrival, f: Fate, f': Fate)
    requires Befalls(cfg, past, fates, a, f) && Befalls(cfg, past, fates, a, f')
    ensures f == f'
  {
    hide Cut, HowOf;
  }

  /** No arrivals have two lists of fates. */
  lemma {:induction false} FatesAreUnique(cfg: Config, all: seq<Arrival>, one: seq<Fate>, other: seq<Fate>)
    requires AreFates(cfg, all, one) && AreFates(cfg, all, other)
    ensures one == other
  {
    hide Befalls;
    if all != [] {
      var last := |all| - 1;
      FatesOfPrefix(cfg, all, one, last);
      FatesOfPrefix(cfg, all, other, last);
      FatesAreUnique(cfg, all[..last], one[..last], other[..last]);
      BefallsOnce(cfg, all[..last], one[..last], all[last], one[last], other[last]);
      assert one == one[..last] + [one[last]] && other == other[..last] + [other[last]];
    }
  }

  lemma FatesOfPrefix(cfg: Config, all: seq<Arrival>, fates: seq<Fate>, n: nat)
    requires AreFates(cfg, all, fates) && n <= |all|
    ensures AreFates(cfg, all[..n], fates[..n])
  {
    hide Befalls;
    forall k | 0 <= k < n
      ensures Befalls(cfg, all[..n][..k], fates[..n][..k], all[..n][k], fates[..n][k])
    {
      assert all[..n][..k] == all[..k] && fates[..n][..k] == fates[..k];
    }
  }

  // ---- The order of samples ----

  /** Where a tracker is first heard of, or past the end. */
  function FirstOf(entries: seq<Entry>, tracker: string): (k: nat)
    ensures k <= |entries| && (k < |entries| ==> entries[k].tracker == tracker)
    ensures forall i :: 0 <= i < k ==> entries[i].tracker != tracker
  {
    if entries == [] || entries[0].tracker == tracker then 0 else 1 + FirstOf(entries[1..], tracker)
  }

  lemma FirstStays(entries: seq<Entry>, e: Entry, tracker: string)
    ensures FirstOf(entries + [e], tracker) ==
              if FirstOf(entries, tracker) < |entries| then FirstOf(entries, tracker)
              else if e.tracker == tracker then |entries| else |entries| + 1
  {
    var more, k := entries + [e], FirstOf(entries + [e], tracker);
    assert forall i :: 0 <= i < |entries| ==> more[i] == entries[i];
    assert more[|entries|] == e;
  }

  predicate HasSample(samples: seq<Sample>, tracker: string) {
    exists i :: 0 <= i < |samples| && samples[i].tracker == tracker
  }

  /** The samples stand in the order their trackers were first heard of, each with the time of that. */
  ghost predicate InOrder(samples: seq<Sample>, entries: seq<Entry>) {
    && (forall i :: 0 <= i < |samples| ==> IsFirst(entries, samples[i].tracker, samples[i].receiveTime))
    && (forall i, k :: 0 <= i < k < |samples| ==> FirstOf(entries, samples[i].tracker) < FirstOf(entries, samples[k].tracker))
    && forall j :: 0 <= j < |entries| ==> HasSample(samples, entries[j].tracker)
  }

  predicate IsFirst(entries: seq<Entry>, tracker: string, at: real) {
    FirstOf(entries, tracker) < |entries| && entries[FirstOf(entries, tracker)].at == at
  }

  lemma {:induction false} SamplesAreInOrder(entries: seq<Entry>)
    ensures InOrder(SamplesOf(entries), entries)
  {
    hide InOrder, FirstOf, IndexOf;
    if entries == [] {
      NothingInOrder();
    } else {
      var front, e := entries[..|entries| - 1], entries[|entries| - 1];
      SamplesAreInOrder(front);
      OneMoreInOrder(SamplesOf(front), front, e);
      assert entries == front + [e];
    }
  }

  lemma NothingInOrder()
    ensures InOrder([], [])
  {
  }

  /** Placing a value adds a sample where its tracker has none, and keeps the trackers and times there are. */
  lemma PlacedKeeps(samples: seq<Sample>, e: Entry)
    ensures var placed := Placed(samples, e);
            && |placed| == |samples| + (if HasSample(samples, e.tracker) then 0 else 1)
            && (forall i :: 0 <= i < |samples| ==> placed[i].tracker == samples[i].tracker && placed[i].receiveTime == samples[i].receiveTime)
            && (!HasSample(samples, e.tracker) ==> placed[|samples|].tracker == e.tracker && placed[|samples|].receiveTime == e.at)
  {
  }

  lemma FirstStill(entries: seq<Entry>, e: Entry, tracker: string, at: real)
    requires IsFirst(entries, tracker, at)
    ensures IsFirst(entries + [e], tracker, at) && FirstOf(entries + [e], tracker) == FirstOf(entries, tracker)
  {
    hide FirstOf;
    FirstStays(entries, e, tracker);
  }

  lemma FirstIsHeard(samples: seq<Sample>, entries: seq<Entry>, e: Entry)
    requires InOrder(samples, entries) && !HasSample(samples, e.tracker)
    ensures IsFirst(entries + [e], e.tracker, e.at) && FirstOf(entries + [e], e.tracker) == |entries|
  {
    hide FirstOf, IsFirst;
    FirstStays(entries, e, e.tracker);
    forall j | 0 <= j < |entries|
      ensures entries[j].tracker != e.tracker
    {
      assert HasSample(samples, entries[j].tracker);
    }
    FirstAtEnd(entries, e);
  }

  lemma FirstAtEnd(entries: seq<Entry>, e: Entry)
    requires FirstOf(entries + [e], e.tracker) == |entries|
    ensures IsFirst(entries + [e], e.tracker, e.at)
  {
    hide FirstOf;
  }

  lemma OneMoreInOrder(samples: seq<Sample>, entries: seq<Entry>, e: Entry)
    requires InOrder(samples, entries)
    ensures InOrder(Placed(samples, e), entries + [e])
  {
    hide FirstOf, Placed, IsFirst, HasSample;
    var more, placed := entries + [e], Placed(samples, e);
    PlacedKeeps(samples, e);
    if !HasSample(samples, e.tracker) {
      FirstIsHeard(samples, entries, e);
    }
    forall i | 0 <= i < |samples|
      ensures IsFirst(more, placed[i].tracker, placed[i].receiveTime)
      ensures FirstOf(more, placed[i].tracker) == FirstOf(entries, samples[i].tracker) < |entries|
    {
      FirstStill(entries, e, samples[i].tracker, samples[i].receiveTime);
      FirstIsInside(entries, samples[i].tracker, samples[i].receiveTime);
    }
    forall j | 0 <= j < |more|
      ensures HasSample(placed, more[j].tracker)
    {
      if j < |entries| {
        assert more[j] == entries[j];
        SampleStays(samples, e, more[j].tracker);
      } else {
        SampleIsThere(samples, e);
      }
    }
  }

  lemma FirstIsInside(entries: seq<Entry>, tracker: string, at: real)
    requires IsFirst(entries, tracker, at)
    ensures FirstOf(entries, tracker) < |entries|
  {
  }

  lemma SampleStays(samples: seq<Sample>, e: Entry, tracker: string)
    requires HasSample(samples, tracker)
    ensures HasSample(Placed(samples, e), tracker)
  {
    hide Placed;
    PlacedKeeps(samples, e);
    var i :| 0 <= i < |samples| && samples[i].tracker == tracker;
    assert Placed(samples, e)[i].tracker == tracker;
  }

  lemma SampleIsThere(samples: seq<Sample>, e: Entry)
    ensures HasSample(Placed(samples, e), e.tracker)
  {
    hide Placed;
    PlacedKeeps(samples, e);
    if HasSample(samples, e.tracker) {
      SampleStays(samples, e, e.tracker);
    } else {
      assert Placed(samples, e)[|samples|].tracker == e.tracker;
    }
  }
}
