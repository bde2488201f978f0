/**
 What the VMC assembler promises over whole runs: frames partition what was accepted, clocks advance
 within a session, and missing and stale bones are what the session's own frames make them.
 */
module VmcRuns {
  import opened Bytes
  import opened VmcFrames

  // ---- Frames partition what was accepted ----

  function Contents(closures: seq<Closure>): seq<Entry> {
    if closures == [] then [] else Contents(closures[..|closures| - 1]) + closures[|closures| - 1].entries
  }

  lemma ContentsAppend(closures: seq<Closure>, c: Closure)
    ensures Contents(closures + [c]) == Contents(closures) + c.entries
  {
    assert (closures + [c])[..|closures|] == closures;
  }

  function OpenEntries(l: Ledger): seq<Entry> {
    if l.frame.Some? then l.frame.value.entries else []
  }

  /** The accepted entries, in order, are the frames' entries, frame by frame; no frame fills a slot twice. */
  ghost predicate Partitioned(l: Ledger) {
    && l.accepted == Contents(l.closures) + OpenEntries(l)
    && (l.frame.Some? ==> l.frame.value.entries != [])
    && DistinctSlots(OpenEntries(l))
    && forall c :: c in l.closures ==> c.entries != [] && DistinctSlots(c.entries)
  }

  function BoneCount(entries: seq<Entry>): nat {
    if entries == [] then 0
    else BoneCount(entries[..|entries| - 1]) + if entries[|entries| - 1].item.BoneItem? then 1 else 0
  }

  function RootCount(entries: seq<Entry>): nat {
    if entries == [] then 0
    else RootCount(entries[..|entries| - 1]) + if entries[|entries| - 1].item.RootItem? then 1 else 0
  }

  function ExpressionCount(entries: seq<Entry>): nat {
    if entries == [] then 0
    else ExpressionCount(entries[..|entries| - 1]) + if entries[|entries| - 1].item.ExpressionItem? then 1 else 0
  }

  /** How many closures ended one way. */
  function EndedEmpty(closures: seq<Closure>): nat {
    if closures == [] then 0
    else EndedEmpty(closures[..|closures| - 1]) + if closures[|closures| - 1].outcome.RefusedEmpty? then 1 else 0
  }

  function EndedOutOfOrder(closures: seq<Closure>): nat {
    if closures == [] then 0
    else EndedOutOfOrder(closures[..|closures| - 1]) + if closures[|closures| - 1].outcome.RefusedOutOfOrder? then 1 else 0
  }

  /** How many frames began a session, and how many lacked a bone of theirs. */
  function Begun(closures: seq<Closure>): nat {
    if closures == [] then 0
    else
      var last := closures[|closures| - 1].outcome;
      Begun(closures[..|closures| - 1]) + if last.Emitted? && last.frame.beginsNewSession then 1 else 0
  }

  function Lacking(closures: seq<Closure>): nat {
    if closures == [] then 0
    else
      var last := closures[|closures| - 1].outcome;
      Lacking(closures[..|closures| - 1]) + if last.Emitted? && last.frame.missing != {} then 1 else 0
  }

  ghost predicate Tallied(l: Ledger) {
    && l.stats.bonesAccepted == BoneCount(l.accepted)
    && l.stats.rootsAccepted == RootCount(l.accepted)
    && l.stats.expressionsAccepted == ExpressionCount(l.accepted)
    && l.stats.framesEmitted == |Emissions(l.closures)|
    && l.stats.framesRefusedEmpty == EndedEmpty(l.closures)
    && l.stats.framesRefusedOutOfOrder == EndedOutOfOrder(l.closures)
    && l.stats.sessionRestarts == Begun(l.closures)
    && l.stats.framesIncomplete == Lacking(l.closures)
  }

  // ---- Clocks ----

  /** Within a session emitted clocks advance; a session begins exactly where they fall back far enough. */
  ghost predicate ClocksAdvance(cfg: Config, emitted: seq<Outcome>)
    requires forall i :: 0 <= i < |emitted| ==> emitted[i].Emitted?
  {
    && (emitted != [] ==> !emitted[0].frame.beginsNewSession)
    && forall i :: 0 <= i < |emitted| - 1 ==> Follows(cfg, emitted[i].frame, emitted[i + 1].frame)
  }

  predicate Follows(cfg: Config, one: VmcFrame, next: VmcFrame) {
    if next.beginsNewSession
    then cfg.restartBackwardsSeconds > 0.0 && one.timestamp - next.timestamp > cfg.restartBackwardsSeconds
    else one.timestamp < next.timestamp
  }

  /** A frame's clock against the last one accepted. */
  predicate Advances(cfg: Config, last: Option<real>, next: VmcFrame) {
    if next.beginsNewSession
    then last.Some? && cfg.restartBackwardsSeconds > 0.0 && last.value - next.timestamp > cfg.restartBackwardsSeconds
    else last.Some? ==> last.value < next.timestamp
  }

  ghost predicate Clocked(cfg: Config, l: Ledger) {
    var emitted := Emissions(l.closures);
    && ClocksAdvance(cfg, emitted)
    && l.lastAccepted == if emitted == [] then None else Some(emitted[|emitted| - 1].frame.timestamp)
  }

  // ---- Sessions ----

  /** The bones carried since the session began, and when each was carried last. */
  function SessionBones(emitted: seq<Outcome>): set<nat>
    requires forall i :: 0 <= i < |emitted| ==> emitted[i].Emitted?
    decreases |emitted|, 1
  {
    if emitted == [] then {} else Before(emitted) + emitted[|emitted| - 1].frame.rotations.Keys
  }

  /** The bones of the session that the last emission belongs to, before that emission. */
  function Before(emitted: seq<Outcome>): set<nat>
    requires emitted != [] && forall i :: 0 <= i < |emitted| ==> emitted[i].Emitted?
    decreases |emitted|, 0
  {
    if emitted[|emitted| - 1].frame.beginsNewSession then {} else SessionBones(emitted[..|emitted| - 1])
  }

  function LastCarried(emitted: seq<Outcome>, bone: nat): real
    requires forall i :: 0 <= i < |emitted| ==> emitted[i].Emitted?
  {
    if emitted == [] then 0.0
    else
      var last := emitted[|emitted| - 1].frame;
      if bone in last.rotations then last.timestamp
      else if last.beginsNewSession then 0.0
      else LastCarried(emitted[..|emitted| - 1], bone)
  }

  /** A bone reported stale and neither carried nor forgotten since. */
  predicate Reported(emitted: seq<Outcome>, bone: nat)
    requires forall i :: 0 <= i < |emitted| ==> emitted[i].Emitted?
  {
    emitted != [] &&
    var last := emitted[|emitted| - 1];
    && bone !in last.frame.rotations
    && (bone in last.crossed || (!last.frame.beginsNewSession && Reported(emitted[..|emitted| - 1], bone)))
  }

  /** The horizon is set, and a bone was carried last longer ago than it. */
  predicate IsSilent(cfg: Config, carried: real, now: real) {
    cfg.stalenessSeconds > 0.0 && now - carried > cfg.stalenessSeconds
  }

  /** What the last emission says is missing, stale and newly stale, given those before it. */
  ghost predicate Measured(cfg: Config, emitted: seq<Outcome>)
    requires emitted != [] && forall i :: 0 <= i < |emitted| ==> emitted[i].Emitted?
  {
    var last, front := emitted[|emitted| - 1], emitted[..|emitted| - 1];
    && last.frame.missing == Before(emitted) - last.frame.rotations.Keys
    && (forall b :: b in last.frame.stale <==>
          b in last.frame.missing && IsSilent(cfg, LastCarried(front, b), last.frame.timestamp))
    && (forall b :: b in last.crossed <==> b in last.frame.stale && !Reported(front, b))
  }

  function CrossedCount(emitted: seq<Outcome>): nat
    requires forall i :: 0 <= i < |emitted| ==> emitted[i].Emitted?
  {
    if emitted == [] then 0 else CrossedCount(emitted[..|emitted| - 1]) + |emitted[|emitted| - 1].crossed|
  }

  /** The session's account of one moment: `l` without its history. */
  ghost predicate Accounts(l: Ledger, emitted: seq<Outcome>)
    requires forall i :: 0 <= i < |emitted| ==> emitted[i].Emitted?
  {
    && l.observed == SessionBones(emitted)
    && (forall b :: LastSeen(l.lastSeen, b) == LastCarried(emitted, b))
    && forall b :: b in l.reportedStale <==> Reported(emitted, b)
  }

  ghost predicate Sessioned(cfg: Config, l: Ledger) {
    var emitted := Emissions(l.closures);
    && Accounts(l, emitted)
    && (forall i :: 0 < i <= |emitted| ==> Measured(cfg, emitted[..i]))
    && l.stats.stalenessCrossings == CrossedCount(emitted)
  }

  // ---- What every step keeps ----

  ghost predicate Kept(cfg: Config, l: Ledger) {
    Partitioned(l) && Tallied(l) && Clocked(cfg, l) && Sessioned(cfg, l)
  }

  /** What closing an open frame does to everything but the session's memory. */
  lemma CloseEnds(cfg: Config, l: Ledger)
    requires l.frame.Some?
    ensures var l' := Close(cfg, l);
            && |l'.closures| == |l.closures| + 1 && l'.closures == l.closures + [l'.closures[|l.closures|]]
            && l'.closures[|l.closures|].entries == l.frame.value.entries
            && l'.frame.None? && l'.accepted == l.accepted && l'.packet == l.packet
    ensures var l' := Close(cfg, l);
            var outcome := l'.closures[|l.closures|].outcome;
            && l'.stats.bonesAccepted == l.stats.bonesAccepted && l'.stats.rootsAccepted == l.stats.rootsAccepted
            && l'.stats.expressionsAccepted == l.stats.expressionsAccepted
            && l'.stats.framesEmitted == l.stats.framesEmitted + (if outcome.Emitted? then 1 else 0)
            && l'.stats.framesRefusedEmpty == l.stats.framesRefusedEmpty + (if outcome.RefusedEmpty? then 1 else 0)
            && l'.stats.framesRefusedOutOfOrder == l.stats.framesRefusedOutOfOrder + (if outcome.RefusedOutOfOrder? then 1 else 0)
            && l'.stats.sessionRestarts == l.stats.sessionRestarts + (if outcome.Emitted? && outcome.frame.beginsNewSession then 1 else 0)
            && l'.stats.framesIncomplete == l.stats.framesIncomplete + (if outcome.Emitted? && outcome.frame.missing != {} then 1 else 0)
    ensures var l' := Close(cfg, l);
            var outcome := l'.closures[|l.closures|].outcome;
            if outcome.Emitted? then l'.lastAccepted == Some(outcome.frame.timestamp) && Advances(cfg, l.lastAccepted, outcome.frame)
            else l'.lastAccepted == l.lastAccepted
  {
    hide HasContent, TimestampOf, RotationsOf, ChannelsOf, RootOf, HipsOffsetOf, StaleAmong, SeenAt;
  }

  lemma ClosePartitions(cfg: Config, l: Ledger)
    requires Partitioned(l)
    ensures Partitioned(Close(cfg, l)) && Close(cfg, l).frame.None? && Close(cfg, l).accepted == l.accepted
    ensures Close(cfg, l).packet == l.packet
  {
    hide DistinctSlots, Contents, Close, Advances;
    NothingRepeats();
    if l.frame.Some? {
      CloseEnds(cfg, l);
      ContentsAppend(l.closures, Close(cfg, l).closures[|l.closures|]);
    } else {
      CloseIsNothing(cfg, l);
    }
  }

  lemma CloseTallies(cfg: Config, l: Ledger)
    requires Tallied(l)
    ensures Tallied(Close(cfg, l))
  {
    hide Close, Advances, BoneCount, RootCount, ExpressionCount, EndedEmpty, EndedOutOfOrder, Begun, Lacking, Emissions;
    if l.frame.Some? {
      CloseEnds(cfg, l);
      EndingsAppend(l.closures, Close(cfg, l).closures[|l.closures|]);
    } else {
      CloseIsNothing(cfg, l);
    }
  }

  lemma CloseClocks(cfg: Config, l: Ledger)
    requires Clocked(cfg, l)
    ensures Clocked(cfg, Close(cfg, l))
  {
    hide Close, Advances, ClocksAdvance, Emissions;
    if l.frame.Some? {
      CloseEnds(cfg, l);
      var c, emitted := Close(cfg, l).closures[|l.closures|], Emissions(l.closures);
      EmissionsAppend(l.closures, c);
      if c.outcome.Emitted? {
        ClockAppends(cfg, emitted, c.outcome);
      } else {
        assert emitted + [] == emitted;
      }
    } else {
      CloseIsNothing(cfg, l);
    }
  }

  lemma CloseIsNothing(cfg: Config, l: Ledger)
    requires l.frame.None?
    ensures Close(cfg, l) == l
  {
  }

  lemma EndingsAppend(closures: seq<Closure>, c: Closure)
    ensures EndedEmpty(closures + [c]) == EndedEmpty(closures) + if c.outcome.RefusedEmpty? then 1 else 0
    ensures EndedOutOfOrder(closures + [c]) == EndedOutOfOrder(closures) + if c.outcome.RefusedOutOfOrder? then 1 else 0
    ensures |Emissions(closures + [c])| == |Emissions(closures)| + if c.outcome.Emitted? then 1 else 0
    ensures Begun(closures + [c]) == Begun(closures) + if c.outcome.Emitted? && c.outcome.frame.beginsNewSession then 1 else 0
    ensures Lacking(closures + [c]) == Lacking(closures) + if c.outcome.Emitted? && c.outcome.frame.missing != {} then 1 else 0
  {
    assert (closures + [c])[..|closures|] == closures;
  }

  /** One more emission, whose clock advances on the last or falls back beyond the bound. */
  lemma ClockAppends(cfg: Config, emitted: seq<Outcome>, last: Outcome)
    requires last.Emitted? && forall i :: 0 <= i < |emitted| ==> emitted[i].Emitted?
    requires ClocksAdvance(cfg, emitted)
    requires Advances(cfg, if emitted == [] then None else Some(emitted[|emitted| - 1].frame.timestamp), last.frame)
    ensures ClocksAdvance(cfg, emitted + [last])
  {
    var more := emitted + [last];
    forall i | 0 <= i < |more| - 1
      ensures Follows(cfg, more[i].frame, more[i + 1].frame)
    {
      if i < |emitted| - 1 {
        assert Follows(cfg, emitted[i].frame, emitted[i + 1].frame);
      }
    }
  }

  lemma NothingRepeats()
    ensures DistinctSlots([])
  {
  }

  /** What one more emission makes of one bone's history. */
  lemma BoneGoesOn(before: seq<Outcome>, last: Outcome, b: nat)
    requires last.Emitted? && forall i :: 0 <= i < |before| ==> before[i].Emitted?
    ensures LastCarried(before + [last], b) ==
      if b in last.frame.rotations then last.frame.timestamp
      else if last.frame.beginsNewSession then 0.0
      else LastCarried(before, b)
    ensures Reported(before + [last], b) <==>
      b !in last.frame.rotations && (b in last.crossed || (!last.frame.beginsNewSession && Reported(before, b)))
  {
    assert (before + [last])[..|before|] == before;
  }

  /** What an emission makes of a session's memory, bone by bone. */
  lemma AccountsGoOn(l: Ledger, l': Ledger, before: seq<Outcome>, last: Outcome)
    requires last.Emitted? && forall i :: 0 <= i < |before| ==> before[i].Emitted?
    requires if last.frame.beginsNewSession then l.observed == {} && l.reportedStale == {} && l.lastSeen == map[]
             else Accounts(l, before)
    requires last.crossed == last.frame.stale - l.reportedStale
    requires var bones := last.frame.rotations.Keys;
             && l'.observed == l.observed + bones
             && l'.reportedStale == (l.reportedStale + last.frame.stale) - bones
             && l'.lastSeen == SeenAt(l.lastSeen, bones, last.frame.timestamp)
    ensures Accounts(l', before + [last])
  {
    hide LastCarried, Reported;
    var emitted := before + [last];
    assert emitted[..|emitted| - 1] == before && emitted[|emitted| - 1] == last;
    assert Before(emitted) == if last.frame.beginsNewSession then {} else SessionBones(before);
    assert l'.observed == SessionBones(emitted);
    forall b
      ensures LastSeen(l'.lastSeen, b) == LastCarried(emitted, b)
      ensures b in l'.reportedStale <==> Reported(emitted, b)
    {
      BoneGoesOn(before, last, b);
      if !last.frame.beginsNewSession {
        assert LastSeen(l.lastSeen, b) == LastCarried(before, b);
        assert b in l.reportedStale <==> Reported(before, b);
      }
    }
  }

  lemma EmissionAccounts(cfg: Config, l: Ledger, before: seq<Outcome>, f: OpenFrame, timestamp: real, restart: bool)
    requires forall i :: 0 <= i < |before| ==> before[i].Emitted?
    requires Accounts(l, before)
    ensures var l0 := if restart then Forgotten(l) else l;
            var frame := EmittedFrame(cfg, l0, f, timestamp, restart);
            var last := Emitted(frame, frame.stale - l0.reportedStale);
            Accounts(Emit(cfg, l0, f, timestamp, restart), before + [last]) && Measured(cfg, before + [last])
  {
    hide RotationsOf, ChannelsOf, RootOf, HipsOffsetOf, ClockOf, StaleAmong, SeenAt, Accounts, Measured;
    var l0 := if restart then Forgotten(l) else l;
    var frame := EmittedFrame(cfg, l0, f, timestamp, restart);
    AccountsGoOn(l0, Emit(cfg, l0, f, timestamp, restart), before, Emitted(frame, frame.stale - l0.reportedStale));
    EmissionMeasures(cfg, l, before, f, timestamp, restart);
  }

  lemma EmissionMeasures(cfg: Config, l: Ledger, before: seq<Outcome>, f: OpenFrame, timestamp: real, restart: bool)
    requires forall i :: 0 <= i < |before| ==> before[i].Emitted?
    requires Accounts(l, before)
    ensures var l0 := if restart then Forgotten(l) else l;
            var frame := EmittedFrame(cfg, l0, f, timestamp, restart);
            Measured(cfg, before + [Emitted(frame, frame.stale - l0.reportedStale)])
  {
    hide RotationsOf, ChannelsOf, RootOf, HipsOffsetOf, ClockOf, LastCarried, Reported, SessionBones, LastSeen;
    var l0 := if restart then Forgotten(l) else l;
    var frame := EmittedFrame(cfg, l0, f, timestamp, restart);
    var last := Emitted(frame, frame.stale - l0.reportedStale);
    var emitted := before + [last];
    assert emitted[..|emitted| - 1] == before && emitted[|emitted| - 1] == last;
    assert frame.missing == Before(emitted) - frame.rotations.Keys;
    forall b
      ensures b in frame.stale <==> b in frame.missing && IsSilent(cfg, LastCarried(before, b), timestamp)
    {
      if !restart {
        assert LastSeen(l.lastSeen, b) == LastCarried(before, b);
      }
    }
  }

  lemma OneMoreMeasured(cfg: Config, before: seq<Outcome>, last: Outcome)
    requires last.Emitted? && forall i :: 0 <= i < |before| ==> before[i].Emitted?
    requires forall i :: 0 < i <= |before| ==> Measured(cfg, before[..i])
    requires Measured(cfg, before + [last])
    ensures forall i :: 0 < i <= |before| + 1 ==> Measured(cfg, (before + [last])[..i])
    ensures CrossedCount(before + [last]) == CrossedCount(before) + |last.crossed|
  {
    hide Measured;
    var emitted := before + [last];
    assert emitted[..|before|] == before;
    forall i | 0 < i <= |emitted|
      ensures Measured(cfg, emitted[..i])
    {
      if i == |emitted| {
        assert emitted[..i] == emitted;
      } else {
        assert emitted[..i] == before[..i];
      }
    }
  }

  lemma EmitAdds(cfg: Config, l: Ledger, f: OpenFrame, timestamp: real, restart: bool)
    ensures var l0 := if restart then Forgotten(l) else l;
            var frame := EmittedFrame(cfg, l0, f, timestamp, restart);
            var last := Emitted(frame, frame.stale - l0.reportedStale);
            var l' := Emit(cfg, l0, f, timestamp, restart);
            && Emissions(l'.closures) == Emissions(l.closures) + [last]
            && l'.stats.stalenessCrossings == l.stats.stalenessCrossings + |last.crossed|
  {
    hide EmittedFrame, SeenAt;
    var l0 := if restart then Forgotten(l) else l;
    EmissionsAppend(l.closures, Emit(cfg, l0, f, timestamp, restart).closures[|l.closures|]);
  }

  /** The emission of one frame keeps the session's account. */
  lemma EmitSessions(cfg: Config, l: Ledger, f: OpenFrame, timestamp: real, restart: bool)
    requires Sessioned(cfg, l)
    ensures Sessioned(cfg, Emit(cfg, if restart then Forgotten(l) else l, f, timestamp, restart))
  {
    hide Emit, EmittedFrame, Measured, Accounts, Emissions, CrossedCount;
    var before := Emissions(l.closures);
    EmissionAccounts(cfg, l, before, f, timestamp, restart);
    EmitAdds(cfg, l, f, timestamp, restart);
    var l' := Emit(cfg, if restart then Forgotten(l) else l, f, timestamp, restart);
    OneMoreMeasured(cfg, before, Emissions(l'.closures)[|before|]);
  }

  lemma CloseSessions(cfg: Config, l: Ledger)
    requires Sessioned(cfg, l)
    ensures Sessioned(cfg, Close(cfg, l))
  {
    hide Sessioned, HasContent, TimestampOf, Emit;
    if l.frame.Some? {
      var f := l.frame.value;
      EmitSessions(cfg, l, f, TimestampOf(f), true);
      EmitSessions(cfg, l, f, TimestampOf(f), false);
      RefusalSessions(cfg, l, Closure(f.entries, RefusedEmpty));
      RefusalSessions(cfg, l, Closure(f.entries, RefusedOutOfOrder));
    }
  }

  lemma RefusalSessions(cfg: Config, l: Ledger, c: Closure)
    requires Sessioned(cfg, l) && !c.outcome.Emitted?
    ensures forall stats: Stats :: stats.stalenessCrossings == l.stats.stalenessCrossings ==>
              Sessioned(cfg, l.(frame := None, closures := l.closures + [c], stats := stats))
  {
    EmissionsAppend(l.closures, c);
    assert Emissions(l.closures) + [] == Emissions(l.closures);
  }

  lemma CloseKeeps(cfg: Config, l: Ledger)
    requires Kept(cfg, l)
    ensures Kept(cfg, Close(cfg, l)) && Close(cfg, l).frame.None? && Close(cfg, l).packet == l.packet
  {
    hide Partitioned, Tallied, Clocked, Sessioned, Close;
    ClosePartitions(cfg, l);
    CloseTallies(cfg, l);
    CloseClocks(cfg, l);
    CloseSessions(cfg, l);
  }

  lemma {:induction false} NoHolderNoSlot(entries: seq<Entry>, slot: Slot)
    ensures Holder(entries, slot).None? <==> forall i :: 0 <= i < |entries| ==> SlotOf(entries[i].item) != slot
  {
    if entries != [] {
      NoHolderNoSlot(entries[..|entries| - 1], slot);
    }
  }

  /** An item joining a frame where its slot is free. */
  lemma JoinKeeps(cfg: Config, l: Ledger, item: Item, receiveTime: real)
    requires Kept(cfg, l) && Holder(OpenEntries(l), SlotOf(item)).None?
    ensures Kept(cfg, Join(l, item, receiveTime))
  {
    hide Clocked, Sessioned, Tallied, Partitioned;
    JoinPartitions(l, item, receiveTime);
    JoinTallies(l, item, receiveTime);
    JoinLeaves(cfg, l, item, receiveTime);
  }

  lemma JoinPartitions(l: Ledger, item: Item, receiveTime: real)
    requires Partitioned(l) && Holder(OpenEntries(l), SlotOf(item)).None?
    ensures Partitioned(Join(l, item, receiveTime))
  {
    hide Contents, SlotOf, Holder, Counted;
    NoHolderNoSlot(OpenEntries(l), SlotOf(item));
    assert OpenEntries(Join(l, item, receiveTime)) == OpenEntries(l) + [Entry(item, l.packet)];
  }

  lemma JoinTallies(l: Ledger, item: Item, receiveTime: real)
    requires Tallied(l)
    ensures Tallied(Join(l, item, receiveTime))
  {
    hide Emissions, EndedEmpty, EndedOutOfOrder, Begun, Lacking, BoneCount, RootCount, ExpressionCount;
    OneMoreCounted(l.accepted, Entry(item, l.packet));
  }

  lemma OneMoreCounted(entries: seq<Entry>, e: Entry)
    ensures BoneCount(entries + [e]) == BoneCount(entries) + if e.item.BoneItem? then 1 else 0
    ensures RootCount(entries + [e]) == RootCount(entries) + if e.item.RootItem? then 1 else 0
    ensures ExpressionCount(entries + [e]) == ExpressionCount(entries) + if e.item.ExpressionItem? then 1 else 0
  {
    assert (entries + [e])[..|entries|] == entries;
  }

  /** Joining changes nothing that emissions decide. */
  lemma JoinLeaves(cfg: Config, l: Ledger, item: Item, receiveTime: real)
    requires Clocked(cfg, l) && Sessioned(cfg, l)
    ensures Clocked(cfg, Join(l, item, receiveTime)) && Sessioned(cfg, Join(l, item, receiveTime))
  {
    hide Emissions, ClocksAdvance, Measured, SessionBones, LastCarried, Reported, CrossedCount, LastSeen;
  }

  lemma RepeatKeeps(cfg: Config, l: Ledger, item: Item)
    requires Kept(cfg, l) && l.frame.Some?
    ensures Kept(cfg, Repeat(l, item))
  {
    hide Emissions, ClocksAdvance, Measured, SessionBones, LastCarried, Reported, Contents, CrossedCount, EndedEmpty,
         EndedOutOfOrder, Begun, Lacking, SlotOf, Holder, LastSeen, BoneCount, RootCount, ExpressionCount;
  }

  lemma AcceptKeeps(cfg: Config, l: Ledger, item: Item, receiveTime: real)
    requires Kept(cfg, l)
    ensures Kept(cfg, Accept(cfg, l, item, receiveTime))
  {
    hide Kept, Close, Join, Repeat;
    CloseKeeps(cfg, l);
    var holder := Holder(OpenEntries(l), SlotOf(item));
    if holder.None? {
      JoinKeeps(cfg, l, item, receiveTime);
    } else if !item.ClockItem? && holder.value == l.packet {
      RepeatKeeps(cfg, l, item);
    } else {
      JoinKeeps(cfg, Close(cfg, l), item, receiveTime);
    }
  }

  /** Counting a message that carries nothing, or naming the next packet, keeps everything. */
  lemma OtherwiseKept(cfg: Config, l: Ledger, stats: Stats, packet: nat)
    requires Kept(cfg, l)
    requires stats.bonesAccepted == l.stats.bonesAccepted && stats.rootsAccepted == l.stats.rootsAccepted
    requires stats.expressionsAccepted == l.stats.expressionsAccepted && stats.framesEmitted == l.stats.framesEmitted
    requires stats.framesRefusedEmpty == l.stats.framesRefusedEmpty
    requires stats.framesRefusedOutOfOrder == l.stats.framesRefusedOutOfOrder
    requires stats.stalenessCrossings == l.stats.stalenessCrossings
    requires stats.sessionRestarts == l.stats.sessionRestarts && stats.framesIncomplete == l.stats.framesIncomplete
    ensures Kept(cfg, l.(stats := stats, packet := packet))
  {
  }

  lemma TakeKeeps(cfg: Config, l: Ledger, m: Message, receiveTime: real)
    requires Kept(cfg, l)
    ensures Kept(cfg, Take(cfg, l, m, receiveTime))
  {
    hide Kept, Accept;
    match m {
      case Time(seconds) => AcceptKeeps(cfg, l, ClockItem(seconds), receiveTime);
      case BoneTransform(bone, rotation, position) =>
        AcceptKeeps(cfg, l, BoneItem(bone, rotation, position), receiveTime);
      case RootTransform(root) => AcceptKeeps(cfg, l, RootItem(root), receiveTime);
      case BlendValue(name, weight) => AcceptKeeps(cfg, l, ExpressionItem(NAMESPACE + name, weight), receiveTime);
      case _ => OtherwiseKept(cfg, l, Take(cfg, l, m, receiveTime).stats, l.packet);
    }
  }

  lemma {:induction false} TakeAllKeeps(cfg: Config, l: Ledger, messages: seq<Message>, receiveTime: real)
    requires Kept(cfg, l)
    ensures Kept(cfg, TakeAll(cfg, l, messages, receiveTime))
  {
    hide Kept, Take;
    if messages != [] {
      var front := messages[..|messages| - 1];
      TakeAllKeeps(cfg, l, front, receiveTime);
      TakeKeeps(cfg, TakeAll(cfg, l, front, receiveTime), messages[|messages| - 1], receiveTime);
    }
  }

  lemma StartIsKept(cfg: Config)
    ensures Kept(cfg, START)
  {
    hide Partitioned, Tallied, Clocked, Sessioned;
    StartPartitions();
    StartSessions(cfg);
  }

  lemma StartPartitions()
    ensures Partitioned(START) && Tallied(START)
  {
  }

  lemma StartSessions(cfg: Config)
    ensures Clocked(cfg, START) && Sessioned(cfg, START)
  {
    hide Measured;
    assert Emissions([]) == [];
  }

  /** What every run of pushes and flushes keeps. */
  lemma {:induction false} RunKeeps(cfg: Config, events: seq<Event>)
    ensures Kept(cfg, Run(cfg, events))
  {
    hide Kept, Take, Close, TakeAll;
    if events == [] {
      StartIsKept(cfg);
    } else {
      var front, last := Run(cfg, events[..|events| - 1]), events[|events| - 1];
      RunKeeps(cfg, events[..|events| - 1]);
      match last {
        case Pushed(messages, receiveTime) =>
          OtherwiseKept(cfg, front, front.stats, front.packet + 1);
          TakeAllKeeps(cfg, front.(packet := front.packet + 1), messages, receiveTime);
        case Flushed => CloseKeeps(cfg, front);
      }
    }
  }

  // ---- The promises over whole runs ----

  /**
   The frames of a run partition what it accepted: the entries of every closed frame, emitted or
   refused, and then of the open one, are the accepted entries in their order of arrival; no frame
   fills a slot twice; and each count is the count of those entries.
   */
  lemma AcceptedIsPartitioned(cfg: Config, events: seq<Event>)
    ensures Partitioned(Run(cfg, events)) && Tallied(Run(cfg, events))
  {
    hide Run, Partitioned, Tallied, Clocked, Sessioned;
    RunKeeps(cfg, events);
  }

  lemma {:induction false} FilledIsHeld(entries: seq<Entry>, bone: nat, name: string)
    ensures bone in RotationsOf(entries) <==> Holder(entries, BoneSlot(bone)).Some?
    ensures name in ChannelsOf(entries) <==> Holder(entries, ExpressionSlot(name)).Some?
  {
    if entries != [] {
      FilledIsHeld(entries[..|entries| - 1], bone, name);
    }
  }

  /** A frame's pose holds exactly as many bones and expressions as its entries accepted: none was overwritten. */
  lemma {:induction false} NothingIsOverwritten(entries: seq<Entry>)
    requires DistinctSlots(entries)
    ensures |RotationsOf(entries)| == BoneCount(entries)
    ensures |ChannelsOf(entries)| == ExpressionCount(entries)
  {
    hide Holder;
    if entries != [] {
      var front, last := entries[..|entries| - 1], entries[|entries| - 1].item;
      NothingIsOverwritten(front);
      NoHolderNoSlot(front, SlotOf(last));
      if last.BoneItem? {
        FilledIsHeld(front, last.bone, "");
        assert RotationsOf(entries).Keys == RotationsOf(front).Keys + {last.bone};
      } else if last.ExpressionItem? {
        FilledIsHeld(front, 0, last.name);
        assert ChannelsOf(entries).Keys == ChannelsOf(front).Keys + {last.name};
      }
    }
  }

  /** Emitted timestamps strictly increase, save across a frame that begins a session, which falls back beyond the bound. */
  lemma EmittedClocksAdvance(cfg: Config, events: seq<Event>)
    ensures ClocksAdvance(cfg, Emissions(Run(cfg, events).closures))
  {
    hide Run, Partitioned, Tallied, ClocksAdvance, Sessioned;
    RunKeeps(cfg, events);
  }

  /** Every emitted frame's missing, stale and newly stale bones are measured against its own session. */
  lemma EmittedFramesAreMeasured(cfg: Config, events: seq<Event>, i: nat)
    requires i < |Emissions(Run(cfg, events).closures)|
    ensures Measured(cfg, Emissions(Run(cfg, events).closures)[..i + 1])
    ensures var frame := Emissions(Run(cfg, events).closures)[i].frame;
            frame.stale <= frame.missing <= Before(Emissions(Run(cfg, events).closures)[..i + 1])
  {
    hide Run, Partitioned, Tallied, Clocked, SessionBones, Before, LastCarried, Reported;
    RunKeeps(cfg, events);
  }

  /** A bone newly reported stale twice was carried, or the session began anew, in between. */
  lemma StaleOnceBetweenUpdates(cfg: Config, events: seq<Event>, i: nat, k: nat, bone: nat)
    requires i < k < |Emissions(Run(cfg, events).closures)|
    requires var emitted := Emissions(Run(cfg, events).closures); bone in emitted[i].crossed && bone in emitted[k].crossed
    ensures var emitted := Emissions(Run(cfg, events).closures);
            exists j :: i <= j < k && (bone in emitted[j].frame.rotations || (i < j && emitted[j].frame.beginsNewSession))
  {
    hide Run, Kept, Measured;
    var emitted := Emissions(Run(cfg, events).closures);
    EmittedFramesAreMeasured(cfg, events, k);
    CrossedIsNotReported(cfg, emitted, k, bone);
    StillReported(emitted, i, k, bone);
  }

  lemma CrossedIsNotReported(cfg: Config, emitted: seq<Outcome>, k: nat, bone: nat)
    requires k < |emitted| && forall i :: 0 <= i < |emitted| ==> emitted[i].Emitted?
    requires Measured(cfg, emitted[..k + 1]) && bone in emitted[k].crossed
    ensures !Reported(emitted[..k], bone)
  {
    assert emitted[..k + 1][..k] == emitted[..k];
  }

  /** Once reported, a bone stays so until it is carried or a session begins. */
  lemma {:induction false} StillReported(emitted: seq<Outcome>, i: nat, k: nat, bone: nat)
    requires i < k <= |emitted| && forall i :: 0 <= i < |emitted| ==> emitted[i].Emitted?
    requires bone in emitted[i].crossed
    ensures Reported(emitted[..k], bone)
      || exists j :: i <= j < k && (bone in emitted[j].frame.rotations || (i < j && emitted[j].frame.beginsNewSession))
  {
    var last := k - 1;
    assert emitted[..k][..last] == emitted[..last];
    if i < last {
      StillReported(emitted, i, last, bone);
    }
  }
}
