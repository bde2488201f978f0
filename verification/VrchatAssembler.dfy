/**
 The VRChat tracker assembler as the program keeps it: samples under construction beside the datagrams
 that filled each channel of each, and the session's memory a closing frame is measured against. Its ghost
 ledger is the account of VrchatFrames; its memory is what VrchatSessions says the closed frames leave.
 */
module VrchatAssembler {
  import opened Bytes
  import opened VrchatFrames
  import opened VrchatSessions

  /** Which datagram filled each channel of one sample. */
  datatype Marks = Marks(positionBy: Option<nat>, rotationBy: Option<nat>)

  datatype Building = Building(
    open: bool,
    receiveTime: real,
    peer: string,
    beginsNewSession: bool,
    samples: seq<Sample>,
    duplicates: nat,
    marks: seq<Marks>)

  const NOTHING := Building(false, 0.0, "", false, [], 0, [])

  /** The samples are those of the entries, and each mark names the datagram that holds its channel. */
  ghost predicate Holds(b: Building, f: OpenFrame) {
    && b.open && b.receiveTime == f.receiveTime && b.peer == f.peer
    && b.beginsNewSession == f.beginsNewSession && b.duplicates == f.duplicates
    && b.samples == SamplesOf(f.entries) && |b.marks| == |b.samples|
    && forall i :: 0 <= i < |b.marks| ==> Marked(b.marks[i], f.entries, b.samples[i].tracker)
  }

  predicate Marked(m: Marks, entries: seq<Entry>, tracker: string) {
    m.positionBy == Holder(entries, tracker, Position) && m.rotationBy == Holder(entries, tracker, Rotation)
  }

  ghost predicate Mirrors(b: Building, frame: Option<OpenFrame>) {
    if frame.Some? then Holds(b, frame.value) else b == NOTHING
  }

  lemma {:induction false} TrackersAreDistinct(entries: seq<Entry>)
    ensures DistinctTrackers(SamplesOf(entries))
  {
    if entries != [] {
      TrackersAreDistinct(entries[..|entries| - 1]);
    }
  }

  lemma {:induction false} HeldHasASample(entries: seq<Entry>, tracker: string, channel: Channel)
    requires IndexOf(SamplesOf(entries), tracker) == |SamplesOf(entries)|
    ensures Holder(entries, tracker, channel).None?
  {
    if entries != [] {
      var front, e := SamplesOf(entries[..|entries| - 1]), entries[|entries| - 1];
      PlacedFinds(front, e, tracker);
      HeldHasASample(entries[..|entries| - 1], tracker, channel);
    }
  }

  /** Placing a value loses no tracker, and the value's own is there. */
  lemma PlacedFinds(samples: seq<Sample>, e: Entry, tracker: string)
    requires IndexOf(Placed(samples, e), tracker) == |Placed(samples, e)|
    ensures IndexOf(samples, tracker) == |samples| && tracker != e.tracker
  {
    var placed := Placed(samples, e);
    assert forall i :: 0 <= i < |placed| ==> placed[i].tracker != tracker;
    assert |samples| <= |placed| && forall i :: 0 <= i < |samples| ==> placed[i].tracker == samples[i].tracker;
    assert placed[if IndexOf(samples, e.tracker) < |samples| then IndexOf(samples, e.tracker) else |samples|].tracker == e.tracker;
  }

  /** What the building becomes when a value joins it. */
  function Joined(b: Building, e: Entry): Building
    requires |b.marks| == |b.samples|
  {
    var i := IndexOf(b.samples, e.tracker);
    var old_ := if i < |b.marks| then b.marks[i] else Marks(None, None);
    var mark := if e.channel.Position? then old_.(positionBy := Some(e.packet)) else old_.(rotationBy := Some(e.packet));
    b.(samples := Placed(b.samples, e), marks := if i < |b.marks| then b.marks[i := mark] else b.marks + [mark])
  }

  lemma JoinedHolds(b: Building, f: OpenFrame, e: Entry)
    requires Holds(b, f) && !e.channel.NoChannel?
    ensures Holds(Joined(b, e), f.(entries := f.entries + [e]))
  {
    var entries, b' := f.entries + [e], Joined(b, e);
    assert entries[..|f.entries|] == f.entries;
    TrackersAreDistinct(f.entries);
    TrackersAreDistinct(entries);
    var at := IndexOf(b.samples, e.tracker);
    if at == |b.samples| {
      HeldHasASample(f.entries, e.tracker, Position);
      HeldHasASample(f.entries, e.tracker, Rotation);
    }
    forall i | 0 <= i < |b'.marks|
      ensures Marked(b'.marks[i], entries, b'.samples[i].tracker)
    {
      if i < |b.marks| {
        assert Marked(b.marks[i], f.entries, b.samples[i].tracker);
      }
    }
  }

  /** A frame as it is handed on. */
  datatype TrackerFrame = TrackerFrame(
    samples: seq<Sample>,
    headReference: Option<nat>,
    receiveTime: real,
    peer: string,
    beginsNewSession: bool,
    followsDiscontinuity: bool,
    missing: seq<string>,
    stale: seq<string>,
    partial: nat,
    duplicates: nat)

  /** What a closed frame is handed on as, with its report. */
  function FrameOf(f: OpenFrame, r: Report): TrackerFrame {
    TrackerFrame(SamplesOf(f.entries), r.headReference, f.receiveTime, f.peer, f.beginsNewSession, r.followsDiscontinuity,
                 r.missing, r.stale, r.partial, f.duplicates)
  }

  /** The frames handed on, each with the report its session's frames before it give it. */
  function FramesOf(cfg: Config, closures: seq<Closure>): (frames: seq<TrackerFrame>)
    ensures |frames| == |closures|
  {
    seq(|closures|, i requires 0 <= i < |closures| => FrameOf(closures[i].frame, ReportAt(cfg, Closed(closures), i)))
  }

  /** The report of a frame that closes after others. */
  function ReportAfter(cfg: Config, closures: seq<Closure>, f: OpenFrame): Report {
    Measured(cfg, MemoryOf(cfg, Closed(closures), f.restarts), SamplesOf(f.entries), f.receiveTime)
  }

  lemma ClosedAppend(cfg: Config, closures: seq<Closure>, c: Closure)
    ensures FramesOf(cfg, closures + [c]) == FramesOf(cfg, closures) + [FrameOf(c.frame, ReportAfter(cfg, closures, c.frame))]
    ensures MemoryOf(cfg, Closed(closures + [c]), c.frame.restarts)
         == Remembered(cfg, MemoryOf(cfg, Closed(closures), c.frame.restarts), SamplesOf(c.frame.entries), c.frame.receiveTime)
    ensures CountsOf(cfg, Closed(closures + [c])) == Counted(CountsOf(cfg, Closed(closures)), ReportAfter(cfg, closures, c.frame))
  {
    hide Measured, Remembered, SamplesOf, Counted, FrameOf;
    var frames := Closed(closures + [c]);
    assert frames == Closed(closures) + [c.frame] && frames[..|closures|] == Closed(closures);
    assert ReportAt(cfg, frames, |closures|) == ReportAfter(cfg, closures, c.frame);
    forall i | 0 <= i < |closures|
      ensures ReportAt(cfg, frames, i) == ReportAt(cfg, Closed(closures), i)
    {
      assert frames[..i] == Closed(closures)[..i];
    }
  }

  /** The open frame belongs to the session under way, and no closed one to a later session. */
  predicate IsCurrent(l: Ledger) {
    && (l.frame.Some? ==> l.frame.value.restarts == l.stats.sessionRestarts)
    && (l.closures != [] ==> l.closures[|l.closures| - 1].frame.restarts <= l.stats.sessionRestarts)
  }

  /** What the session remembers and has counted is what its closed frames leave. */
  ghost predicate Remembers(cfg: Config, m: Memory, counts: Counts, l: Ledger) {
    && IsCurrent(l)
    && m == MemoryOf(cfg, Closed(l.closures), l.stats.sessionRestarts)
    && counts == CountsOf(cfg, Closed(l.closures))
  }

  /** Only closing a frame and restarting change what is remembered. */
  lemma StillRemembers(cfg: Config, m: Memory, counts: Counts, l: Ledger, l': Ledger)
    requires Remembers(cfg, m, counts, l)
    requires l'.closures == l.closures && l'.stats.sessionRestarts == l.stats.sessionRestarts
    requires l'.frame.Some? ==>
               l'.frame.value.restarts == if l.frame.Some? then l.frame.value.restarts else l.stats.sessionRestarts
    ensures Remembers(cfg, m, counts, l')
  {
    hide MemoryOf, CountsOf, Closed;
  }

  /** A session that has closed no frame remembers nothing. */
  lemma NothingRemembered(cfg: Config, m: Memory, counts: Counts, l: Ledger)
    requires Remembers(cfg, m, counts, l) && l.frame.None?
    ensures Remembers(cfg, NOTHING_YET, counts,
                      l.(pendingNewSession := true, stats := l.stats.(sessionRestarts := l.stats.sessionRestarts + 1)))
  {
    hide CountsOf;
  }

  lemma StartRemembers(cfg: Config)
    ensures Remembers(cfg, NOTHING_YET, Counts(0, 0, 0, 0), START)
  {
  }

  /** A frame that closes is measured and remembered. */
  lemma CloseRemembers(cfg: Config, m: Memory, counts: Counts, l: Ledger, cause: Cause)
    requires Remembers(cfg, m, counts, l) && l.frame.Some?
    ensures var f := l.frame.value;
            var report := ReportAfter(cfg, l.closures, f);
            && report == Measured(cfg, m, SamplesOf(f.entries), f.receiveTime)
            && Remembers(cfg, Remembered(cfg, m, SamplesOf(f.entries), f.receiveTime), Counted(counts, report), Close(l, cause))
            && FramesOf(cfg, Close(l, cause).closures) == FramesOf(cfg, l.closures) + [FrameOf(f, report)]
  {
    hide FramesOf, MemoryOf, CountsOf, Measured, Remembered, Counted, SamplesOf, FrameOf;
    ClosedAppend(cfg, l.closures, Closure(l.frame.value, cause));
  }

  lemma HeldParts(b: Building, f: OpenFrame)
    requires Mirrors(b, Some(f))
    ensures b.samples == SamplesOf(f.entries) && b.receiveTime == f.receiveTime && b.peer == f.peer
    ensures b.beginsNewSession == f.beginsNewSession && b.duplicates == f.duplicates && b.open
  {
    hide SamplesOf, Marked;
  }

  lemma NothingMirrors()
    ensures Mirrors(NOTHING, None) && !NOTHING.open
  {
  }

  class TrackerFrameAssembler {
    const config: Config
    var frame: Building
    var peer: string
    var packet: nat
    var pendingNewSession: bool
    var lastArrival: Option<real>
    var stats: Stats
    var observed: seq<string>
    var lastSeen: map<string, real>
    var reportedStale: set<string>
    var lastPosition: map<string, Vector>
    var counts: Counts
    ghost var ledger: Ledger

    ghost function Memories(): Memory
      reads this
    {
      Memory(observed, lastSeen, reportedStale, lastPosition)
    }

    ghost predicate Valid()
      reads this
    {
      && Mirrors(frame, ledger.frame) && Remembers(config, Memories(), counts, ledger)
      && peer == ledger.peer && packet == ledger.packet && pendingNewSession == ledger.pendingNewSession
      && lastArrival == ledger.lastArrival && stats == ledger.stats
    }

    constructor (config: Config)
      ensures Valid() && ledger == START && this.config == config
    {
      hide Remembers;
      StartRemembers(config);
      this.config := config;
      frame, peer, packet, pendingNewSession, lastArrival, stats, ledger := NOTHING, "", 0, false, None, NO_STATS, START;
      observed, lastSeen, reportedStale, lastPosition, counts := [], map[], {}, map[], Counts(0, 0, 0, 0);
    }

    /** The trackers a closing frame carries are observed, and what its samples are is told. */
    method NoteSamples(samples: seq<Sample>, at: real) returns (headReference: Option<nat>, partial: nat)
      modifies this`observed, this`lastSeen, this`reportedStale
      ensures observed == Observing(old(observed), samples) && lastSeen == SeenWith(old(lastSeen), samples, at)
      ensures reportedStale == ReportsEnd(old(reportedStale), samples)
      ensures headReference == HeadOf(samples) && partial == PartialCount(samples)
    {
      headReference, partial := None, 0;
      for index := 0 to |samples|
        invariant observed == Observing(old(observed), samples[..index])
        invariant lastSeen == SeenWith(old(lastSeen), samples[..index], at)
        invariant reportedStale == ReportsEnd(old(reportedStale), samples[..index])
        invariant headReference == HeadOf(samples[..index]) && partial == PartialCount(samples[..index])
      {
        assert samples[..index + 1][..index] == samples[..index];
        var sample := samples[index];
        if sample.tracker == HEAD {
          headReference := Some(index);
        }
        if !IsComplete(sample) {
          partial := partial + 1;
        }
        if sample.tracker !in observed {
          observed := observed + [sample.tracker];
        }
        lastSeen := lastSeen[sample.tracker := at];
        reportedStale := reportedStale - {sample.tracker};
      }
      assert samples[..|samples|] == samples;
    }

    method IsPresent(samples: seq<Sample>, tracker: string) returns (present: bool)
      ensures present <==> Carries(samples, tracker)
    {
      for index := 0 to |samples|
        invariant forall k :: 0 <= k < index ==> samples[k].tracker != tracker
      {
        if samples[index].tracker == tracker {
          return true;
        }
      }
      present := false;
    }

    /** The observed trackers a closing frame lacks, those silent too long, and those so for the first time. */
    method FindAbsent(samples: seq<Sample>, at: real) returns (missing: seq<string>, stale: seq<string>, crossed: seq<string>)
      modifies this`reportedStale, this`counts
      ensures missing == Absent(observed, samples) && stale == StaleAmong(config, missing, lastSeen, at)
      ensures crossed == CrossedAmong(stale, old(reportedStale))
      ensures reportedStale == old(reportedStale) + set t | t in stale
      ensures counts == old(counts).(stalenessCrossings := old(counts).stalenessCrossings + |crossed|)
    {
      missing, stale, crossed := [], [], [];
      for index := 0 to |observed|
        invariant missing == Absent(observed[..index], samples) && stale == StaleAmong(config, missing, lastSeen, at)
        invariant crossed == CrossedAmong(stale, old(reportedStale))
        invariant reportedStale == old(reportedStale) + set t | t in stale
        invariant counts == old(counts).(stalenessCrossings := old(counts).stalenessCrossings + |crossed|)
      {
        hide Carries;
        var tracker := observed[index];
        assert observed[..index + 1][..index] == observed[..index];
        var present := IsPresent(samples, tracker);
        if present {
          continue;
        }
        assert (missing + [tracker])[..|missing|] == missing;
        missing := missing + [tracker];
        if config.stalenessSeconds <= 0.0 || tracker !in lastSeen {
          continue;
        }
        var silent := at - lastSeen[tracker];
        if silent < config.stalenessSeconds {
          continue;
        }
        assert (stale + [tracker])[..|stale|] == stale;
        if tracker !in reportedStale {
          crossed := crossed + [tracker];
          reportedStale := reportedStale + {tracker};
          counts := counts.(stalenessCrossings := counts.stalenessCrossings + 1);
        }
        stale := stale + [tracker];
      }
      assert observed[..|observed|] == observed;
    }

    /** Whether all the trackers that can be compared moved at once. */
    method FindDiscontinuity(samples: seq<Sample>) returns (follows: bool)
      ensures follows <==> IsDiscontinuous(config, samples, lastPosition)
    {
      hide FarApart;
      follows := false;
      if config.calibrationJumpMeters > 0.0 {
        var comparable, jumped := 0, 0;
        for index := 0 to |samples|
          invariant comparable == ComparableCount(samples[..index], lastPosition)
          invariant jumped == JumpedCount(config, samples[..index], lastPosition)
        {
          assert samples[..index + 1][..index] == samples[..index];
          var sample := samples[index];
          if sample.position.None? || sample.tracker !in lastPosition {
            continue;
          }
          comparable := comparable + 1;
          if FarApart(config, sample.position.value, lastPosition[sample.tracker]) {
            jumped := jumped + 1;
          }
        }
        assert samples[..|samples|] == samples;
        follows := comparable >= 2 && jumped == comparable;
      }
    }

    method RecordPositions(samples: seq<Sample>)
      modifies this`lastPosition
      ensures lastPosition == StandingAt(old(lastPosition), samples)
    {
      for index := 0 to |samples|
        invariant lastPosition == StandingAt(old(lastPosition), samples[..index])
      {
        assert samples[..index + 1][..index] == samples[..index];
        if samples[index].position.Some? {
          lastPosition := lastPosition[samples[index].tracker := samples[index].position.value];
        }
      }
      assert samples[..|samples|] == samples;
    }

    /** A closing frame is measured against what the session remembers, and joins it. */
    method MeasureFrame(samples: seq<Sample>, at: real) returns (report: Report)
      modifies this`observed, this`lastSeen, this`reportedStale, this`lastPosition, this`counts
      ensures report == Measured(config, old(Memories()), samples, at)
      ensures Memories() == Remembered(config, old(Memories()), samples, at) && counts == Counted(old(counts), report)
    {
      hide Observing, SeenWith, ReportsEnd, HeadOf, PartialCount, Absent, StaleAmong, CrossedAmong, IsDiscontinuous, StandingAt;
      var headReference, partial := NoteSamples(samples, at);
      var missing, stale, crossed := FindAbsent(samples, at);
      var follows := FindDiscontinuity(samples);
      if follows {
        counts := counts.(calibrationDiscontinuities := counts.calibrationDiscontinuities + 1);
      }
      RecordPositions(samples);
      if missing != [] {
        counts := counts.(framesIncomplete := counts.framesIncomplete + 1);
      }
      if partial != 0 {
        counts := counts.(framesPartial := counts.framesPartial + 1);
      }
      report := Report(headReference, partial, missing, stale, crossed, follows);
    }

    /** The open frame, if there is one, ends for a cause. */
    method CloseFrame(cause: Cause) returns (emitted: seq<TrackerFrame>)
      requires Valid()
      modifies this`frame, this`stats, this`ledger, this`observed, this`lastSeen, this`reportedStale, this`lastPosition, this`counts
      ensures Valid() && ledger == Close(old(ledger), cause)
      ensures emitted == if old(ledger).frame.Some?
                         then [FrameOf(old(ledger).frame.value, ReportAfter(config, old(ledger).closures, old(ledger).frame.value))]
                         else []
      ensures FramesOf(config, ledger.closures) == FramesOf(config, old(ledger.closures)) + emitted && !frame.open
    {
      hide FramesOf, Remembers, Measured, Remembered, Counted, SamplesOf, Mirrors, ReportAfter;
      emitted := [];
      HoldsTime();
      if !frame.open {
        assert FramesOf(config, ledger.closures) + [] == FramesOf(config, ledger.closures);
        return;
      }
      CloseRemembers(config, Memories(), counts, ledger, cause);
      HeldParts(frame, ledger.frame.value);
      NothingMirrors();
      var closing := frame;
      frame := NOTHING;
      match cause {
        case Repeat => stats := stats.(closedByRepeat := stats.closedByRepeat + 1);
        case Gap => stats := stats.(closedByGap := stats.closedByGap + 1);
        case Restart => stats := stats.(closedByRestart := stats.closedByRestart + 1);
        case Flush => stats := stats.(closedByFlush := stats.closedByFlush + 1);
      }
      var report := MeasureFrame(closing.samples, closing.receiveTime);
      stats := stats.(framesEmitted := stats.framesEmitted + 1, samplesEmitted := stats.samplesEmitted + |closing.samples|);
      ledger := Close(ledger, cause);
      emitted := [TrackerFrame(closing.samples, report.headReference, closing.receiveTime, closing.peer,
                               closing.beginsNewSession, report.followsDiscontinuity, report.missing, report.stale,
                               report.partial, closing.duplicates)];
    }

    /** The datagram that already filled this channel of this tracker in the open frame. */
    method FindHolder(m: Message) returns (holder: Option<nat>)
      requires Valid() && !m.channel.NoChannel?
      ensures holder == Held(ledger, m)
    {
      hide Holder;
      holder := None;
      if frame.open {
        ghost var entries := ledger.frame.value.entries;
        TrackersAreDistinct(entries);
        for index := 0 to |frame.samples|
          invariant forall k :: 0 <= k < index ==> frame.samples[k].tracker != m.tracker
        {
          if frame.samples[index].tracker == m.tracker {
            assert Marked(frame.marks[index], entries, m.tracker);
            return if m.channel.Position? then frame.marks[index].positionBy else frame.marks[index].rotationBy;
          }
        }
        HeldHasASample(entries, m.tracker, m.channel);
      }
    }

    /** One message: refused, repeated, or the sign that the frame is over, and otherwise part of it. */
    method TakeMessage(m: Message, receiveTime: real, sender: string) returns (emitted: seq<TrackerFrame>)
      requires Valid()
      modifies this`frame, this`stats, this`ledger, this`pendingNewSession, this`observed, this`lastSeen, this`reportedStale,
        this`lastPosition, this`counts
      ensures Valid() && ledger == Take(old(ledger), m, receiveTime, sender)
      ensures FramesOf(config, ledger.closures) == FramesOf(config, old(ledger.closures)) + emitted && |emitted| <= 1
    {
      hide Holder, SamplesOf, Holds, Join, Close, FramesOf, Remembers;
      emitted := [];
      assert FramesOf(config, ledger.closures) + [] == FramesOf(config, ledger.closures);
      if m.channel.NoChannel? {
        stats := stats.(messagesRefused := stats.messagesRefused + 1);
        StillRemembers(config, Memories(), counts, ledger, Refuse(ledger));
        ledger := Refuse(ledger);
        return;
      }
      var holder := FindHolder(m);
      HoldsTime();
      if holder == Some(packet) {
        RepeatedHolds(frame, ledger.frame.value);
        frame := frame.(duplicates := frame.duplicates + 1);
        stats := stats.(messagesDuplicated := stats.messagesDuplicated + 1);
        StillRemembers(config, Memories(), counts, ledger, Duplicate(ledger));
        ledger := Duplicate(ledger);
        return;
      }
      if holder.Some? {
        emitted := CloseFrame(Repeat);
      }
      if m.value.None? {
        stats := stats.(messagesRefused := stats.messagesRefused + 1);
        StillRemembers(config, Memories(), counts, ledger, Refuse(ledger));
        ledger := Refuse(ledger);
        return;
      }
      FillChannel(m, receiveTime, sender);
    }

    /** The value joins the open frame, which opens if none is. */
    method FillChannel(m: Message, receiveTime: real, sender: string)
      requires Valid() && m.value.Some? && !m.channel.NoChannel?
      modifies this`frame, this`stats, this`ledger, this`pendingNewSession
      ensures Valid() && ledger == Join(old(ledger), m, receiveTime, sender) && ledger.closures == old(ledger).closures
    {
      hide Holder, SamplesOf, Joined, Marked, Remembers;
      ghost var f := if ledger.frame.Some? then ledger.frame.value
                     else OpenFrame(receiveTime, sender, pendingNewSession, [], 0, stats.sessionRestarts);
      ghost var account := Join(ledger, m, receiveTime, sender);
      if !frame.open {
        frame := NOTHING.(open := true, receiveTime := receiveTime, peer := sender, beginsNewSession := pendingNewSession);
        pendingNewSession := false;
        OpenedHolds(f);
      }
      var entry := Entry(m.tracker, m.channel, m.value.value, packet, receiveTime, sender);
      JoinedHolds(frame, f, entry);
      frame := Joined(frame, entry);
      stats := if m.channel.Position? then stats.(positionsAccepted := stats.positionsAccepted + 1)
               else stats.(rotationsAccepted := stats.rotationsAccepted + 1);
      StillRemembers(config, Memories(), counts, ledger, account);
      ledger := account;
    }

    /** The open frame ends with its session, and what the session knew is forgotten. */
    method RestartSession() returns (emitted: seq<TrackerFrame>)
      requires Valid()
      modifies this`frame, this`stats, this`ledger, this`pendingNewSession, this`observed, this`lastSeen, this`reportedStale,
        this`lastPosition, this`counts
      ensures Valid() && ledger == Restarted(old(ledger))
      ensures FramesOf(config, ledger.closures) == FramesOf(config, old(ledger.closures)) + emitted && |emitted| <= 1
    {
      hide Close, Holds, Mirrors, SamplesOf, FramesOf, FrameOf, Remembers;
      emitted := CloseFrame(Restart);
      HoldsTime();
      NothingRemembered(config, Memories(), counts, ledger);
      observed, lastSeen, reportedStale, lastPosition := [], map[], {}, map[];
      stats := stats.(sessionRestarts := stats.sessionRestarts + 1);
      pendingNewSession := true;
      ledger := Restarted(old(ledger));
    }

    /** A new named peer begins a session. */
    method AttributeTo(sender: string) returns (emitted: seq<TrackerFrame>)
      requires Valid()
      modifies this`frame, this`stats, this`ledger, this`pendingNewSession, this`peer, this`observed, this`lastSeen,
        this`reportedStale, this`lastPosition, this`counts
      ensures Valid() && ledger == Attributed(old(ledger), sender)
      ensures FramesOf(config, ledger.closures) == FramesOf(config, old(ledger.closures)) + emitted && |emitted| <= 1
    {
      hide Restarted, Mirrors, FramesOf, FrameOf, Remembers;
      emitted := [];
      assert FramesOf(config, ledger.closures) + [] == FramesOf(config, ledger.closures);
      ghost var account := Attributed(ledger, sender);
      if sender != "" && peer != "" && sender != peer {
        emitted := RestartSession();
      }
      if sender != "" {
        peer := sender;
      }
      StillRemembers(config, Memories(), counts, ledger, account);
      ledger := account;
    }

    /** A datagram is numbered and timed, and a silence before it counted. */
    method NoticeArrival(receiveTime: real)
      requires Valid()
      modifies this`packet, this`stats, this`lastArrival, this`ledger
      ensures Valid() && ledger == Noticed(config, old(ledger), receiveTime) && ledger.closures == old(ledger.closures)
    {
      hide Mirrors, Remembers;
      ghost var noticed := Noticed(config, ledger, receiveTime);
      StillRemembers(config, Memories(), counts, ledger, noticed);
      packet := packet + 1;
      if lastArrival.Some? && config.sourceTimeoutSeconds > 0.0
         && receiveTime - lastArrival.value > config.sourceTimeoutSeconds {
        stats := stats.(sourceTimeouts := stats.sourceTimeouts + 1);
      }
      lastArrival := Some(receiveTime);
      ledger := noticed;
    }

    /** A datagram arrives: silence, a new peer and a gap are each seen to, in that order. */
    method ArriveDatagram(receiveTime: real, sender: string) returns (emitted: seq<TrackerFrame>)
      requires Valid()
      modifies this
      ensures Valid() && ledger == Arrive(config, old(ledger), receiveTime, sender)
      ensures FramesOf(config, ledger.closures) == FramesOf(config, old(ledger.closures)) + emitted
    {
      hide Close, Noticed, Attributed, Holds, Mirrors, SamplesOf, FramesOf, FrameOf, Remembers;
      NoticeArrival(receiveTime);
      emitted := AttributeTo(sender);
      HoldsTime();
      if frame.open && config.frameWindowSeconds > 0.0 && receiveTime - frame.receiveTime > config.frameWindowSeconds {
        var ended := CloseFrame(Gap);
        emitted := emitted + ended;
      }
    }

    /** One datagram: its arrival, then its messages in order. */
    method Push(messages: seq<Message>, receiveTime: real, sender: string)
      returns (completed: nat, emitted: seq<TrackerFrame>)
      requires Valid()
      modifies this
      ensures Valid() && ledger == Step(config, old(ledger), Pushed(messages, receiveTime, sender))
      ensures FramesOf(config, ledger.closures) == FramesOf(config, old(ledger.closures)) + emitted && completed == |emitted|
    {
      hide Take, Arrive, Mirrors, FramesOf, Remembers;
      emitted := ArriveDatagram(receiveTime, sender);
      ghost var arrived := ledger;
      for i := 0 to |messages|
        invariant Valid() && ledger == TakeAll(arrived, messages[..i], receiveTime, sender)
        invariant FramesOf(config, ledger.closures) == FramesOf(config, old(ledger.closures)) + emitted
      {
        var more := TakeMessage(messages[i], receiveTime, sender);
        assert messages[..i + 1][..i] == messages[..i];
        emitted := emitted + more;
      }
      assert messages[..|messages|] == messages;
      completed := |emitted|;
    }

    lemma HoldsTime()
      requires Mirrors(frame, ledger.frame)
      ensures frame.open <==> ledger.frame.Some?
      ensures frame.open ==> frame.receiveTime == ledger.frame.value.receiveTime
    {
    }

    method Flush() returns (completed: nat, emitted: seq<TrackerFrame>)
      requires Valid()
      modifies this
      ensures Valid() && ledger == Step(config, old(ledger), Flushed)
      ensures FramesOf(config, ledger.closures) == FramesOf(config, old(ledger.closures)) + emitted && completed == |emitted| <= 1
    {
      emitted := CloseFrame(VrchatFrames.Flush);
      completed := |emitted|;
    }
  }

  lemma OpenedHolds(f: OpenFrame)
    requires f.entries == [] && f.duplicates == 0
    ensures Holds(NOTHING.(open := true, receiveTime := f.receiveTime, peer := f.peer, beginsNewSession := f.beginsNewSession), f)
  {
    NoSamples();
  }

  lemma RepeatedHolds(b: Building, f: OpenFrame)
    requires Holds(b, f)
    ensures Holds(b.(duplicates := b.duplicates + 1), f.(duplicates := f.duplicates + 1))
  {
    hide Holder, SamplesOf;
  }

  lemma NoSamples()
    ensures SamplesOf([]) == []
  {
  }
}
