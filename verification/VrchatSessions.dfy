/**
 What a VRChat tracker frame is measured against when it closes, as FrameAssembler.cpp of the VRChat OSC
 connector measures it: which trackers its session has carried, when each was carried last and where it stood.
 */
module VrchatSessions {
  import opened Bytes
  import opened VrchatFrames

  // ---- One frame against what is remembered ----

  /** A session's memory: the trackers it carried in the order first seen, when, which were reported stale, and where they stood. */
  datatype Memory = Memory(
    observed: seq<string>,
    lastSeen: map<string, real>,
    reportedStale: set<string>,
    lastPosition: map<string, Vector>)

  const NOTHING_YET := Memory([], map[], {}, map[])

  /** What a frame says beside its samples; `crossed` are the trackers first reported stale by it. */
  datatype Report = Report(
    headReference: Option<nat>,
    partial: nat,
    missing: seq<string>,
    stale: seq<string>,
    crossed: seq<string>,
    followsDiscontinuity: bool)

  const HEAD := "head"

  predicate Carries(samples: seq<Sample>, tracker: string) {
    exists i :: 0 <= i < |samples| && samples[i].tracker == tracker
  }

  function HeadOf(samples: seq<Sample>): Option<nat> {
    if samples == [] then None
    else
      var last := |samples| - 1;
      if samples[last].tracker == HEAD then Some(last) else HeadOf(samples[..last])
  }

  predicate IsComplete(s: Sample) {
    s.position.Some? && s.rotation.Some?
  }

  function PartialCount(samples: seq<Sample>): nat {
    if samples == [] then 0
    else PartialCount(samples[..|samples| - 1]) + if IsComplete(samples[|samples| - 1]) then 0 else 1
  }

  function Observing(observed: seq<string>, samples: seq<Sample>): seq<string> {
    if samples == [] then observed
    else
      var before, last := Observing(observed, samples[..|samples| - 1]), samples[|samples| - 1].tracker;
      if last in before then before else before + [last]
  }

  function SeenWith(seen: map<string, real>, samples: seq<Sample>, at: real): map<string, real> {
    if samples == [] then seen
    else SeenWith(seen, samples[..|samples| - 1], at)[samples[|samples| - 1].tracker := at]
  }

  function ReportsEnd(reported: set<string>, samples: seq<Sample>): set<string> {
    if samples == [] then reported
    else ReportsEnd(reported, samples[..|samples| - 1]) - {samples[|samples| - 1].tracker}
  }

  /** The trackers observed that a frame did not carry, in order. */
  function Absent(observed: seq<string>, samples: seq<Sample>): seq<string> {
    if observed == [] then []
    else
      var before, last := Absent(observed[..|observed| - 1], samples), observed[|observed| - 1];
      if Carries(samples, last) then before else before + [last]
  }

  /** The horizon is checked, and this much silence reaches it. */
  predicate Silent(cfg: Config, since: real, now: real) {
    cfg.stalenessSeconds > 0.0 && now - since >= cfg.stalenessSeconds
  }

  function StaleAmong(cfg: Config, missing: seq<string>, seen: map<string, real>, at: real): seq<string> {
    if missing == [] then []
    else
      var before, last := StaleAmong(cfg, missing[..|missing| - 1], seen, at), missing[|missing| - 1];
      if last in seen && Silent(cfg, seen[last], at) then before + [last] else before
  }

  function CrossedAmong(stale: seq<string>, reported: set<string>): seq<string> {
    if stale == [] then []
    else
      var front, last := stale[..|stale| - 1], stale[|stale| - 1];
      CrossedAmong(front, reported) + if last in reported || last in front then [] else [last]
  }

  function Squared(x: real): real {
    x * x
  }

  function SquaredDistance(one: Vector, other: Vector): real {
    if one == [] || other == [] then 0.0
    else Squared(one[0] - other[0]) + SquaredDistance(one[1..], other[1..])
  }

  /** Whether two positions are further apart than the bound a recalibration is read from. */
  predicate FarApart(cfg: Config, one: Vector, other: Vector) {
    SquaredDistance(one, other) > Squared(cfg.calibrationJumpMeters)
  }

  /** The samples that stand beside an earlier position of their tracker. */
  function ComparableCount(samples: seq<Sample>, positions: map<string, Vector>): nat {
    if samples == [] then 0
    else
      ComparableCount(samples[..|samples| - 1], positions)
      + if IsComparable(samples[|samples| - 1], positions) then 1 else 0
  }

  predicate IsComparable(s: Sample, positions: map<string, Vector>) {
    s.position.Some? && s.tracker in positions
  }

  predicate HasJumped(cfg: Config, s: Sample, positions: map<string, Vector>) {
    IsComparable(s, positions) && FarApart(cfg, s.position.value, positions[s.tracker])
  }

  function JumpedCount(cfg: Config, samples: seq<Sample>, positions: map<string, Vector>): nat {
    if samples == [] then 0
    else
      JumpedCount(cfg, samples[..|samples| - 1], positions)
      + if HasJumped(cfg, samples[|samples| - 1], positions) then 1 else 0
  }

  /** At least two samples can be compared, and every one that can has jumped. */
  predicate IsDiscontinuous(cfg: Config, samples: seq<Sample>, positions: map<string, Vector>) {
    && cfg.calibrationJumpMeters > 0.0
    && 2 <= ComparableCount(samples, positions) == JumpedCount(cfg, samples, positions)
  }

  function StandingAt(positions: map<string, Vector>, samples: seq<Sample>): map<string, Vector> {
    if samples == [] then positions
    else
      var before, last := StandingAt(positions, samples[..|samples| - 1]), samples[|samples| - 1];
      if last.position.Some? then before[last.tracker := last.position.value] else before
  }

  /** What a closing frame is told about itself. */
  function Measured(cfg: Config, m: Memory, samples: seq<Sample>, at: real): Report {
    var missing := Absent(Observing(m.observed, samples), samples);
    var stale := StaleAmong(cfg, missing, SeenWith(m.lastSeen, samples, at), at);
    Report(HeadOf(samples), PartialCount(samples), missing, stale, CrossedAmong(stale, ReportsEnd(m.reportedStale, samples)),
           IsDiscontinuous(cfg, samples, m.lastPosition))
  }

  /** What is remembered once a frame has closed. */
  function Remembered(cfg: Config, m: Memory, samples: seq<Sample>, at: real): Memory {
    Memory(Observing(m.observed, samples), SeenWith(m.lastSeen, samples, at),
           ReportsEnd(m.reportedStale, samples) + (set t | t in Measured(cfg, m, samples, at).stale),
           StandingAt(m.lastPosition, samples))
  }

  datatype Counts = Counts(
    framesIncomplete: nat,
    framesPartial: nat,
    stalenessCrossings: nat,
    calibrationDiscontinuities: nat)

  function Counted(c: Counts, r: Report): Counts {
    Counts(c.framesIncomplete + (if r.missing != [] then 1 else 0), c.framesPartial + (if r.partial != 0 then 1 else 0),
           c.stalenessCrossings + |r.crossed|, c.calibrationDiscontinuities + (if r.followsDiscontinuity then 1 else 0))
  }

  // ---- Frame after frame ----

  /** What is remembered after these frames by a session that follows `restarts` restarts. */
  function MemoryOf(cfg: Config, frames: seq<OpenFrame>, restarts: nat): Memory {
    if frames == [] || frames[|frames| - 1].restarts != restarts then NOTHING_YET
    else
      var last := frames[|frames| - 1];
      Remembered(cfg, MemoryOf(cfg, frames[..|frames| - 1], restarts), SamplesOf(last.entries), last.receiveTime)
  }

  /** What frame `k` is told about itself. */
  function ReportAt(cfg: Config, frames: seq<OpenFrame>, k: nat): Report
    requires k < |frames|
  {
    Measured(cfg, MemoryOf(cfg, frames[..k], frames[k].restarts), SamplesOf(frames[k].entries), frames[k].receiveTime)
  }

  function CountsOf(cfg: Config, frames: seq<OpenFrame>): Counts {
    if frames == [] then Counts(0, 0, 0, 0)
    else Counted(CountsOf(cfg, frames[..|frames| - 1]), ReportAt(cfg, frames, |frames| - 1))
  }

  lemma ReportStays(cfg: Config, frames: seq<OpenFrame>, n: nat, k: nat)
    requires k < n <= |frames|
    ensures ReportAt(cfg, frames[..n], k) == ReportAt(cfg, frames, k)
  {
    assert frames[..n][..k] == frames[..k];
  }

  /** The frames whose reports are of one kind. */
  ghost function Incomplete(cfg: Config, frames: seq<OpenFrame>): set<int> {
    set k | 0 <= k < |frames| && ReportAt(cfg, frames, k).missing != []
  }

  ghost function Partial(cfg: Config, frames: seq<OpenFrame>): set<int> {
    set k | 0 <= k < |frames| && ReportAt(cfg, frames, k).partial > 0
  }

  ghost function Discontinuous(cfg: Config, frames: seq<OpenFrame>): set<int> {
    set k | 0 <= k < |frames| && ReportAt(cfg, frames, k).followsDiscontinuity
  }

  /** Every tracker first reported stale, with the frame that reports it. */
  ghost function Crossings(cfg: Config, frames: seq<OpenFrame>): set<(int, int)> {
    set k, i | 0 <= k < |frames| && 0 <= i < |ReportAt(cfg, frames, k).crossed| :: (k, i)
  }

  lemma OneMore(before: set<int>, after: set<int>, n: int, more: bool)
    requires n !in before
    requires forall k :: k in after <==> (k in before || (k == n && more))
    ensures |after| == |before| + if more then 1 else 0
  {
    var joined := if more then before + {n} else before;
    assert forall k :: k in after <==> k in joined;
    assert after == joined;
  }

  lemma {:induction false} PairsCount(n: int, width: nat, pairs: set<(int, int)>)
    requires forall p :: p in pairs <==> p.0 == n && 0 <= p.1 < width
    ensures |pairs| == width
  {
    if width == 0 {
      assert pairs == {};
    } else {
      PairsCount(n, width - 1, pairs - {(n, width - 1)});
    }
  }

  lemma CrossingsGrow(cfg: Config, frames: seq<OpenFrame>)
    requires frames != []
    ensures var last := |frames| - 1;
            |Crossings(cfg, frames)| == |Crossings(cfg, frames[..last])| + |ReportAt(cfg, frames, last).crossed|
  {
    hide ReportAt;
    var last := |frames| - 1;
    var before, after := Crossings(cfg, frames[..last]), Crossings(cfg, frames);
    forall k | 0 <= k < last
      ensures ReportAt(cfg, frames[..last], k) == ReportAt(cfg, frames, k)
    {
      ReportStays(cfg, frames, last, k);
    }
    var news := after - before;
    PairsCount(last, |ReportAt(cfg, frames, last).crossed|, news);
    assert after == before + news;
  }

  /** Each count of a run is the number of its frames, or of its crossings, that it says it counts. */
  lemma {:induction false} CountsAre(cfg: Config, frames: seq<OpenFrame>)
    ensures var c := CountsOf(cfg, frames);
            && c.framesIncomplete == |Incomplete(cfg, frames)| && c.framesPartial == |Partial(cfg, frames)|
            && c.stalenessCrossings == |Crossings(cfg, frames)|
            && c.calibrationDiscontinuities == |Discontinuous(cfg, frames)|
  {
    hide ReportAt, Crossings;
    if frames == [] {
      NoCrossings(cfg);
    } else {
      var last := |frames| - 1;
      var front, report := frames[..last], ReportAt(cfg, frames, last);
      CountsAre(cfg, front);
      CrossingsGrow(cfg, frames);
      forall k | 0 <= k < last
        ensures ReportAt(cfg, front, k) == ReportAt(cfg, frames, k)
      {
        ReportStays(cfg, frames, last, k);
      }
      OneMore(Incomplete(cfg, front), Incomplete(cfg, frames), last, report.missing != []);
      OneMore(Partial(cfg, front), Partial(cfg, frames), last, report.partial > 0);
      OneMore(Discontinuous(cfg, front), Discontinuous(cfg, frames), last, report.followsDiscontinuity);
    }
  }

  lemma NoCrossings(cfg: Config)
    ensures Crossings(cfg, []) == {}
  {
  }

  /** The closed frames, in order. */
  function Closed(closures: seq<Closure>): (frames: seq<OpenFrame>)
    ensures |frames| == |closures|
  {
    seq(|closures|, i requires 0 <= i < |closures| => closures[i].frame)
  }

  // ---- What the parts of a report say ----

  predicate Distinct(names: seq<string>) {
    forall i, k :: 0 <= i < k < |names| ==> names[i] != names[k]
  }

  lemma DistinctFront(names: seq<string>)
    requires names != [] && Distinct(names)
    ensures Distinct(names[..|names| - 1]) && names[|names| - 1] !in names[..|names| - 1]
  {
    var front, last := names[..|names| - 1], names[|names| - 1];
    forall i | 0 <= i < |front|
      ensures front[i] != last
    {
      assert names[i] != names[|front|];
    }
  }

  lemma {:induction false} ObservingIs(observed: seq<string>, samples: seq<Sample>, tracker: string)
    requires Distinct(observed)
    ensures Distinct(Observing(observed, samples))
    ensures tracker in Observing(observed, samples) <==> tracker in observed || Carries(samples, tracker)
  {
    if samples != [] {
      var front, last := samples[..|samples| - 1], samples[|samples| - 1];
      ObservingIs(observed, front, tracker);
      CarriesGrows(front, last, tracker);
      assert samples == front + [last];
    }
  }

  lemma CarriesGrows(samples: seq<Sample>, last: Sample, tracker: string)
    ensures Carries(samples + [last], tracker) <==> Carries(samples, tracker) || last.tracker == tracker
  {
    var more := samples + [last];
    assert more[|samples|] == last;
    if Carries(samples, tracker) {
      var i :| 0 <= i < |samples| && samples[i].tracker == tracker;
      assert more[i].tracker == tracker;
    }
  }

  lemma {:induction false} SeenWithIs(seen: map<string, real>, samples: seq<Sample>, at: real, tracker: string)
    ensures tracker in SeenWith(seen, samples, at) <==> tracker in seen || Carries(samples, tracker)
    ensures tracker in SeenWith(seen, samples, at) ==>
              SeenWith(seen, samples, at)[tracker] == if Carries(samples, tracker) then at else seen[tracker]
  {
    if samples != [] {
      var front, last := samples[..|samples| - 1], samples[|samples| - 1];
      SeenWithIs(seen, front, at, tracker);
      CarriesGrows(front, last, tracker);
      assert samples == front + [last];
    }
  }

  lemma {:induction false} ReportsEndIs(reported: set<string>, samples: seq<Sample>, tracker: string)
    ensures tracker in ReportsEnd(reported, samples) <==> tracker in reported && !Carries(samples, tracker)
  {
    if samples != [] {
      var front, last := samples[..|samples| - 1], samples[|samples| - 1];
      ReportsEndIs(reported, front, tracker);
      CarriesGrows(front, last, tracker);
      assert samples == front + [last];
    }
  }

  lemma {:induction false} AbsentIs(observed: seq<string>, samples: seq<Sample>, tracker: string)
    ensures tracker in Absent(observed, samples) <==> tracker in observed && !Carries(samples, tracker)
    ensures Distinct(observed) ==> Distinct(Absent(observed, samples))
  {
    if observed != [] {
      hide Carries;
      var front, last := observed[..|observed| - 1], observed[|observed| - 1];
      AbsentIs(front, samples, tracker);
      AbsentIs(front, samples, last);
      assert observed == front + [last];
      if Distinct(observed) {
        DistinctFront(observed);
      }
    }
  }

  lemma {:induction false} StaleAmongIs(cfg: Config, missing: seq<string>, seen: map<string, real>, at: real, tracker: string)
    ensures tracker in StaleAmong(cfg, missing, seen, at) <==>
            tracker in missing && tracker in seen && Silent(cfg, seen[tracker], at)
    ensures Distinct(missing) ==> Distinct(StaleAmong(cfg, missing, seen, at))
  {
    if missing != [] {
      hide Silent;
      var front, last := missing[..|missing| - 1], missing[|missing| - 1];
      StaleAmongIs(cfg, front, seen, at, tracker);
      StaleAmongIs(cfg, front, seen, at, last);
      assert missing == front + [last];
      if Distinct(missing) {
        DistinctFront(missing);
      }
    }
  }

  lemma {:induction false} CrossedAmongIs(stale: seq<string>, reported: set<string>, tracker: string)
    ensures tracker in CrossedAmong(stale, reported) <==> tracker in stale && tracker !in reported
    ensures Distinct(CrossedAmong(stale, reported))
  {
    if stale != [] {
      var front, last := stale[..|stale| - 1], stale[|stale| - 1];
      CrossedAmongIs(front, reported, tracker);
      CrossedAmongIs(front, reported, last);
      assert stale == front + [last];
    }
  }

  lemma {:induction false} StandingAtIs(positions: map<string, Vector>, samples: seq<Sample>, tracker: string)
    requires DistinctTrackers(samples)
    ensures var p := Carried(samples, tracker, Position);
            && (tracker in StandingAt(positions, samples) <==> tracker in positions || p.Some?)
            && (tracker in StandingAt(positions, samples) ==>
                  StandingAt(positions, samples)[tracker] == if p.Some? then p.value else positions[tracker])
  {
    if samples != [] {
      var front, last := samples[..|samples| - 1], samples[|samples| - 1];
      StandingAtIs(positions, front, tracker);
      assert samples == front + [last];
      CarriedGrows(front, last, tracker);
    }
  }

  lemma CarriedGrows(samples: seq<Sample>, last: Sample, tracker: string)
    requires DistinctTrackers(samples + [last])
    ensures Carried(samples + [last], tracker, Position) ==
            if last.tracker == tracker then last.position else Carried(samples, tracker, Position)
  {
    var more := samples + [last];
    assert more[|samples|] == last;
    var i := IndexOf(samples, tracker);
    if last.tracker == tracker {
      IndexIsUnique(more, |samples|);
    } else if i < |samples| {
      assert more[i].tracker == tracker;
      IndexIsUnique(more, i);
    } else {
      assert forall k :: 0 <= k < |more| ==> more[k].tracker != tracker;
    }
  }

  // ---- What memory holds ----

  predicate FrameCarries(f: OpenFrame, tracker: string) {
    Carries(SamplesOf(f.entries), tracker)
  }

  function PositionIn(f: OpenFrame, tracker: string): Option<Vector> {
    Carried(SamplesOf(f.entries), tracker, Position)
  }

  /** The last frame of the session after `restarts` restarts of which something holds. */
  function LastThat(frames: seq<OpenFrame>, restarts: nat, holds: OpenFrame -> bool): (i: Option<nat>)
    ensures i.Some? ==> i.value < |frames| && holds(frames[i.value])
  {
    if frames == [] || frames[|frames| - 1].restarts != restarts then None
    else if holds(frames[|frames| - 1]) then Some(|frames| - 1)
    else LastThat(frames[..|frames| - 1], restarts, holds)
  }

  function Carrying(tracker: string): OpenFrame -> bool {
    f => FrameCarries(f, tracker)
  }

  function Placing(tracker: string): OpenFrame -> bool {
    f => PositionIn(f, tracker).Some?
  }

  /** Reported stale in the session, and not carried since. */
  predicate Reported(cfg: Config, frames: seq<OpenFrame>, restarts: nat, tracker: string) {
    frames != [] && frames[|frames| - 1].restarts == restarts && !FrameCarries(frames[|frames| - 1], tracker)
    && (tracker in ReportAt(cfg, frames, |frames| - 1).crossed || Reported(cfg, frames[..|frames| - 1], restarts, tracker))
  }

  /** What a report says of one tracker, given the memory it is measured against. */
  lemma MeasuredIs(cfg: Config, m: Memory, samples: seq<Sample>, at: real, tracker: string)
    requires Distinct(m.observed) && forall t :: t in m.observed <==> t in m.lastSeen
    ensures var r := Measured(cfg, m, samples, at);
            && Distinct(r.missing) && Distinct(r.stale) && Distinct(r.crossed)
            && (tracker in r.missing <==> tracker in m.observed && !Carries(samples, tracker))
            && (tracker in r.stale <==> tracker in r.missing && Silent(cfg, m.lastSeen[tracker], at))
            && (tracker in r.crossed <==> tracker in r.stale && tracker !in m.reportedStale)
  {
    hide Carries, Silent, Distinct, Observing, SeenWith, ReportsEnd, Absent, StaleAmong, CrossedAmong, HeadOf, PartialCount,
         IsDiscontinuous;
    var observed, seen, reported := Observing(m.observed, samples), SeenWith(m.lastSeen, samples, at), ReportsEnd(m.reportedStale, samples);
    var missing := Absent(observed, samples);
    var stale := StaleAmong(cfg, missing, seen, at);
    ObservingIs(m.observed, samples, tracker);
    SeenWithIs(m.lastSeen, samples, at, tracker);
    ReportsEndIs(m.reportedStale, samples, tracker);
    AbsentIs(observed, samples, tracker);
    StaleAmongIs(cfg, missing, seen, at, tracker);
    CrossedAmongIs(stale, reported, tracker);
  }

  /** What a frame leaves remembered of one tracker. */
  lemma RememberedIs(cfg: Config, m: Memory, samples: seq<Sample>, at: real, tracker: string)
    requires Distinct(m.observed) && forall t :: t in m.observed <==> t in m.lastSeen
    requires DistinctTrackers(samples)
    ensures var m', r, p := Remembered(cfg, m, samples, at), Measured(cfg, m, samples, at), Carried(samples, tracker, Position);
            && Distinct(m'.observed)
            && (tracker in m'.observed <==> tracker in m.observed || Carries(samples, tracker))
            && (tracker in m'.lastSeen <==> tracker in m'.observed)
            && (tracker in m'.lastSeen ==> m'.lastSeen[tracker] == if Carries(samples, tracker) then at else m.lastSeen[tracker])
            && (tracker in m'.reportedStale <==>
                  !Carries(samples, tracker) && (tracker in r.crossed || tracker in m.reportedStale))
            && (tracker in m'.lastPosition <==> tracker in m.lastPosition || p.Some?)
            && (tracker in m'.lastPosition ==> m'.lastPosition[tracker] == if p.Some? then p.value else m.lastPosition[tracker])
  {
    hide Carries, Silent, Distinct, DistinctTrackers, Observing, SeenWith, ReportsEnd, StandingAt, Carried, Measured;
    ObservingIs(m.observed, samples, tracker);
    SeenWithIs(m.lastSeen, samples, at, tracker);
    ReportsEndIs(m.reportedStale, samples, tracker);
    StandingAtIs(m.lastPosition, samples, tracker);
    MeasuredIs(cfg, m, samples, at, tracker);
  }

  /** Every frame's samples are one for each tracker. */
  ghost predicate Sampled(frames: seq<OpenFrame>) {
    forall f :: f in frames ==> DistinctTrackers(SamplesOf(f.entries))
  }

  /** A memory says of one tracker what the last frames that carried and placed it say. */
  ghost predicate Agrees(cfg: Config, m: Memory, frames: seq<OpenFrame>, restarts: nat, tracker: string) {
    var i, p := LastThat(frames, restarts, Carrying(tracker)), LastThat(frames, restarts, Placing(tracker));
    && (tracker in m.observed <==> i.Some?) && (tracker in m.lastSeen <==> i.Some?)
    && (i.Some? ==> m.lastSeen[tracker] == frames[i.value].receiveTime)
    && (tracker in m.reportedStale <==> Reported(cfg, frames, restarts, tracker))
    && (tracker in m.lastPosition <==> p.Some?)
    && (p.Some? ==> Some(m.lastPosition[tracker]) == PositionIn(frames[p.value], tracker))
  }

  lemma NothingAgrees(cfg: Config, frames: seq<OpenFrame>, restarts: nat, tracker: string)
    requires frames == [] || frames[|frames| - 1].restarts != restarts
    ensures Agrees(cfg, NOTHING_YET, frames, restarts, tracker)
  {
  }

  lemma AgreesOn(cfg: Config, m: Memory, frames: seq<OpenFrame>, restarts: nat, tracker: string)
    requires frames != [] && frames[|frames| - 1].restarts == restarts
    requires Distinct(m.observed) && forall t :: t in m.observed <==> t in m.lastSeen
    requires m == MemoryOf(cfg, frames[..|frames| - 1], restarts) && Agrees(cfg, m, frames[..|frames| - 1], restarts, tracker)
    requires DistinctTrackers(SamplesOf(frames[|frames| - 1].entries))
    ensures var last := frames[|frames| - 1];
            Agrees(cfg, Remembered(cfg, m, SamplesOf(last.entries), last.receiveTime), frames, restarts, tracker)
  {
    hide Carries, Distinct, DistinctTrackers, SamplesOf, Carried, Measured, Remembered, MemoryOf;
    var last := frames[|frames| - 1];
    RememberedIs(cfg, m, SamplesOf(last.entries), last.receiveTime, tracker);
    assert ReportAt(cfg, frames, |frames| - 1) == Measured(cfg, m, SamplesOf(last.entries), last.receiveTime);
  }

  /** A session remembers of each tracker what the last frames that carried and placed it say. */
  lemma {:induction false} MemoryHolds(cfg: Config, frames: seq<OpenFrame>, restarts: nat, tracker: string)
    requires Sampled(frames)
    ensures Distinct(MemoryOf(cfg, frames, restarts).observed)
    ensures Agrees(cfg, MemoryOf(cfg, frames, restarts), frames, restarts, tracker)
    decreases |frames|
  {
    hide Distinct, DistinctTrackers, SamplesOf, Measured, Remembered, Agrees;
    if frames == [] || frames[|frames| - 1].restarts != restarts {
      NothingAgrees(cfg, frames, restarts, tracker);
      NothingIsDistinct();
    } else {
      var front, last := frames[..|frames| - 1], frames[|frames| - 1];
      var m := MemoryOf(cfg, front, restarts);
      forall t
        ensures t in m.observed <==> t in m.lastSeen
      {
        MemoryHolds(cfg, front, restarts, t);
        SeenIsObserved(cfg, m, front, restarts, t);
      }
      MemoryHolds(cfg, front, restarts, tracker);
      assert last in frames;
      AgreesOn(cfg, m, frames, restarts, tracker);
      RememberedIs(cfg, m, SamplesOf(last.entries), last.receiveTime, tracker);
    }
  }

  lemma NothingIsDistinct()
    ensures Distinct([])
  {
  }

  lemma SeenIsObserved(cfg: Config, m: Memory, frames: seq<OpenFrame>, restarts: nat, tracker: string)
    requires Agrees(cfg, m, frames, restarts, tracker)
    ensures tracker in m.observed <==> tracker in m.lastSeen
  {
    hide LastThat, Reported;
  }

  /** What frame `k` says of one tracker, by the frames of its session before it. */
  lemma ReportHolds(cfg: Config, frames: seq<OpenFrame>, k: nat, tracker: string)
    requires Sampled(frames) && k < |frames|
    ensures var r, i := ReportAt(cfg, frames, k), LastThat(frames[..k], frames[k].restarts, Carrying(tracker));
            && Distinct(r.missing) && Distinct(r.stale) && Distinct(r.crossed)
            && (tracker in r.missing <==> i.Some? && !FrameCarries(frames[k], tracker))
            && (tracker in r.stale <==>
                  tracker in r.missing && Silent(cfg, frames[i.value].receiveTime, frames[k].receiveTime))
            && (tracker in r.crossed <==> tracker in r.stale && !Reported(cfg, frames[..k], frames[k].restarts, tracker))
  {
    hide Carries, Distinct, DistinctTrackers, SamplesOf, Measured, MemoryOf, Reported, Silent;
    var front := frames[..k];
    var m := MemoryOf(cfg, front, frames[k].restarts);
    MemoryHolds(cfg, front, frames[k].restarts, tracker);
    forall t
      ensures t in m.observed <==> t in m.lastSeen
    {
      MemoryHolds(cfg, front, frames[k].restarts, t);
      SeenIsObserved(cfg, m, front, frames[k].restarts, t);
    }
    MeasuredIs(cfg, m, SamplesOf(frames[k].entries), frames[k].receiveTime, tracker);
  }

  // ---- Sessions, as the frames mark them ----

  /** No frame after the `i`th and up to the `k`th begins a session. */
  ghost predicate SameSession(frames: seq<OpenFrame>, i: int, k: int) {
    forall j :: 0 <= j < |frames| && i < j <= k ==> !frames[j].beginsNewSession
  }

  /** The restarts seen grow from frame to frame, by none exactly within a session. */
  lemma {:induction false} RestartsMark(frames: seq<OpenFrame>, i: nat, k: nat)
    requires i <= k < |frames| && SessionsBegin(frames)
    ensures frames[i].restarts <= frames[k].restarts
    ensures frames[i].restarts == frames[k].restarts <==> SameSession(frames, i, k)
    decreases k - i
  {
    if i < k {
      RestartsMark(frames, i, k - 1);
      assert BeginsAt(frames, k);
      assert frames[..k][|frames[..k]| - 1] == frames[k - 1];
      assert SameSession(frames, i, k) <==> SameSession(frames, i, k - 1) && !frames[k].beginsNewSession;
    }
  }

  /** Frame `i` is the last before the `k`th, in its session, of which something holds. */
  ghost predicate LastBefore(frames: seq<OpenFrame>, i: nat, k: nat, holds: OpenFrame -> bool)
    requires k <= |frames|
  {
    i < k && holds(frames[i]) && SameSession(frames, i, k) && forall j :: i < j < k ==> !holds(frames[j])
  }

  /** The search back from frame `k` finds that frame. */
  lemma {:induction false} SearchFinds(frames: seq<OpenFrame>, n: nat, k: nat, holds: OpenFrame -> bool)
    requires n <= k < |frames| && SessionsBegin(frames)
    requires n < k ==> SameSession(frames, n, k) && forall j :: n <= j < k ==> !holds(frames[j])
    ensures var found := LastThat(frames[..n], frames[k].restarts, holds);
            && (found.Some? ==> LastBefore(frames, found.value, k, holds))
            && (forall i: nat :: LastBefore(frames, i, k, holds) ==> found == Some(i))
            && (found.None? ==> forall i :: 0 <= i < k && SameSession(frames, i, k) ==> !holds(frames[i]))
    decreases n
  {
    if n > 0 {
      RestartsMark(frames, n - 1, k);
      assert frames[..n][..n - 1] == frames[..n - 1];
      if frames[n - 1].restarts != frames[k].restarts {
        forall i | 0 <= i < n
          ensures !SameSession(frames, i, k)
        {
          assert SameSession(frames, i, k) ==> SameSession(frames, n - 1, k);
        }
      } else if !holds(frames[n - 1]) {
        SearchFinds(frames, n - 1, k, holds);
      }
    }
  }

  /** The frames a run closed, in order. */
  function FramesOfRun(cfg: Config, events: seq<Event>): seq<OpenFrame> {
    Closed(Run(cfg, events).closures)
  }

  lemma RunIsMarked(cfg: Config, events: seq<Event>)
    ensures SessionsBegin(FramesOfRun(cfg, events)) && Sampled(FramesOfRun(cfg, events))
  {
    hide Run, Coheres, SessionsBegin, Sampled, DistinctTrackers;
    RunKeeps(cfg, events);
    var l := Run(cfg, events);
    ClosedBegin(l);
    ClosedAreSampled(cfg, l.closures);
  }

  lemma ClosedBegin(l: Ledger)
    requires SessionsBegin(Opened(l))
    ensures SessionsBegin(Closed(l.closures))
  {
    var all, frames := Opened(l), Closed(l.closures);
    forall i | 0 <= i < |frames|
      ensures BeginsAt(frames, i)
    {
      assert BeginsAt(all, i);
      assert all[..i] == frames[..i];
    }
  }

  lemma ClosedAreSampled(cfg: Config, closures: seq<Closure>)
    requires forall c :: c in closures ==> Coheres(cfg, c.frame)
    ensures Sampled(Closed(closures))
  {
    hide DistinctTrackers, SamplesOf;
    forall f | f in Closed(closures)
      ensures DistinctTrackers(SamplesOf(f.entries))
    {
      var i :| 0 <= i < |closures| && Closed(closures)[i] == f;
      assert closures[i] in closures;
      SamplesHoldTheEntries(f.entries);
    }
  }

  // ---- The promises over whole runs ----

  /** A tracker is missing from a frame exactly when its session carried it before and the frame does not. */
  lemma MissingIsMeasured(cfg: Config, events: seq<Event>, k: nat, tracker: string)
    requires k < |FramesOfRun(cfg, events)|
    ensures var frames := FramesOfRun(cfg, events);
            tracker in ReportAt(cfg, frames, k).missing <==>
              !FrameCarries(frames[k], tracker)
              && exists i :: 0 <= i < k && SameSession(frames, i, k) && FrameCarries(frames[i], tracker)
    ensures Distinct(ReportAt(cfg, FramesOfRun(cfg, events), k).missing)
  {
    hide FramesOfRun, FrameCarries, ReportAt, Distinct, Reported, SessionsBegin;
    var frames := FramesOfRun(cfg, events);
    RunIsMarked(cfg, events);
    ReportHolds(cfg, frames, k, tracker);
    SearchFinds(frames, k, k, Carrying(tracker));
  }

  /** A missing tracker is stale exactly when the last frame to carry it is the horizon or more ago, and stale trackers are missing. */
  lemma StaleIsMeasured(cfg: Config, events: seq<Event>, k: nat, tracker: string)
    requires k < |FramesOfRun(cfg, events)|
    ensures var frames := FramesOfRun(cfg, events);
            tracker in ReportAt(cfg, frames, k).stale <==>
              tracker in ReportAt(cfg, frames, k).missing
              && exists i :: 0 <= i < k && LastBefore(frames, i, k, Carrying(tracker))
                             && Silent(cfg, frames[i].receiveTime, frames[k].receiveTime)
    ensures var r := ReportAt(cfg, FramesOfRun(cfg, events), k); Distinct(r.stale) && Distinct(r.crossed)
  {
    hide FramesOfRun, FrameCarries, ReportAt, Distinct, Reported, SessionsBegin, Silent, LastBefore;
    var frames := FramesOfRun(cfg, events);
    RunIsMarked(cfg, events);
    ReportHolds(cfg, frames, k, tracker);
    SearchFinds(frames, k, k, Carrying(tracker));
  }

  /** A tracker reported stale stays so until it is carried or a session begins. */
  lemma {:induction false} StillReported(cfg: Config, frames: seq<OpenFrame>, i: nat, n: nat, tracker: string)
    requires i < n <= |frames| && SessionsBegin(frames) && SameSession(frames, i, n - 1)
    requires tracker in ReportAt(cfg, frames, i).crossed && forall j :: i <= j < n ==> !FrameCarries(frames[j], tracker)
    ensures Reported(cfg, frames[..n], frames[i].restarts, tracker)
    decreases n
  {
    hide FrameCarries, Measured, MemoryOf;
    RestartsMark(frames, i, n - 1);
    assert frames[..n][..n - 1] == frames[..n - 1];
    if i == n - 1 {
      assert ReportAt(cfg, frames[..n], i) == ReportAt(cfg, frames, i) by {
        assert frames[..n][..i] == frames[..i];
      }
    } else {
      StillReported(cfg, frames, i, n - 1, tracker);
    }
  }

  /** What is reported was first reported by some frame, and not carried since. */
  lemma {:induction false} ReportedByOne(cfg: Config, frames: seq<OpenFrame>, n: nat, restarts: nat, tracker: string) returns (i: nat)
    requires n <= |frames| && Reported(cfg, frames[..n], restarts, tracker)
    ensures i < n && frames[i].restarts == restarts && tracker in ReportAt(cfg, frames, i).crossed
    ensures forall j :: i <= j < n ==> !FrameCarries(frames[j], tracker)
    decreases n
  {
    hide FrameCarries, Measured, MemoryOf;
    var front := frames[..n];
    assert front[..n - 1] == frames[..n - 1];
    assert ReportAt(cfg, front, n - 1) == ReportAt(cfg, frames, n - 1);
    if tracker in ReportAt(cfg, frames, n - 1).crossed {
      i := n - 1;
    } else {
      i := ReportedByOne(cfg, frames, n - 1, restarts, tracker);
    }
  }

  /** Between two frames that first report a tracker stale it was carried, or a session began. */
  lemma StaleOnceBetweenUpdates(cfg: Config, events: seq<Event>, i: nat, k: nat, tracker: string)
    requires i < k < |FramesOfRun(cfg, events)|
    requires var frames := FramesOfRun(cfg, events);
             tracker in ReportAt(cfg, frames, i).crossed && tracker in ReportAt(cfg, frames, k).crossed
    ensures var frames := FramesOfRun(cfg, events);
            !SameSession(frames, i, k) || exists j :: i < j < k && FrameCarries(frames[j], tracker)
  {
    hide FramesOfRun, FrameCarries, ReportAt, Distinct, Reported, SessionsBegin, Silent;
    var frames := FramesOfRun(cfg, events);
    RunIsMarked(cfg, events);
    ReportHolds(cfg, frames, i, tracker);
    ReportHolds(cfg, frames, k, tracker);
    if SameSession(frames, i, k) && forall j :: i < j < k ==> !FrameCarries(frames[j], tracker) {
      StillReported(cfg, frames, i, k, tracker);
      RestartsMark(frames, i, k);
    }
  }

  /** No staleness goes unreported: a stale tracker was first reported by this frame or by one since it was last carried. */
  lemma EveryStaleIsReported(cfg: Config, events: seq<Event>, k: nat, tracker: string)
    requires k < |FramesOfRun(cfg, events)|
    requires tracker in ReportAt(cfg, FramesOfRun(cfg, events), k).stale
    ensures var frames := FramesOfRun(cfg, events);
            exists i :: 0 <= i <= k && tracker in ReportAt(cfg, frames, i).crossed && SameSession(frames, i, k)
                        && forall j :: i <= j <= k ==> !FrameCarries(frames[j], tracker)
  {
    hide FramesOfRun, FrameCarries, ReportAt, Distinct, Reported, SessionsBegin, Silent, LastThat;
    var frames := FramesOfRun(cfg, events);
    RunIsMarked(cfg, events);
    ReportHolds(cfg, frames, k, tracker);
    if tracker in ReportAt(cfg, frames, k).crossed {
      assert SameSession(frames, k, k);
    } else {
      var i := ReportedByOne(cfg, frames, k, frames[k].restarts, tracker);
      RestartsMark(frames, i, k);
    }
  }

  // ---- Discontinuities ----

  /** Every comparable sample has jumped exactly when as many jumped as can be compared. */
  lemma {:induction false} AllJumpedIff(cfg: Config, samples: seq<Sample>, positions: map<string, Vector>)
    ensures JumpedCount(cfg, samples, positions) <= ComparableCount(samples, positions)
    ensures JumpedCount(cfg, samples, positions) == ComparableCount(samples, positions) <==>
            forall s :: s in samples && IsComparable(s, positions) ==> HasJumped(cfg, s, positions)
  {
    if samples != [] {
      hide FarApart;
      var front, last := samples[..|samples| - 1], samples[|samples| - 1];
      AllJumpedIff(cfg, front, positions);
      assert samples == front + [last];
    }
  }

  lemma {:induction false} OneComparableIff(samples: seq<Sample>, positions: map<string, Vector>)
    ensures ComparableCount(samples, positions) >= 1 <==> exists i :: 0 <= i < |samples| && IsComparable(samples[i], positions)
  {
    if samples != [] {
      hide IsComparable;
      var front, last := samples[..|samples| - 1], samples[|samples| - 1];
      OneComparableIff(front, positions);
      assert samples == front + [last];
      if i :| 0 <= i < |front| && IsComparable(front[i], positions) {
        assert IsComparable(samples[i], positions);
      }
    }
  }

  /** Two samples can be compared exactly when at least two are counted. */
  lemma {:induction false} TwoComparableIff(samples: seq<Sample>, positions: map<string, Vector>)
    ensures ComparableCount(samples, positions) >= 2 <==>
            exists i, k :: 0 <= i < k < |samples| && IsComparable(samples[i], positions) && IsComparable(samples[k], positions)
  {
    if samples != [] {
      hide IsComparable;
      var front, last := samples[..|samples| - 1], samples[|samples| - 1];
      TwoComparableIff(front, positions);
      OneComparableIff(front, positions);
      assert samples == front + [last];
      if i, k :| 0 <= i < k < |front| && IsComparable(front[i], positions) && IsComparable(front[k], positions) {
        assert IsComparable(samples[i], positions) && IsComparable(samples[k], positions);
      }
      if i :| 0 <= i < |front| && IsComparable(front[i], positions) {
        assert IsComparable(samples[i], positions);
      }
    }
  }

  /** A tracker that frame `k` places, and that an earlier frame of its session placed too. */
  ghost predicate IsCompared(frames: seq<OpenFrame>, k: nat, tracker: string)
    requires k < |frames|
  {
    && PositionIn(frames[k], tracker).Some?
    && exists i :: 0 <= i < k && SameSession(frames, i, k) && PositionIn(frames[i], tracker).Some?
  }

  /** That tracker stands far from where the last frame to place it had it. */
  ghost predicate Jumps(cfg: Config, frames: seq<OpenFrame>, k: nat, tracker: string)
    requires k < |frames|
  {
    exists i :: 0 <= i < k && LastBefore(frames, i, k, Placing(tracker)) && PositionIn(frames[k], tracker).Some?
                && FarApart(cfg, PositionIn(frames[k], tracker).value, PositionIn(frames[i], tracker).value)
  }

  /** What is compared of one tracker, by the memory and by the frames. */
  lemma ComparedHolds(cfg: Config, frames: seq<OpenFrame>, k: nat, tracker: string)
    requires SessionsBegin(frames) && Sampled(frames) && k < |frames|
    ensures var positions := MemoryOf(cfg, frames[..k], frames[k].restarts).lastPosition;
            && (IsCompared(frames, k, tracker) <==> PositionIn(frames[k], tracker).Some? && tracker in positions)
            && (Jumps(cfg, frames, k, tracker) <==>
                  PositionIn(frames[k], tracker).Some? && tracker in positions
                  && FarApart(cfg, PositionIn(frames[k], tracker).value, positions[tracker]))
  {
    hide SessionsBegin, MemoryOf, Reported, FarApart, PositionIn, Distinct;
    MemoryHolds(cfg, frames[..k], frames[k].restarts, tracker);
    SearchFinds(frames, k, k, Placing(tracker));
  }

  /** The samples of distinct trackers, tracker by tracker. */
  lemma SampleIsTheirs(samples: seq<Sample>, tracker: string)
    requires DistinctTrackers(samples)
    ensures Carried(samples, tracker, Position).Some? <==>
            exists i :: 0 <= i < |samples| && samples[i].tracker == tracker && samples[i].position.Some?
    ensures forall i :: 0 <= i < |samples| && samples[i].tracker == tracker ==>
              samples[i].position == Carried(samples, tracker, Position)
  {
    forall i | 0 <= i < |samples| && samples[i].tracker == tracker
      ensures samples[i].position == Carried(samples, tracker, Position)
    {
      IndexIsUnique(samples, i);
    }
  }

  predicate Stands(samples: seq<Sample>, tracker: string) {
    Carried(samples, tracker, Position).Some?
  }

  lemma StandsInASample(samples: seq<Sample>, tracker: string) returns (i: nat)
    requires DistinctTrackers(samples) && Stands(samples, tracker)
    ensures i < |samples| && samples[i].tracker == tracker && samples[i].position == Carried(samples, tracker, Position)
  {
    i := IndexOf(samples, tracker);
  }

  lemma AllByTracker(cfg: Config, samples: seq<Sample>, positions: map<string, Vector>)
    requires DistinctTrackers(samples)
    ensures (forall s :: s in samples && IsComparable(s, positions) ==> HasJumped(cfg, s, positions)) <==>
            (forall t :: Stands(samples, t) && t in positions ==> FarApart(cfg, Carried(samples, t, Position).value, positions[t]))
  {
    hide FarApart, Carried, DistinctTrackers;
    if forall s :: s in samples && IsComparable(s, positions) ==> HasJumped(cfg, s, positions) {
      forall t | Stands(samples, t) && t in positions
        ensures FarApart(cfg, Carried(samples, t, Position).value, positions[t])
      {
        var i := StandsInASample(samples, t);
        assert samples[i] in samples && IsComparable(samples[i], positions);
      }
    }
    if forall t :: Stands(samples, t) && t in positions ==> FarApart(cfg, Carried(samples, t, Position).value, positions[t]) {
      forall s | s in samples && IsComparable(s, positions)
        ensures HasJumped(cfg, s, positions)
      {
        SampleIsTheirs(samples, s.tracker);
        assert Stands(samples, s.tracker);
      }
    }
  }

  lemma TwoByTracker(samples: seq<Sample>, positions: map<string, Vector>)
    requires DistinctTrackers(samples)
    ensures (exists i, k :: 0 <= i < k < |samples| && IsComparable(samples[i], positions) && IsComparable(samples[k], positions))
      <==> (exists s, t :: s != t && Stands(samples, s) && s in positions && Stands(samples, t) && t in positions)
  {
    hide Carried;
    if i, k :| 0 <= i < k < |samples| && IsComparable(samples[i], positions) && IsComparable(samples[k], positions) {
      SampleIsTheirs(samples, samples[i].tracker);
      SampleIsTheirs(samples, samples[k].tracker);
      assert Stands(samples, samples[i].tracker) && Stands(samples, samples[k].tracker);
    }
    if s, t :| s != t && Stands(samples, s) && s in positions && Stands(samples, t) && t in positions {
      var i := StandsInASample(samples, s);
      var k := StandsInASample(samples, t);
      assert IsComparable(samples[i], positions) && IsComparable(samples[k], positions);
      assert i < k || k < i;
    }
  }

  /** The comparison by samples is the comparison by trackers. */
  lemma DiscontinuityByTracker(cfg: Config, samples: seq<Sample>, positions: map<string, Vector>)
    requires DistinctTrackers(samples)
    ensures IsDiscontinuous(cfg, samples, positions) <==>
            && cfg.calibrationJumpMeters > 0.0
            && (exists s, t :: s != t && Stands(samples, s) && s in positions && Stands(samples, t) && t in positions)
            && forall t :: Stands(samples, t) && t in positions ==>
                 FarApart(cfg, Carried(samples, t, Position).value, positions[t])
  {
    hide FarApart, ComparableCount, JumpedCount, IsComparable, HasJumped, Stands, Carried, DistinctTrackers;
    AllJumpedIff(cfg, samples, positions);
    TwoComparableIff(samples, positions);
    AllByTracker(cfg, samples, positions);
    TwoByTracker(samples, positions);
  }

  /**
   A frame follows a discontinuity exactly when the check is on, at least two of its trackers were placed
   before in its session, and every one that was stands far from where it was placed last.
   */
  lemma DiscontinuityIsMeasured(cfg: Config, events: seq<Event>, k: nat)
    requires k < |FramesOfRun(cfg, events)|
    ensures var frames := FramesOfRun(cfg, events);
            ReportAt(cfg, frames, k).followsDiscontinuity <==>
              && cfg.calibrationJumpMeters > 0.0
              && (exists s, t :: s != t && IsCompared(frames, k, s) && IsCompared(frames, k, t))
              && forall t :: IsCompared(frames, k, t) ==> Jumps(cfg, frames, k, t)
  {
    hide FramesOfRun, SessionsBegin, MemoryOf, IsDiscontinuous, IsCompared, Jumps, FarApart, Carried, DistinctTrackers, SamplesOf;
    var frames := FramesOfRun(cfg, events);
    RunIsMarked(cfg, events);
    var samples, positions := SamplesOf(frames[k].entries), MemoryOf(cfg, frames[..k], frames[k].restarts).lastPosition;
    assert frames[k] in frames;
    DiscontinuityByTracker(cfg, samples, positions);
    forall t
      ensures IsCompared(frames, k, t) <==> Stands(samples, t) && t in positions
      ensures Jumps(cfg, frames, k, t) <==>
              Stands(samples, t) && t in positions && FarApart(cfg, Carried(samples, t, Position).value, positions[t])
    {
      ComparedHolds(cfg, frames, k, t);
    }
  }

  // ---- The head, the halves and the totals ----

  lemma {:induction false} HeadIsFound(samples: seq<Sample>)
    ensures HeadOf(samples).Some? <==> Carries(samples, "head")
    ensures HeadOf(samples).Some? ==> HeadOf(samples).value < |samples| && samples[HeadOf(samples).value].tracker == "head"
  {
    if samples != [] {
      var front, last := samples[..|samples| - 1], samples[|samples| - 1];
      HeadIsFound(front);
      CarriesGrows(front, last, "head");
      assert samples == front + [last];
    }
  }

  lemma HeadIsTheOne(samples: seq<Sample>)
    requires DistinctTrackers(samples)
    ensures HeadOf(samples).Some? <==> Carries(samples, "head")
    ensures forall i :: 0 <= i < |samples| ==> (samples[i].tracker == "head" <==> HeadOf(samples) == Some(i))
  {
    hide HeadOf;
    HeadIsFound(samples);
  }

  lemma {:induction false} PartialIffOne(samples: seq<Sample>)
    ensures PartialCount(samples) == 0 <==> forall s :: s in samples ==> IsComplete(s)
    ensures 2 * |samples| == ChannelCount(samples) + PartialCount(samples)
            <== forall s :: s in samples ==> s.position.Some? || s.rotation.Some?
  {
    if samples != [] {
      var front, last := samples[..|samples| - 1], samples[|samples| - 1];
      PartialIffOne(front);
      assert samples == front + [last];
    }
  }

  /**
   The head is a sample of the frame, and the only one named so, exactly when the frame carries it; the
   frame's partial samples are what its accepted values leave of two for each sample.
   */
  lemma HeadAndPartsAreMeasured(cfg: Config, events: seq<Event>, k: nat)
    requires k < |FramesOfRun(cfg, events)|
    ensures var frame, r := FramesOfRun(cfg, events)[k], ReportAt(cfg, FramesOfRun(cfg, events), k);
            var samples := SamplesOf(frame.entries);
            && (r.headReference.Some? <==> FrameCarries(frame, "head"))
            && (forall i :: 0 <= i < |samples| ==> (samples[i].tracker == "head" <==> r.headReference == Some(i)))
            && r.partial == 2 * |samples| - |frame.entries|
  {
    hide FramesOfRun, SessionsBegin, MemoryOf, SamplesOf, Carries, HeadOf, PartialCount;
    var frames := FramesOfRun(cfg, events);
    var samples := SamplesOf(frames[k].entries);
    assert frames[k] in frames;
    ClosedCoheres(cfg, events, k);
    SamplesHoldTheEntries(frames[k].entries);
    HeadIsTheOne(samples);
    PartialIffOne(samples);
  }

  lemma ClosedCoheres(cfg: Config, events: seq<Event>, k: nat)
    requires k < |FramesOfRun(cfg, events)|
    ensures DistinctChannels(FramesOfRun(cfg, events)[k].entries)
  {
    hide Run, SessionsBegin, DistinctChannels;
    RunKeeps(cfg, events);
    assert Run(cfg, events).closures[k] in Run(cfg, events).closures;
  }
}
