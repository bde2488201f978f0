/**
 The mocopi frame assembler of FrameAssembler.cpp: frames refused until a rig is declared, a clock that
 advances, a counter that tells a restart, and a session forgotten whole when one is seen.
 */
module MocopiFrames {
  import opened Bytes

  /** A decoded packet; a skeleton packet carries the map it yields, or None when its rig was refused. */
  datatype Packet<+M, +F> =
    | Skeleton(rig: Option<M>)
    | Frame(number: nat, streamSeconds: real, senderUnixSeconds: real, records: F)
    | Neither

  /** A bound of zero disables the clock's own restart rule. */
  datatype Config<!M, !F, !P> = Config(restartBackwardsSeconds: real, map_: (M, F) -> Option<P>)

  datatype Emission<+M, +P> = Emission(
    timestamp: real,
    number: nat,
    beginsNewSession: bool,
    clockDrift: real,
    lostFrames: nat,
    rig: M,
    mapping: P)

  /** What came of each packet, and the restarts seen on the way. */
  datatype Happening<+M, +P> =
    | RigAccepted(rig: M)
    | RigRefused
    | Restarted
    | Emitted(emission: Emission<M, P>)
    | OutOfOrder
    | NoRig
    | Empty

  datatype Stats = Stats(
    framesEmitted: nat,
    framesLost: nat,
    refusedOutOfOrder: nat,
    refusedNoRig: nat,
    refusedEmpty: nat,
    sessionRestarts: nat,
    skeletonsAccepted: nat,
    skeletonsRefused: nat)

  const NO_STATS := Stats(0, 0, 0, 0, 0, 0, 0, 0)

  /** The assembler's state, with everything that happened so far. */
  datatype Ledger<+M, +P> = Ledger(
    rig: Option<M>,
    lastStream: Option<real>,
    lastNumber: Option<nat>,
    epoch: Option<real>,
    pendingNewSession: bool,
    stats: Stats,
    log: seq<Happening<M, P>>)

  function Start<M, P>(): Ledger<M, P> {
    Ledger(None, None, None, None, false, NO_STATS, [])
  }

  const UINT32 := 0x1_0000_0000

  /** The frames a counter skipped, in 32-bit arithmetic. */
  function Lost(last: Option<nat>, number: nat): nat {
    if last.Some? && number > (last.value + 1) % UINT32 then (number - last.value - 1) % UINT32 else 0
  }

  predicate Repeats<M, P>(l: Ledger<M, P>, number: nat) {
    l.lastNumber == Some(number)
  }

  predicate FallsBack<M, P>(l: Ledger<M, P>, seconds: real) {
    l.lastStream.Some? && seconds <= l.lastStream.value
  }

  /** A clock that does not advance is a restart if the counter went back too, or if it fell back far enough. */
  predicate BeginsAgain<M, F, P>(cfg: Config<M, F, P>, l: Ledger<M, P>, number: nat, seconds: real)
    requires FallsBack(l, seconds)
  {
    || (l.lastNumber.Some? && number < l.lastNumber.value)
    || (cfg.restartBackwardsSeconds > 0.0 && l.lastStream.value - seconds > cfg.restartBackwardsSeconds)
  }

  /** A restart drops everything the old stream established, its rig included. */
  function Forgotten<M, P>(l: Ledger<M, P>): Ledger<M, P> {
    l.(rig := None, lastStream := None, lastNumber := None, epoch := None, pendingNewSession := true,
       stats := l.stats.(sessionRestarts := l.stats.sessionRestarts + 1), log := l.log + [Restarted])
  }

  function Refused<M, P>(l: Ledger<M, P>, why: Happening<M, P>): Ledger<M, P> {
    l.(log := l.log + [why],
       stats := match why
                case OutOfOrder => l.stats.(refusedOutOfOrder := l.stats.refusedOutOfOrder + 1)
                case NoRig => l.stats.(refusedNoRig := l.stats.refusedNoRig + 1)
                case Empty => l.stats.(refusedEmpty := l.stats.refusedEmpty + 1)
                case _ => l.stats)
  }

  function EmissionOf<M, P>(l: Ledger<M, P>, number: nat, seconds: real, unix: real, rig: M, mapping: P): Emission<M, P> {
    var offset := unix - seconds;
    Emission(seconds, number, l.pendingNewSession, if l.epoch.Some? then offset - l.epoch.value else 0.0,
             Lost(l.lastNumber, number), rig, mapping)
  }

  /** A frame in order is read through the rig the session declared. */
  function Read<M, F, P>(cfg: Config<M, F, P>, l: Ledger<M, P>, number: nat, seconds: real, unix: real, records: F): Ledger<M, P> {
    if l.rig.None? then Refused(l, NoRig)
    else
      match cfg.map_(l.rig.value, records)
      case None => Refused(l, Empty)
      case Some(mapping) =>
        var e := EmissionOf(l, number, seconds, unix, l.rig.value, mapping);
        l.(lastStream := Some(seconds), lastNumber := Some(number), pendingNewSession := false,
           epoch := if l.epoch.Some? then l.epoch else Some(unix - seconds),
           stats := l.stats.(framesEmitted := l.stats.framesEmitted + 1, framesLost := l.stats.framesLost + e.lostFrames),
           log := l.log + [Emitted(e)])
  }

  function Step<M, F, P>(cfg: Config<M, F, P>, l: Ledger<M, P>, p: Packet<M, F>): Ledger<M, P> {
    match p
    case Skeleton(rig) =>
      if rig.None? then
        l.(stats := l.stats.(skeletonsRefused := l.stats.skeletonsRefused + 1), log := l.log + [RigRefused])
      else
        l.(rig := rig, stats := l.stats.(skeletonsAccepted := l.stats.skeletonsAccepted + 1),
           log := l.log + [RigAccepted(rig.value)])
    case Frame(number, seconds, unix, records) =>
      if Repeats(l, number) then Refused(l, OutOfOrder)
      else if !FallsBack(l, seconds) then Read(cfg, l, number, seconds, unix, records)
      else if BeginsAgain(cfg, l, number, seconds) then Read(cfg, Forgotten(l), number, seconds, unix, records)
      else Refused(l, OutOfOrder)
    case Neither => l
  }

  function Run<M, F, P>(cfg: Config<M, F, P>, packets: seq<Packet<M, F>>): Ledger<M, P> {
    if packets == [] then Start() else Step(cfg, Run(cfg, packets[..|packets| - 1]), packets[|packets| - 1])
  }

  // ---- What every run keeps ----

  /** The rig declared last since the last restart. */
  function RigOf<M, P>(log: seq<Happening<M, P>>): Option<M> {
    if log == [] then None
    else
      match log[|log| - 1]
      case RigAccepted(rig) => Some(rig)
      case Restarted => None
      case _ => RigOf(log[..|log| - 1])
  }

  /** The last emission of the session under way, and whether the next one begins a session. */
  function LastOf<M, P>(log: seq<Happening<M, P>>): Option<Emission<M, P>> {
    if log == [] then None
    else
      match log[|log| - 1]
      case Emitted(e) => Some(e)
      case Restarted => None
      case _ => LastOf(log[..|log| - 1])
  }

  function Pending<M, P>(log: seq<Happening<M, P>>): bool {
    log != [] &&
    match log[|log| - 1]
    case Emitted(_) => false
    case Restarted => true
    case _ => Pending(log[..|log| - 1])
  }

  /** One emission, given what happened before it. */
  ghost predicate Justified<M, P>(log: seq<Happening<M, P>>, e: Emission<M, P>) {
    && RigOf(log) == Some(e.rig)
    && (e.beginsNewSession <==> Pending(log))
    && (LastOf(log).Some? ==>
          && LastOf(log).value.timestamp < e.timestamp && LastOf(log).value.number != e.number
          && e.lostFrames == Lost(Some(LastOf(log).value.number), e.number))
    && (LastOf(log).None? ==> e.lostFrames == 0 && e.clockDrift == 0.0)
  }

  ghost predicate AllJustified<M, P>(log: seq<Happening<M, P>>) {
    forall i :: 0 <= i < |log| && log[i].Emitted? ==> Justified(log[..i], log[i].emission)
  }

  function Count<M, P>(log: seq<Happening<M, P>>, counts: Happening<M, P> -> bool): nat {
    if log == [] then 0 else Count(log[..|log| - 1], counts) + if counts(log[|log| - 1]) then 1 else 0
  }

  /** The frames counted lost, over every emission. */
  function Missed<M, P>(log: seq<Happening<M, P>>): nat {
    if log == [] then 0
    else Missed(log[..|log| - 1]) + if log[|log| - 1].Emitted? then log[|log| - 1].emission.lostFrames else 0
  }

  ghost predicate Kept<M, P>(l: Ledger<M, P>) {
    && l.rig == RigOf(l.log)
    && l.pendingNewSession == Pending(l.log)
    && l.lastStream == (if LastOf(l.log).Some? then Some(LastOf(l.log).value.timestamp) else None)
    && l.lastNumber == (if LastOf(l.log).Some? then Some(LastOf(l.log).value.number) else None)
    && (l.epoch.Some? <==> LastOf(l.log).Some?)
    && AllJustified(l.log)
    && l.stats.framesLost == Missed(l.log)
    && l.stats.framesEmitted == Count(l.log, (h: Happening<M, P>) => h.Emitted?)
    && l.stats.refusedOutOfOrder == Count(l.log, (h: Happening<M, P>) => h.OutOfOrder?)
    && l.stats.refusedNoRig == Count(l.log, (h: Happening<M, P>) => h.NoRig?)
    && l.stats.refusedEmpty == Count(l.log, (h: Happening<M, P>) => h.Empty?)
    && l.stats.sessionRestarts == Count(l.log, (h: Happening<M, P>) => h.Restarted?)
  }

  lemma LogGrows<M, P>(log: seq<Happening<M, P>>, h: Happening<M, P>)
    requires AllJustified(log) && (h.Emitted? ==> Justified(log, h.emission))
    ensures AllJustified(log + [h]) && (log + [h])[..|log|] == log
  {
    assert (log + [h])[..|log|] == log;
    forall i | 0 <= i < |log| + 1 && (log + [h])[i].Emitted?
      ensures Justified((log + [h])[..i], (log + [h])[i].emission)
    {
      assert (log + [h])[..i] == log[..i];
      if i == |log| {
        assert log[..i] == log;
      }
    }
  }

  /** What one thing more makes of the session and of the counts. */
  lemma HappeningIsCounted<M, P>(log: seq<Happening<M, P>>, h: Happening<M, P>)
    ensures RigOf(log + [h]) == if h.RigAccepted? then Some(h.rig) else if h.Restarted? then None else RigOf(log)
    ensures LastOf(log + [h]) == if h.Emitted? then Some(h.emission) else if h.Restarted? then None else LastOf(log)
    ensures Pending(log + [h]) == (h.Restarted? || (!h.Emitted? && Pending(log)))
    ensures Missed(log + [h]) == Missed(log) + if h.Emitted? then h.emission.lostFrames else 0
    ensures forall counts: Happening<M, P> -> bool :: Count(log + [h], counts) == Count(log, counts) + if counts(h) then 1 else 0
  {
    assert (log + [h])[..|log|] == log;
  }

  lemma RefusalKeeps<M, P>(l: Ledger<M, P>, why: Happening<M, P>)
    requires Kept(l) && (why.OutOfOrder? || why.NoRig? || why.Empty?)
    ensures Kept(Refused(l, why))
  {
    hide AllJustified, Justified, RigOf, LastOf, Pending, Count, Missed;
    LogGrows(l.log, why);
    HappeningIsCounted(l.log, why);
  }

  lemma ForgettingKeeps<M, P>(l: Ledger<M, P>)
    requires Kept(l)
    ensures Kept(Forgotten(l))
  {
    hide AllJustified, Justified, RigOf, LastOf, Pending, Count, Missed;
    LogGrows(l.log, Restarted);
    HappeningIsCounted(l.log, Restarted);
  }

  lemma ReadKeeps<M, F, P>(cfg: Config<M, F, P>, l: Ledger<M, P>, number: nat, seconds: real, unix: real, records: F)
    requires Kept(l) && !Repeats(l, number) && !FallsBack(l, seconds)
    ensures Kept(Read(cfg, l, number, seconds, unix, records))
  {
    hide AllJustified, Lost, RigOf, LastOf, Pending, Count, Missed;
    if l.rig.None? {
      RefusalKeeps(l, NoRig);
    } else if cfg.map_(l.rig.value, records).None? {
      RefusalKeeps(l, Empty);
    } else {
      var e := EmissionOf(l, number, seconds, unix, l.rig.value, cfg.map_(l.rig.value, records).value);
      assert LastOf(l.log).None? ==> Lost(l.lastNumber, number) == 0 by { NothingLost(number); }
      LogGrows(l.log, Emitted(e));
      HappeningIsCounted(l.log, Emitted(e));
    }
  }

  lemma NothingLost(number: nat)
    ensures Lost(None, number) == 0
  {
  }

  lemma SkeletonKeeps<M, F, P>(cfg: Config<M, F, P>, l: Ledger<M, P>, rig: Option<M>)
    requires Kept(l)
    ensures Kept(Step(cfg, l, Skeleton(rig)))
  {
    hide AllJustified, Justified, RigOf, LastOf, Pending, Count, Missed;
    var h := if rig.None? then RigRefused else RigAccepted(rig.value);
    LogGrows(l.log, h);
    HappeningIsCounted(l.log, h);
  }

  lemma StepKeeps<M, F, P>(cfg: Config<M, F, P>, l: Ledger<M, P>, p: Packet<M, F>)
    requires Kept(l)
    ensures Kept(Step(cfg, l, p))
  {
    match p {
      case Skeleton(rig) => SkeletonKeeps(cfg, l, rig);
      case Frame(number, seconds, unix, records) =>
        hide Kept, Read, Refused;
        RefusalKeeps(l, OutOfOrder);
        ForgettingKeeps(l);
        if !Repeats(l, number) && !FallsBack(l, seconds) {
          ReadKeeps(cfg, l, number, seconds, unix, records);
        } else if !Repeats(l, number) {
          ReadKeeps(cfg, Forgotten(l), number, seconds, unix, records);
        }
      case Neither =>
    }
  }

  /**
   Over every run: an emitted frame is read through the rig accepted last since the last restart; its
   clock is past that of the session's last emission; it begins a session exactly when a restart was
   seen since the last emission; and it counts as lost the frames its number skipped.
   */
  lemma {:induction false} RunKeeps<M, F, P>(cfg: Config<M, F, P>, packets: seq<Packet<M, F>>)
    ensures Kept(Run(cfg, packets))
  {
    hide Step;
    if packets != [] {
      hide Kept;
      RunKeeps(cfg, packets[..|packets| - 1]);
      StepKeeps(cfg, Run(cfg, packets[..|packets| - 1]), packets[|packets| - 1]);
    }
  }

  /** Every restart in a log is followed at once by the refusal of the frame that revealed it. */
  ghost predicate RestartsAreRefused<M, P>(log: seq<Happening<M, P>>) {
    forall i :: 0 <= i < |log| && log[i].Restarted? ==> i + 1 < |log| && log[i + 1].NoRig?
  }

  lemma RestartIsRefused<M, F, P>(cfg: Config<M, F, P>, l: Ledger<M, P>, p: Packet<M, F>)
    ensures var log := Step(cfg, l, p).log;
            && l.log <= log
            && (log[|l.log|..] == [Restarted, NoRig] || forall h :: h in log[|l.log|..] ==> !h.Restarted?)
  {
  }

  /** Over every run, the frame that reveals a restart is never emitted: its rig went with the session it ended. */
  lemma {:induction false} RestartIsNotEmitted<M, F, P>(cfg: Config<M, F, P>, packets: seq<Packet<M, F>>)
    ensures RestartsAreRefused(Run(cfg, packets).log)
  {
    hide Step;
    if packets != [] {
      var l, p := Run(cfg, packets[..|packets| - 1]), packets[|packets| - 1];
      RestartIsNotEmitted(cfg, packets[..|packets| - 1]);
      RestartIsRefused(cfg, l, p);
      var log := Step(cfg, l, p).log;
      forall i | 0 <= i < |log| && log[i].Restarted?
        ensures i + 1 < |log| && log[i + 1].NoRig?
      {
        if i < |l.log| {
          assert l.log[i].Restarted?;
        } else {
          assert log[i] == log[|l.log|..][i - |l.log|];
        }
      }
    }
  }

  /** Emitted timestamps increase from one emission to the next, unless the later begins a session. */
  lemma {:induction false} ClocksAdvance<M, F, P>(cfg: Config<M, F, P>, packets: seq<Packet<M, F>>, i: nat, k: nat)
    requires var log := Run(cfg, packets).log;
             && i < k < |log| && log[i].Emitted? && log[k].Emitted? && !log[k].emission.beginsNewSession
             && forall j :: i < j < k ==> !log[j].Emitted?
    ensures var log := Run(cfg, packets).log; log[i].emission.timestamp < log[k].emission.timestamp
  {
    hide Run;
    var log := Run(cfg, packets).log;
    RunKeeps(cfg, packets);
    assert Justified(log[..k], log[k].emission);
    LastEmission(log, i, k);
  }

  lemma {:induction false} LastEmission<M, P>(log: seq<Happening<M, P>>, i: nat, k: nat)
    requires i < k <= |log| && log[i].Emitted? && forall j :: i < j < k ==> !log[j].Emitted?
    ensures Pending(log[..k]) || LastOf(log[..k]) == Some(log[i].emission)
  {
    assert log[..k][..k - 1] == log[..k - 1];
    if i < k - 1 {
      LastEmission(log, i, k - 1);
    }
  }

  // ---- What the lost count misses ----

  /** The frames a sender's 32-bit counter skipped between two numbers. */
  function GapOf(last: nat, number: nat): nat {
    (number - last - 1) % UINT32
  }

  /** The frames the counter skipped before each emission, since the emission before it in the session. */
  function Skipped<M, P>(log: seq<Happening<M, P>>): nat {
    if log == [] then 0
    else
      var before, h := log[..|log| - 1], log[|log| - 1];
      Skipped(before)
      + if h.Emitted? && LastOf(before).Some? then GapOf(LastOf(before).value.number, h.emission.number) else 0
  }

  /** An emission whose counter passed its top inside the gap, rather than at its edge. */
  ghost predicate PassesTop<M, P>(before: seq<Happening<M, P>>, h: Happening<M, P>) {
    h.Emitted? && LastOf(before).Some? && h.emission.number < LastOf(before).value.number < UINT32 - 1
  }

  ghost predicate NonePassesTop<M, P>(log: seq<Happening<M, P>>) {
    forall i :: 0 <= i < |log| ==> !PassesTop(log[..i], log[i])
  }

  /**
   The frames counted lost are those the sender's 32-bit counter skipped exactly when the counter went up,
   or stood at its top; a counter that passed its top in the gap has none counted.
   */
  lemma LostIsTheGap(last: nat, number: nat)
    requires last < UINT32 && number < UINT32 && last != number
    ensures Lost(Some(last), number) == GapOf(last, number) <==> !(number < last < UINT32 - 1)
    ensures number < last < UINT32 - 1 ==> Lost(Some(last), number) == 0 < GapOf(last, number)
  {
  }

  ghost predicate Within32<M, P>(log: seq<Happening<M, P>>) {
    forall h :: h in log && h.Emitted? ==> h.emission.number < UINT32
  }

  lemma {:induction false} LastIsWithin<M, P>(log: seq<Happening<M, P>>)
    requires Within32(log) && LastOf(log).Some?
    ensures LastOf(log).value.number < UINT32
  {
    if !log[|log| - 1].Emitted? {
      LastIsWithin(log[..|log| - 1]);
    }
  }

  lemma {:induction false} MissedOrSkipped<M, P>(log: seq<Happening<M, P>>)
    requires AllJustified(log) && Within32(log)
    ensures Missed(log) <= Skipped(log)
    ensures Missed(log) == Skipped(log) <==> NonePassesTop(log)
  {
    hide Lost, GapOf;
    if log != [] {
      var before, h := log[..|log| - 1], log[|log| - 1];
      forall i | 0 <= i < |log|
        ensures i < |log| - 1 ==> before[i] == log[i] && before[..i] == log[..i]
      {
      }
      MissedOrSkipped(before);
      assert NonePassesTop(log) <==> NonePassesTop(before) && !PassesTop(before, h);
      if h.Emitted? {
        assert Justified(log[..|log| - 1], h.emission);
        if LastOf(before).Some? {
          LastIsWithin(before);
          LostIsTheGap(LastOf(before).value.number, h.emission.number);
        }
      }
    }
  }

  /** The packets' own numbers are what the log holds. */
  lemma {:induction false} NumbersAreTheirs<M, F, P>(cfg: Config<M, F, P>, packets: seq<Packet<M, F>>)
    requires forall p :: p in packets && p.Frame? ==> p.number < UINT32
    ensures Within32(Run(cfg, packets).log)
  {
    if packets != [] {
      NumbersAreTheirs(cfg, packets[..|packets| - 1]);
    }
  }

  /**
   Over every run, the frames counted lost are at most those the sender's counter skipped, and they are
   those exactly when no emission passed the counter's top inside its gap.
   */
  lemma LostIsSkipped<M, F, P>(cfg: Config<M, F, P>, packets: seq<Packet<M, F>>)
    requires forall p :: p in packets && p.Frame? ==> p.number < UINT32
    ensures var run := Run(cfg, packets);
            && run.stats.framesLost <= Skipped(run.log)
            && (run.stats.framesLost == Skipped(run.log) <==> NonePassesTop(run.log))
  {
    hide Run;
    RunKeeps(cfg, packets);
    NumbersAreTheirs(cfg, packets);
    MissedOrSkipped(Run(cfg, packets).log);
  }

  /** A run whose counter passes its top in a gap of nearly four thousand million frames, with none counted. */
  lemma GapGoesUncounted<M, F, P>(cfg: Config<M, F, P>, rig: M, records: F)
    requires cfg.map_(rig, records).Some?
    ensures var packets := [Skeleton(Some(rig)), Frame(5, 1.0, 1.0, records), Frame(3, 2.0, 2.0, records)];
            var run := Run(cfg, packets);
            && run.stats.framesEmitted == 2 && run.stats.framesLost == 0 && Skipped(run.log) == UINT32 - 3
            && !NonePassesTop(run.log)
  {
    hide Step, NonePassesTop, Skipped;
    var packets: seq<Packet<M, F>> := [Skeleton(Some(rig)), Frame(5, 1.0, 1.0, records), Frame(3, 2.0, 2.0, records)];
    assert packets[..2] == packets[..1] + [packets[1]] && packets[..2][..1] == packets[..1] && packets[..1][..0] == [];
    var m := cfg.map_(rig, records).value;
    var first, second := Emission(1.0, 5, false, 0.0, 0, rig, m), Emission(2.0, 3, false, 0.0, 0, rig, m);
    var l1 := Step(cfg, Start(), packets[0]);
    var l2 := Step(cfg, l1, packets[1]);
    var l3 := Step(cfg, l2, packets[2]);
    assert Run(cfg, packets[..1]) == l1;
    assert Run(cfg, packets) == l3;
    StepsAreTaken(cfg, rig, records);
    assert l3.log == [RigAccepted(rig)] + [Emitted(first), Emitted(second)];
    GapIsSeen([RigAccepted(rig)], first, second);
  }

  lemma StepsAreTaken<M, F, P>(cfg: Config<M, F, P>, rig: M, records: F)
    requires cfg.map_(rig, records).Some?
    ensures var m := cfg.map_(rig, records).value;
            var l := Step(cfg, Step(cfg, Step(cfg, Start(), Skeleton(Some(rig))), Frame(5, 1.0, 1.0, records)),
                          Frame(3, 2.0, 2.0, records));
            && l.stats.framesEmitted == 2 && l.stats.framesLost == 0
            && l.log == [RigAccepted(rig), Emitted(Emission(1.0, 5, false, 0.0, 0, rig, m)),
                         Emitted(Emission(2.0, 3, false, 0.0, 0, rig, m))]
  {
  }

  lemma GapIsSeen<M, P>(before: seq<Happening<M, P>>, first: Emission<M, P>, second: Emission<M, P>)
    requires |before| == 1 && before[0].RigAccepted? && second.number < first.number < UINT32 - 1
    ensures var log := before + [Emitted(first), Emitted(second)];
            Skipped(log) == GapOf(first.number, second.number) && !NonePassesTop(log)
  {
    var log := before + [Emitted(first), Emitted(second)];
    assert log[..2] == before + [Emitted(first)] && log[..2][..1] == before && before[..0] == [];
    assert LastOf(before) == LastOf(before[..0]) == None;
    assert LastOf(log[..2]) == Some(first);
    assert Skipped(log[..2]) == Skipped(before) == Skipped(before[..0]) == 0;
    assert log[..|log| - 1] == log[..2];
    assert PassesTop(log[..2], log[2]);
  }

  // ---- The assembler as the program keeps it ----

  lemma FrameIsStepped<M, F, P>(cfg: Config<M, F, P>, l: Ledger<M, P>, number: nat, seconds: real, unix: real, records: F)
    ensures Step(cfg, l, Frame(number, seconds, unix, records)) ==
            if Repeats(l, number) then Refused(l, OutOfOrder)
            else if !FallsBack(l, seconds) then Read(cfg, l, number, seconds, unix, records)
            else if BeginsAgain(cfg, l, number, seconds) then Read(cfg, Forgotten(l), number, seconds, unix, records)
            else Refused(l, OutOfOrder)
  {
    hide Read, Refused, Forgotten;
  }

  lemma LostIsCounted(last: Option<nat>, number: nat)
    ensures Lost(last, number) ==
            if last.Some? && number > (last.value + 1) % UINT32 then (number - last.value - 1) % UINT32 else 0
  {
  }

  class MocopiFrameAssembler<M, F, P> {
    const config: Config<M, F, P>
    var rig: Option<M>
    var lastStreamSeconds: Option<real>
    var lastFrameNumber: Option<nat>
    var sessionEpoch: Option<real>
    var pendingNewSession: bool
    var stats: Stats
    ghost var ledger: Ledger<M, P>

    ghost predicate Valid()
      reads this
    {
      && rig == ledger.rig && lastStreamSeconds == ledger.lastStream && lastFrameNumber == ledger.lastNumber
      && sessionEpoch == ledger.epoch && pendingNewSession == ledger.pendingNewSession && stats == ledger.stats
    }

    constructor (config: Config<M, F, P>)
      ensures Valid() && ledger == Start() && this.config == config
    {
      this.config := config;
      rig, lastStreamSeconds, lastFrameNumber, sessionEpoch := None, None, None, None;
      pendingNewSession, stats, ledger := false, NO_STATS, Start();
    }

    method PushSkeleton(map_: Option<M>)
      requires Valid()
      modifies this
      ensures Valid() && ledger == Step(config, old(ledger), Skeleton(map_))
    {
      if map_.None? {
        stats := stats.(skeletonsRefused := stats.skeletonsRefused + 1);
      } else {
        stats := stats.(skeletonsAccepted := stats.skeletonsAccepted + 1);
        rig := map_;
      }
      ledger := Step(config, ledger, Skeleton(map_));
    }

    method PushFrame(number: nat, seconds: real, unix: real, records: F) returns (out: Option<Emission<M, P>>)
      requires Valid()
      modifies this
      ensures Valid() && ledger == Step(config, old(ledger), Frame(number, seconds, unix, records))
      ensures out.Some? <==> ledger.stats.framesEmitted == old(ledger).stats.framesEmitted + 1
      ensures out.Some? ==> ledger.log == old(ledger).log + [Emitted(out.value)]
    {
      hide Step, Lost;
      FrameIsStepped(config, ledger, number, seconds, unix, records);
      ghost var account := Step(config, ledger, Frame(number, seconds, unix, records));
      out := None;
      if lastFrameNumber == Some(number) {
        stats := stats.(refusedOutOfOrder := stats.refusedOutOfOrder + 1);
        ledger := account;
        return;
      }
      var restart := false;
      if lastStreamSeconds.Some? && seconds <= lastStreamSeconds.value {
        var backwards := lastStreamSeconds.value - seconds;
        var counterBackwards := lastFrameNumber.Some? && number < lastFrameNumber.value;
        var clockRestarted := config.restartBackwardsSeconds > 0.0 && backwards > config.restartBackwardsSeconds;
        if counterBackwards || clockRestarted {
          restart := true;
          stats := stats.(sessionRestarts := stats.sessionRestarts + 1);
          rig, lastStreamSeconds, lastFrameNumber, sessionEpoch := None, None, None, None;
          pendingNewSession := true;
        } else {
          stats := stats.(refusedOutOfOrder := stats.refusedOutOfOrder + 1);
          ledger := account;
          return;
        }
      }
      if rig.None? {
        stats := stats.(refusedNoRig := stats.refusedNoRig + 1);
        ledger := account;
        return;
      }
      var mapping := config.map_(rig.value, records);
      if mapping.None? {
        stats := stats.(refusedEmpty := stats.refusedEmpty + 1);
        ledger := account;
        return;
      }
      var begins := pendingNewSession || restart;
      pendingNewSession := false;
      var offset := unix - seconds;
      if sessionEpoch.None? {
        sessionEpoch := Some(offset);
      }
      var lost := 0;
      LostIsCounted(lastFrameNumber, number);
      if lastFrameNumber.Some? && number > (lastFrameNumber.value + 1) % UINT32 {
        lost := (number - lastFrameNumber.value - 1) % UINT32;
        stats := stats.(framesLost := stats.framesLost + lost);
      }
      out := Some(Emission(seconds, number, begins, offset - sessionEpoch.value, lost, rig.value, mapping.value));
      lastStreamSeconds, lastFrameNumber := Some(seconds), Some(number);
      stats := stats.(framesEmitted := stats.framesEmitted + 1);
      ledger := account;
    }
  }
}
