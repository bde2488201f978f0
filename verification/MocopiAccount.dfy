/**
 The mocopi assembler from its packets alone: which frame is emitted and which is refused, where a restart
 is seen, and what an emission says of the session's clock and counter, told without the assembler's state.
 */
module MocopiAccount {
  import opened Bytes
  import opened MocopiFrames

  // ---- What befalls a packet ----

  /** `Anew` reveals a restart, and is itself refused; `Late` is out of order. */
  datatype Fate = RigTaken | RigRejected | Emits | Late | Anew | Rigless | Void | Passed

  /** The last packet emitted since the last restart, and the first. */
  function LastEmitted(fates: seq<Fate>): (i: Option<nat>)
    ensures i.Some? ==> i.value < |fates|
  {
    if fates == [] then None
    else
      match fates[|fates| - 1]
      case Emits => Some(|fates| - 1)
      case Anew => None
      case _ => LastEmitted(fates[..|fates| - 1])
  }

  function FirstEmitted(fates: seq<Fate>): (i: Option<nat>)
    ensures i.Some? ==> i.value < |fates|
  {
    if fates == [] then None
    else
      var before := FirstEmitted(fates[..|fates| - 1]);
      match fates[|fates| - 1]
      case Emits => if before.Some? then before else Some(|fates| - 1)
      case Anew => None
      case _ => before
  }

  /** The rig taken last since the last restart. */
  function LastRig(fates: seq<Fate>): (i: Option<nat>)
    ensures i.Some? ==> i.value < |fates|
  {
    if fates == [] then None
    else
      match fates[|fates| - 1]
      case RigTaken => Some(|fates| - 1)
      case Anew => None
      case _ => LastRig(fates[..|fates| - 1])
  }

  /** A restart was seen since the last emission. */
  predicate AwaitsSession(fates: seq<Fate>) {
    fates != [] &&
    match fates[|fates| - 1]
    case Emits => false
    case Anew => true
    case _ => AwaitsSession(fates[..|fates| - 1])
  }

  predicate IsFrame<M, F>(p: Packet<M, F>) {
    p.Frame?
  }

  /** Emitted packets are frames and taken rigs are rigs. */
  ghost predicate AreApt<M, F>(packets: seq<Packet<M, F>>, fates: seq<Fate>) {
    && |packets| == |fates|
    && (forall i :: 0 <= i < |fates| && fates[i] == Emits ==> packets[i].Frame?)
    && forall i :: 0 <= i < |fates| && fates[i] == RigTaken ==> packets[i].Skeleton? && packets[i].rig.Some?
  }

  lemma {:induction false} EmittedAreEmissions(fates: seq<Fate>)
    ensures LastEmitted(fates).Some? ==> fates[LastEmitted(fates).value] == Emits
    ensures FirstEmitted(fates).Some? ==> fates[FirstEmitted(fates).value] == Emits
    ensures LastRig(fates).Some? ==> fates[LastRig(fates).value] == RigTaken
    ensures LastEmitted(fates).Some? <==> FirstEmitted(fates).Some?
  {
    if fates != [] {
      EmittedAreEmissions(fates[..|fates| - 1]);
    }
  }

  /** A frame whose clock does not advance: again if its counter fell too, or if the clock fell beyond the bound. */
  predicate FallsAnew<M, F, P>(cfg: Config<M, F, P>, last: Packet<M, F>, p: Packet<M, F>)
    requires last.Frame? && p.Frame?
  {
    p.number < last.number
    || (cfg.restartBackwardsSeconds > 0.0 && last.streamSeconds - p.streamSeconds > cfg.restartBackwardsSeconds)
  }

  ghost function FateOf<M, F, P>(cfg: Config<M, F, P>, past: seq<Packet<M, F>>, fates: seq<Fate>, p: Packet<M, F>): Fate
    requires AreApt(past, fates)
  {
    EmittedAreEmissions(fates);
    match p
    case Neither => Passed
    case Skeleton(rig) => if rig.Some? then RigTaken else RigRejected
    case Frame(number, seconds, _, records) =>
      var last := LastEmitted(fates);
      if last.Some? && past[last.value].number == number then Late
      else if last.Some? && seconds <= past[last.value].streamSeconds then
        if FallsAnew(cfg, past[last.value], p) then Anew else Late
      else if LastRig(fates).None? then Rigless
      else if cfg.map_(past[LastRig(fates).value].rig.value, records).None? then Void
      else Emits
  }

  ghost predicate AreFates<M, F, P>(cfg: Config<M, F, P>, packets: seq<Packet<M, F>>, fates: seq<Fate>) {
    && |packets| == |fates|
    && forall k :: 0 <= k < |packets| ==>
         AreApt(packets[..k], fates[..k]) && fates[k] == FateOf(cfg, packets[..k], fates[..k], packets[k])
  }

  // ---- What happens of it ----

  /** The frames a 32-bit counter skipped, none where it went back. */
  function SkippedBy(last: nat, number: nat): nat {
    if last == 0xFFFF_FFFF then number else if number > last + 1 then number - last - 1 else 0
  }

  /** The sender's clock less the stream's, when a frame was sent. */
  function OffsetOf<M, F>(p: Packet<M, F>): real
    requires p.Frame?
  {
    p.senderUnixSeconds - p.streamSeconds
  }

  /** An emission: its session's drift is measured from the first one's offset, and its gap from the last one's number. */
  ghost predicate IsEmission<M, F, P>(cfg: Config<M, F, P>, past: seq<Packet<M, F>>, fates: seq<Fate>, p: Packet<M, F>, e: Emission<M, P>)
    requires AreApt(past, fates)
  {
    EmittedAreEmissions(fates);
    && p.Frame? && LastRig(fates).Some?
    && e.timestamp == p.streamSeconds && e.number == p.number && e.beginsNewSession == AwaitsSession(fates)
    && e.rig == past[LastRig(fates).value].rig.value && cfg.map_(e.rig, p.records) == Some(e.mapping)
    && e.clockDrift == (if FirstEmitted(fates).None? then 0.0 else OffsetOf(p) - OffsetOf(past[FirstEmitted(fates).value]))
    && e.lostFrames == (if LastEmitted(fates).None? then 0 else SkippedBy(past[LastEmitted(fates).value].number, p.number))
  }

  ghost predicate Happens<M, F, P>(cfg: Config<M, F, P>, past: seq<Packet<M, F>>, fates: seq<Fate>, p: Packet<M, F>, f: Fate,
                                   more: seq<Happening<M, P>>)
    requires AreApt(past, fates)
  {
    match f
    case RigTaken => p.Skeleton? && p.rig.Some? && more == [RigAccepted(p.rig.value)]
    case RigRejected => more == [RigRefused]
    case Emits => |more| == 1 && more[0].Emitted? && IsEmission(cfg, past, fates, p, more[0].emission)
    case Late => more == [OutOfOrder]
    case Anew => more == [Restarted, NoRig]
    case Rigless => more == [NoRig]
    case Void => more == [Empty]
    case Passed => more == []
  }

  /** The log, packet by packet. */
  ghost predicate IsLog<M, F, P>(cfg: Config<M, F, P>, packets: seq<Packet<M, F>>, fates: seq<Fate>, log: seq<Happening<M, P>>)
    requires |packets| == |fates|
  {
    if packets == [] then log == []
    else
      var last := |packets| - 1;
      && AreApt(packets[..last], fates[..last])
      && exists n :: 0 <= n <= |log| && IsLog(cfg, packets[..last], fates[..last], log[..n])
                  && Happens(cfg, packets[..last], fates[..last], packets[last], fates[last], log[n..])
  }

  function CountOf(fates: seq<Fate>, f: Fate): nat {
    if fates == [] then 0 else CountOf(fates[..|fates| - 1], f) + if fates[|fates| - 1] == f then 1 else 0
  }

  ghost predicate IsCounted(fates: seq<Fate>, stats: Stats) {
    && stats.framesEmitted == CountOf(fates, Emits)
    && stats.refusedOutOfOrder == CountOf(fates, Late)
    && stats.refusedNoRig == CountOf(fates, Rigless) + CountOf(fates, Anew)
    && stats.refusedEmpty == CountOf(fates, Void)
    && stats.sessionRestarts == CountOf(fates, Anew)
    && stats.skeletonsAccepted == CountOf(fates, RigTaken)
    && stats.skeletonsRefused == CountOf(fates, RigRejected)
  }

  // ---- The ledger told by the fates ----

  ghost predicate Remembers<M, F, P>(packets: seq<Packet<M, F>>, fates: seq<Fate>, l: Ledger<M, P>)
    requires AreApt(packets, fates)
  {
    EmittedAreEmissions(fates);
    var last, first, rig := LastEmitted(fates), FirstEmitted(fates), LastRig(fates);
    && l.rig == (if rig.Some? then packets[rig.value].rig else None)
    && l.lastStream == (if last.Some? then Some(packets[last.value].streamSeconds) else None)
    && l.lastNumber == (if last.Some? then Some(packets[last.value].number) else None)
    && l.epoch == (if first.Some? then Some(OffsetOf(packets[first.value])) else None)
    && l.pendingNewSession == AwaitsSession(fates)
  }

  ghost predicate Tells<M, F, P>(cfg: Config<M, F, P>, packets: seq<Packet<M, F>>, fates: seq<Fate>, l: Ledger<M, P>) {
    && AreApt(packets, fates) && AreFates(cfg, packets, fates)
    && Remembers(packets, fates, l)
    && IsLog(cfg, packets, fates, l.log)
    && IsCounted(fates, l.stats)
  }

  predicate IsWithin<M, F>(p: Packet<M, F>) {
    p.Frame? ==> p.number < 0x1_0000_0000
  }

  // ---- One packet more ----

  lemma FatesGoOn<M, F, P>(cfg: Config<M, F, P>, packets: seq<Packet<M, F>>, fates: seq<Fate>, p: Packet<M, F>)
    requires AreApt(packets, fates) && AreFates(cfg, packets, fates)
    ensures var f := FateOf(cfg, packets, fates, p);
            AreApt(packets + [p], fates + [f]) && AreFates(cfg, packets + [p], fates + [f])
  {
    var f := FateOf(cfg, packets, fates, p);
    AptGoesOn(packets, fates, p, f);
    hide FateOf, AreApt;
    var more, theirs := packets + [p], fates + [f];
    forall k | 0 <= k < |more|
      ensures AreApt(more[..k], theirs[..k]) && theirs[k] == FateOf(cfg, more[..k], theirs[..k], more[k])
    {
      assert k < |packets| ==> more[..k] == packets[..k] && theirs[..k] == fates[..k];
      assert k == |packets| ==> more[..k] == packets && theirs[..k] == fates;
    }
  }

  lemma AptGoesOn<M, F>(packets: seq<Packet<M, F>>, fates: seq<Fate>, p: Packet<M, F>, f: Fate)
    requires AreApt(packets, fates) && (f == Emits ==> p.Frame?) && (f == RigTaken ==> p.Skeleton? && p.rig.Some?)
    ensures AreApt(packets + [p], fates + [f])
  {
  }

  lemma FindingsGoOn(fates: seq<Fate>, f: Fate)
    ensures LastEmitted(fates + [f]) == if f == Emits then Some(|fates|) else if f == Anew then None else LastEmitted(fates)
    ensures FirstEmitted(fates + [f]) ==
              if f == Anew then None else if f == Emits && FirstEmitted(fates).None? then Some(|fates|) else FirstEmitted(fates)
    ensures LastRig(fates + [f]) == if f == RigTaken then Some(|fates|) else if f == Anew then None else LastRig(fates)
    ensures AwaitsSession(fates + [f]) == (f == Anew || (f != Emits && AwaitsSession(fates)))
    ensures forall g :: CountOf(fates + [f], g) == CountOf(fates, g) + if f == g then 1 else 0
  {
    assert (fates + [f])[..|fates|] == fates;
  }

  lemma LogGoesOn<M, F, P>(cfg: Config<M, F, P>, packets: seq<Packet<M, F>>, fates: seq<Fate>, p: Packet<M, F>, f: Fate,
                           log: seq<Happening<M, P>>, more: seq<Happening<M, P>>)
    requires AreApt(packets, fates) && IsLog(cfg, packets, fates, log) && Happens(cfg, packets, fates, p, f, more)
    ensures IsLog(cfg, packets + [p], fates + [f], log + more)
  {
    hide Happens;
    var all, theirs, n := packets + [p], fates + [f], |log|;
    assert all[..|all| - 1] == packets && theirs[..|all| - 1] == fates && all[|all| - 1] == p && theirs[|all| - 1] == f;
    assert (log + more)[..n] == log && (log + more)[n..] == more;
    assert 0 <= n <= |log + more| && IsLog(cfg, all[..|all| - 1], theirs[..|all| - 1], (log + more)[..n])
        && Happens(cfg, all[..|all| - 1], theirs[..|all| - 1], all[|all| - 1], theirs[|all| - 1], (log + more)[n..]);
  }

  /** The ledger after one packet, by its fate. */
  ghost predicate Moves<M, F, P>(l: Ledger<M, P>, l': Ledger<M, P>, p: Packet<M, F>, f: Fate)
  {
    && (f == Emits ==> p.Frame?) && (f == RigTaken ==> p.Skeleton? && p.rig.Some?)
    && l'.rig == (if f == RigTaken then p.rig else if f == Anew then None else l.rig)
    && l'.lastStream == (if f == Emits then Some(p.streamSeconds) else if f == Anew then None else l.lastStream)
    && l'.lastNumber == (if f == Emits then Some(p.number) else if f == Anew then None else l.lastNumber)
    && l'.epoch == (if f == Anew then None else if f == Emits && l.epoch.None? then Some(OffsetOf(p)) else l.epoch)
    && l'.pendingNewSession == (f == Anew || (f != Emits && l.pendingNewSession))
    && l'.stats.framesEmitted == l.stats.framesEmitted + (if f == Emits then 1 else 0)
    && l'.stats.refusedOutOfOrder == l.stats.refusedOutOfOrder + (if f == Late then 1 else 0)
    && l'.stats.refusedNoRig == l.stats.refusedNoRig + (if f == Rigless || f == Anew then 1 else 0)
    && l'.stats.refusedEmpty == l.stats.refusedEmpty + (if f == Void then 1 else 0)
    && l'.stats.sessionRestarts == l.stats.sessionRestarts + (if f == Anew then 1 else 0)
    && l'.stats.skeletonsAccepted == l.stats.skeletonsAccepted + (if f == RigTaken then 1 else 0)
    && l'.stats.skeletonsRefused == l.stats.skeletonsRefused + (if f == RigRejected then 1 else 0)
  }

  lemma MovesTell<M, F, P>(packets: seq<Packet<M, F>>, fates: seq<Fate>, l: Ledger<M, P>, l': Ledger<M, P>, p: Packet<M, F>, f: Fate)
    requires AreApt(packets, fates) && AreApt(packets + [p], fates + [f])
    requires Remembers(packets, fates, l) && IsCounted(fates, l.stats) && Moves(l, l', p, f)
    ensures Remembers(packets + [p], fates + [f], l') && IsCounted(fates + [f], l'.stats)
  {
    hide LastEmitted, FirstEmitted, LastRig, AwaitsSession, CountOf;
    FindingsGoOn(fates, f);
    EmittedAreEmissions(fates);
    var more := packets + [p];
    assert more[|packets|] == p && forall i :: 0 <= i < |packets| ==> more[i] == packets[i];
  }

  lemma SkippedIs(last: nat, number: nat)
    requires last < UINT32 && number < UINT32 && last != number
    ensures Lost(Some(last), number) == SkippedBy(last, number)
  {
  }

  lemma ReadMoves<M, F, P>(cfg: Config<M, F, P>, l: Ledger<M, P>, p: Packet<M, F>)
    requires p.Frame?
    ensures Moves(l, Read(cfg, l, p.number, p.streamSeconds, p.senderUnixSeconds, p.records), p,
                  if l.rig.None? then Rigless else if cfg.map_(l.rig.value, p.records).None? then Void else Emits)
  {
    hide Lost;
  }

  lemma AnewMoves<M, F, P>(cfg: Config<M, F, P>, l: Ledger<M, P>, p: Packet<M, F>)
    requires p.Frame?
    ensures Moves(l, Read(cfg, Forgotten(l), p.number, p.streamSeconds, p.senderUnixSeconds, p.records), p, Anew)
  {
    hide Lost;
  }

  lemma OtherMoves<M, F, P>(cfg: Config<M, F, P>, l: Ledger<M, P>, p: Packet<M, F>)
    ensures p.Frame? ==> Moves(l, Refused(l, OutOfOrder), p, Late)
    ensures !p.Frame? ==> Moves(l, Step(cfg, l, p), p, if p.Neither? then Passed else if p.rig.Some? then RigTaken else RigRejected)
  {
  }

  lemma StepMoves<M, F, P>(cfg: Config<M, F, P>, packets: seq<Packet<M, F>>, fates: seq<Fate>, l: Ledger<M, P>, p: Packet<M, F>)
    requires AreApt(packets, fates) && Remembers(packets, fates, l)
    ensures Moves(l, Step(cfg, l, p), p, FateOf(cfg, packets, fates, p))
  {
    hide LastEmitted, FirstEmitted, LastRig, AwaitsSession, Moves, Read, Refused, Forgotten;
    EmittedAreEmissions(fates);
    OtherMoves(cfg, l, p);
    if p.Frame? {
      ReadMoves(cfg, l, p);
      AnewMoves(cfg, l, p);
    }
  }

  lemma StepHappens<M, F, P>(cfg: Config<M, F, P>, packets: seq<Packet<M, F>>, fates: seq<Fate>, l: Ledger<M, P>, p: Packet<M, F>)
    requires AreApt(packets, fates) && Remembers(packets, fates, l) && IsWithin(p)
    requires forall q :: q in packets ==> IsWithin(q)
    ensures var l' := Step(cfg, l, p);
            && l.log <= l'.log
            && Happens(cfg, packets, fates, p, FateOf(cfg, packets, fates, p), l'.log[|l.log|..])
  {
    hide LastEmitted, FirstEmitted, LastRig, AwaitsSession, Lost, SkippedBy;
    EmittedAreEmissions(fates);
    var last := LastEmitted(fates);
    if p.Frame? && last.Some? && packets[last.value].number != p.number {
      assert packets[last.value] in packets;
      SkippedIs(packets[last.value].number, p.number);
    }
    assert p.Frame? ==> Lost(None, p.number) == 0 by { NothingLost(if p.Frame? then p.number else 0); }
  }

  lemma StepTells<M, F, P>(cfg: Config<M, F, P>, packets: seq<Packet<M, F>>, fates: seq<Fate>, l: Ledger<M, P>, p: Packet<M, F>)
    requires Tells(cfg, packets, fates, l) && IsWithin(p) && forall q :: q in packets ==> IsWithin(q)
    ensures Tells(cfg, packets + [p], fates + [FateOf(cfg, packets, fates, p)], Step(cfg, l, p))
  {
    hide AreApt, AreFates, Remembers, IsLog, IsCounted, Moves, Happens, Step, FateOf, IsWithin;
    var f, l' := FateOf(cfg, packets, fates, p), Step(cfg, l, p);
    FatesGoOn(cfg, packets, fates, p);
    StepMoves(cfg, packets, fates, l, p);
    MovesTell(packets, fates, l, l', p, f);
    StepHappens(cfg, packets, fates, l, p);
    LogGoesOn(cfg, packets, fates, p, f, l.log, l'.log[|l.log|..]);
    assert l.log + l'.log[|l.log|..] == l'.log;
  }

  lemma StartTells<M, F, P>(cfg: Config<M, F, P>)
    ensures Tells(cfg, [], [], Start())
  {
    hide Happens, FateOf;
  }

  /**
   Every run told from its packets alone. Each packet has its fate, the only one it can have: a frame is
   late when it repeats the session's last number, or when its clock does not advance on the last one's
   and neither its counter fell nor its clock fell beyond the bound, and reveals a restart when one did.
   Any other is emitted through the rig taken last, if there is one and it yields anything. The drift an
   emission reports is its offset less that of the first one of its session. The log and the counts are
   what the fates make them.
   */
  lemma {:induction false} PacketsTell<M, F, P>(cfg: Config<M, F, P>, packets: seq<Packet<M, F>>) returns (fates: seq<Fate>)
    requires forall p :: p in packets ==> IsWithin(p)
    ensures Tells(cfg, packets, fates, Run(cfg, packets))
  {
    hide Tells, Step, IsWithin;
    if packets == [] {
      fates := [];
      StartTells(cfg);
    } else {
      var front, p := packets[..|packets| - 1], packets[|packets| - 1];
      var before := PacketsTell(cfg, front);
      ToldIsApt(cfg, front, before, Run(cfg, front));
      StepTells(cfg, front, before, Run(cfg, front), p);
      fates := before + [FateOf(cfg, front, before, p)];
      assert front + [p] == packets;
    }
  }

  lemma ToldIsApt<M, F, P>(cfg: Config<M, F, P>, packets: seq<Packet<M, F>>, fates: seq<Fate>, l: Ledger<M, P>)
    requires Tells(cfg, packets, fates, l)
    ensures AreApt(packets, fates)
  {
    hide AreApt, AreFates, Remembers, IsLog, IsCounted;
  }

  /** No packets have two lists of fates. */
  lemma {:induction false} FatesAreUnique<M, F, P>(cfg: Config<M, F, P>, packets: seq<Packet<M, F>>, one: seq<Fate>, other: seq<Fate>)
    requires AreFates(cfg, packets, one) && AreFates(cfg, packets, other)
    ensures one == other
  {
    hide FateOf, AreApt;
    if packets != [] {
      var last := |packets| - 1;
      FatesOfPrefix(cfg, packets, one, last);
      FatesOfPrefix(cfg, packets, other, last);
      FatesAreUnique(cfg, packets[..last], one[..last], other[..last]);
      assert one[last] == other[last];
      assert one == one[..last] + [one[last]] && other == other[..last] + [other[last]];
    }
  }

  lemma FatesOfPrefix<M, F, P>(cfg: Config<M, F, P>, packets: seq<Packet<M, F>>, fates: seq<Fate>, n: nat)
    requires AreFates(cfg, packets, fates) && n <= |packets|
    ensures AreFates(cfg, packets[..n], fates[..n])
  {
    hide FateOf, AreApt;
    var fewer, theirs := packets[..n], fates[..n];
    forall k | 0 <= k < n
      ensures AreApt(fewer[..k], theirs[..k]) && theirs[k] == FateOf(cfg, fewer[..k], theirs[..k], fewer[k])
    {
      assert fewer[..k] == packets[..k] && theirs[..k] == fates[..k];
    }
  }
}
