/**
 The VMC frame assembler as the program keeps it: one frame under construction, with the packet that
 filled each of its slots, and the session's memory. Its ghost ledger is the account of VmcFrames.
 */
module VmcAssembler {
  import opened Bytes
  import opened VmcFrames

  /** The frame under construction. */
  datatype Building = Building(
    open: bool,
    receiveTime: real,
    senderTime: Option<real>,
    rotations: map<nat, Rotation>,
    hipsOffset: Option<Position>,
    root: Option<Root>,
    channels: map<string, real>,
    duplicates: nat,
    bonePacket: map<nat, nat>,
    rootPacket: nat,
    expressionPacket: map<string, nat>)

  const NOTHING := Building(false, 0.0, None, map[], None, None, map[], 0, map[], 0, map[])

  /** The building's values are those the entries amount to. */
  ghost predicate Carries(b: Building, f: OpenFrame, hips: nat) {
    && b.receiveTime == f.receiveTime && b.duplicates == f.duplicates
    && b.senderTime == ClockOf(f.entries)
    && b.rotations == RotationsOf(f.entries)
    && b.hipsOffset == HipsOffsetOf(f.entries, hips)
    && b.root == RootOf(f.entries)
    && b.channels == ChannelsOf(f.entries)
  }

  /** The building holds what the entries say, slot by slot, with the packet that filled each. */
  ghost predicate Holds(b: Building, f: OpenFrame, hips: nat) {
    && b.open && Carries(b, f, hips)
    && (b.senderTime.Some? <==> Holder(f.entries, ClockSlot).Some?)
    && (b.root.Some? <==> Holder(f.entries, RootSlot).Some?)
    && (b.root.Some? ==> Holder(f.entries, RootSlot) == Some(b.rootPacket))
    && (forall k :: Holder(f.entries, BoneSlot(k)) == if k in b.bonePacket then Some(b.bonePacket[k]) else None)
    && b.bonePacket.Keys == b.rotations.Keys
    && forall n :: Holder(f.entries, ExpressionSlot(n)) == if n in b.expressionPacket then Some(b.expressionPacket[n]) else None
  }

  ghost predicate Mirrors(b: Building, frame: Option<OpenFrame>, hips: nat) {
    if frame.Some? then Holds(b, frame.value, hips) else b == NOTHING
  }

  /** A building that takes one more item in a packet. */
  function Filled(b: Building, item: Item, packet: nat, hips: nat): Building {
    match item
    case ClockItem(seconds) => b.(senderTime := Some(seconds))
    case BoneItem(bone, rotation, position) =>
      b.(rotations := b.rotations[bone := rotation], bonePacket := b.bonePacket[bone := packet],
         hipsOffset := if bone == hips then Some(position) else b.hipsOffset)
    case RootItem(root) => b.(root := Some(root), rootPacket := packet)
    case ExpressionItem(name, weight) =>
      b.(channels := b.channels[name := weight], expressionPacket := b.expressionPacket[name := packet])
  }

  lemma NothingIsMirrored(hips: nat)
    ensures Mirrors(NOTHING, None, hips) && NOTHING.rotations == map[] && !NOTHING.open
  {
  }

  lemma CarriesContent(b: Building, f: OpenFrame, hips: nat)
    requires Carries(b, f, hips)
    ensures HasContent(f.entries) <==> b.rotations.Keys != {} || b.root.Some? || b.channels.Keys != {}
    ensures TimestampOf(f) == if b.senderTime.Some? then b.senderTime.value else b.receiveTime
  {
    hide RotationsOf, ChannelsOf, RootOf, ClockOf, HipsOffsetOf;
  }

  lemma HoldsCarries(b: Building, f: OpenFrame, hips: nat)
    requires Mirrors(b, Some(f), hips)
    ensures Carries(b, f, hips)
  {
  }

  lemma OpenIsHeld(b: Building, frame: Option<OpenFrame>, hips: nat)
    requires Mirrors(b, frame, hips)
    ensures b.open <==> frame.Some?
  {
  }

  lemma FilledHolds(b: Building, f: OpenFrame, item: Item, packet: nat, hips: nat)
    requires Holds(b, f, hips)
    ensures Holds(Filled(b, item, packet, hips), f.(entries := f.entries + [Entry(item, packet)]), hips)
  {
    var entries := f.entries + [Entry(item, packet)];
    FilledCarries(b, f, item, packet, hips);
    hide Carries, Holder;
    HolderGrows(f.entries, item, packet);
  }

  lemma HolderGrows(entries: seq<Entry>, item: Item, packet: nat)
    ensures forall slot :: Holder(entries + [Entry(item, packet)], slot) ==
                           if SlotOf(item) == slot then Some(packet) else Holder(entries, slot)
  {
    assert (entries + [Entry(item, packet)])[..|entries|] == entries;
  }

  lemma FilledCarries(b: Building, f: OpenFrame, item: Item, packet: nat, hips: nat)
    requires Carries(b, f, hips)
    ensures Carries(Filled(b, item, packet, hips), f.(entries := f.entries + [Entry(item, packet)]), hips)
  {
    assert (f.entries + [Entry(item, packet)])[..|f.entries|] == f.entries;
  }

  lemma OpenedHolds(receiveTime: real, hips: nat)
    ensures Holds(NOTHING.(open := true, receiveTime := receiveTime), OpenFrame(receiveTime, [], 0), hips)
  {
  }

  /** The emitted frames of the closures. */
  function EmittedFrames(closures: seq<Closure>): seq<VmcFrame> {
    var emitted := Emissions(closures);
    seq(|emitted|, i requires 0 <= i < |emitted| => emitted[i].frame)
  }

  lemma EmittedFramesAppend(closures: seq<Closure>, c: Closure)
    ensures EmittedFrames(closures + [c]) == EmittedFrames(closures) + if c.outcome.Emitted? then [c.outcome.frame] else []
  {
    EmissionsAppend(closures, c);
  }

  lemma EmitShape(cfg: Config, l: Ledger, f: OpenFrame, timestamp: real, restart: bool)
    ensures var l', frame := Emit(cfg, l, f, timestamp, restart), EmittedFrame(cfg, l, f, timestamp, restart);
            && l'.frame.None? && l'.packet == l.packet
            && l'.observed == l.observed + frame.rotations.Keys
            && l'.reportedStale == (l.reportedStale + frame.stale) - frame.rotations.Keys
            && l'.lastSeen == SeenAt(l.lastSeen, frame.rotations.Keys, timestamp) && l'.lastAccepted == Some(timestamp)
            && l'.stats == EmissionCounted(l.stats, frame, frame.stale - l.reportedStale)
            && frame.rotations == RotationsOf(f.entries) && frame.timestamp == timestamp
            && l'.closures == l.closures + [Closure(f.entries, Emitted(frame, frame.stale - l.reportedStale))]
  {
  }

  function Below(bones: set<nat>, n: nat): set<nat> {
    set b | b in bones && b < n
  }

  lemma NothingBelow(seen: map<nat, real>, bones: set<nat>, timestamp: real)
    ensures Below(bones, 0) == {} && SeenAt(seen, {}, timestamp) == seen
  {
  }

  lemma AllBelow(bones: set<nat>, n: nat)
    requires forall b :: b in bones ==> b < n
    ensures Below(bones, n) == bones
  {
  }

  lemma BelowGrows(seen: map<nat, real>, bones: set<nat>, n: nat, timestamp: real)
    ensures Below(bones, n + 1) == Below(bones, n) + if n in bones then {n} else {}
    ensures SeenAt(seen, Below(bones, n + 1), timestamp) ==
            if n in bones then SeenAt(seen, Below(bones, n), timestamp)[n := timestamp]
            else SeenAt(seen, Below(bones, n), timestamp)
  {
    assert Below(bones, n + 1) == Below(bones, n) + if n in bones then {n} else {};
  }

  class VmcFrameAssembler {
    const config: Config
    var frame: Building
    var observed: set<nat>
    var reportedStale: set<nat>
    var lastSeen: map<nat, real>
    var lastAccepted: Option<real>
    var packet: nat
    var stats: Stats
    ghost var ledger: Ledger

    ghost predicate Valid()
      reads this
    {
      && Mirrors(frame, ledger.frame, config.hips)
      && Remembers(ledger) && packet == ledger.packet
      && (forall b :: b in observed ==> b < config.joints)
      && (forall b :: b in frame.rotations ==> b < config.joints)
    }

    /** What is remembered between frames is what the account says. */
    ghost predicate Remembers(l: Ledger)
      reads this
    {
      && observed == l.observed && reportedStale == l.reportedStale && lastSeen == l.lastSeen
      && lastAccepted == l.lastAccepted && stats == l.stats
    }

    constructor (config: Config)
      ensures Valid() && ledger == START && this.config == config
    {
      this.config := config;
      frame, observed, reportedStale, lastSeen := NOTHING, {}, {}, map[];
      lastAccepted, packet, stats, ledger := None, 0, NO_STATS, START;
    }

    /** Everything a restart invalidates is dropped; the counts stay. */
    method Reset()
      requires Valid()
      modifies this
      ensures Valid()
      ensures ledger == old(ledger).(frame := None, observed := {}, reportedStale := {}, lastSeen := map[], lastAccepted := None)
    {
      frame, observed, reportedStale, lastSeen, lastAccepted := NOTHING, {}, {}, map[], None;
      ledger := ledger.(frame := None, observed := {}, reportedStale := {}, lastSeen := map[], lastAccepted := None);
    }

    /** The bones stale at this moment, and those not reported so before. */
    method FindStale(missing: set<nat>, timestamp: real) returns (stale: set<nat>, crossed: set<nat>)
      requires forall b :: b in missing ==> b < config.joints
      ensures stale == StaleAmong(config, missing, lastSeen, timestamp) && crossed == stale - reportedStale
    {
      hide LastSeen;
      stale, crossed := {}, {};
      if config.stalenessSeconds > 0.0 {
        for index := 0 to config.joints
          invariant stale == set b | b in missing && b < index && Elapsed(config, LastSeen(lastSeen, b), timestamp)
          invariant crossed == stale - reportedStale
        {
          if index !in missing || timestamp - LastSeen(lastSeen, index) <= config.stalenessSeconds {
            continue;
          }
          stale := stale + {index};
          if index in reportedStale {
            continue;
          }
          crossed := crossed + {index};
        }
      }
    }

    /** The bones a frame carried are observed, seen now and no longer reported. */
    method Remember(bones: set<nat>, timestamp: real)
      requires forall b :: b in bones ==> b < config.joints
      modifies this`observed, this`lastSeen, this`reportedStale
      ensures observed == old(observed) + bones && lastSeen == SeenAt(old(lastSeen), bones, timestamp)
      ensures reportedStale == old(reportedStale) - bones
    {
      hide Below, SeenAt;
      NothingBelow(lastSeen, bones, timestamp);
      for index := 0 to config.joints
        invariant observed == old(observed) + Below(bones, index)
        invariant lastSeen == SeenAt(old(lastSeen), Below(bones, index), timestamp)
        invariant reportedStale == old(reportedStale) - Below(bones, index)
      {
        BelowGrows(old(lastSeen), bones, index, timestamp);
        if index in bones {
          observed := observed + {index};
          lastSeen := lastSeen[index := timestamp];
          reportedStale := reportedStale - {index};
        }
      }
      AllBelow(bones, config.joints);
    }

    /** The open frame, if there is one, ends: emitted, or refused and counted. */
    method CloseFrame() returns (emitted: seq<VmcFrame>)
      requires Valid()
      modifies this
      ensures Valid() && ledger == Close(config, old(ledger)) && !frame.open
      ensures EmittedFrames(ledger.closures) == EmittedFrames(old(ledger.closures)) + emitted && |emitted| <= 1
    {
      hide Emit, EmittedFrame, EmittedFrames, Mirrors, Holds, Carries, HasContent, TimestampOf, Regresses, Restarts;
      emitted := [];
      OpenIsHeld(frame, ledger.frame, config.hips);
      NothingIsMirrored(config.hips);
      if !frame.open {
        assert EmittedFrames(ledger.closures) + [] == EmittedFrames(ledger.closures);
        return;
      }
      var closing := frame;
      ghost var f := ledger.frame.value;
      HoldsCarries(closing, f, config.hips);
      CarriesContent(closing, f, config.hips);
      frame := NOTHING;
      if closing.rotations.Keys == {} && closing.root.None? && closing.channels.Keys == {} {
        stats := stats.(framesRefusedEmpty := stats.framesRefusedEmpty + 1);
        EmittedFramesAppend(ledger.closures, Closure(f.entries, RefusedEmpty));
        ledger := Close(config, ledger);
        return;
      }
      var timestamp := if closing.senderTime.Some? then closing.senderTime.value else closing.receiveTime;
      var regresses, restart := CompareClock(timestamp);
      if regresses && !restart {
        stats := stats.(framesRefusedOutOfOrder := stats.framesRefusedOutOfOrder + 1);
        EmittedFramesAppend(ledger.closures, Closure(f.entries, RefusedOutOfOrder));
        ledger := Close(config, ledger);
        return;
      }
      ghost var before := if restart then Forgotten(ledger) else ledger;
      if restart {
        stats := stats.(sessionRestarts := stats.sessionRestarts + 1);
        observed, reportedStale, lastSeen, lastAccepted := {}, {}, map[], None;
      }
      assert Close(config, ledger) == Emit(config, before, f, timestamp, restart);
      var out := EmitClosing(closing, timestamp, restart, f, before);
      emitted := [out];
      ledger := Close(config, ledger);
    }

    /** Whether a frame's clock falls back on the last one accepted, and whether so far that the sender began again. */
    method CompareClock(timestamp: real) returns (regresses: bool, restart: bool)
      requires Remembers(ledger)
      ensures regresses == Regresses(ledger, timestamp) && restart == Restarts(config, ledger, timestamp)
    {
      regresses, restart := false, false;
      if lastAccepted.Some? && timestamp <= lastAccepted.value {
        regresses := true;
        var backwards := lastAccepted.value - timestamp;
        restart := config.restartBackwardsSeconds > 0.0 && backwards > config.restartBackwardsSeconds;
      }
    }

    /** The frame leaves, measured, counted and remembered. */
    method EmitClosing(closing: Building, timestamp: real, restart: bool, ghost f: OpenFrame, ghost before: Ledger)
      returns (out: VmcFrame)
      requires Carries(closing, f, config.hips) && Remembers(before)
      requires forall b :: b in observed ==> b < config.joints
      requires forall b :: b in closing.rotations ==> b < config.joints
      modifies this`observed, this`lastSeen, this`reportedStale, this`lastAccepted, this`stats
      ensures var after := Emit(config, before, f, timestamp, restart);
              && Remembers(after) && after.frame.None? && after.packet == before.packet
              && EmittedFrames(after.closures) == EmittedFrames(before.closures) + [out]
      ensures forall b :: b in observed ==> b < config.joints
    {
      hide Emit, EmittedFrame, EmittedFrames, EmissionCounted, SeenAt, RotationsOf, ChannelsOf, RootOf, ClockOf, HipsOffsetOf;
      var crossed;
      out, crossed := Measure(closing, timestamp, restart, f, before);
      EmitShape(config, before, f, timestamp, restart);
      Record(out, crossed);
      EmittedFramesAppend(before.closures, Closure(f.entries, Emitted(out, crossed)));
    }

    /** The frame is measured against the rig observed so far. */
    method Measure(closing: Building, timestamp: real, restart: bool, ghost f: OpenFrame, ghost before: Ledger)
      returns (out: VmcFrame, crossed: set<nat>)
      requires Carries(closing, f, config.hips)
      requires observed == before.observed && reportedStale == before.reportedStale && lastSeen == before.lastSeen
      requires forall b :: b in observed ==> b < config.joints
      ensures out == EmittedFrame(config, before, f, timestamp, restart) && crossed == out.stale - reportedStale
    {
      hide StaleAmong, RotationsOf, ChannelsOf, RootOf, ClockOf, HipsOffsetOf;
      var missing := observed - closing.rotations.Keys;
      var stale;
      stale, crossed := FindStale(missing, timestamp);
      out := VmcFrame(timestamp, closing.rotations, closing.root, closing.channels, restart, closing.senderTime.Some?,
                      missing, stale, closing.hipsOffset, closing.duplicates);
    }

    /** The emitted frame is counted, and its bones and its clock are remembered. */
    method Record(out: VmcFrame, crossed: set<nat>)
      requires forall b :: b in out.rotations ==> b < config.joints
      modifies this`observed, this`lastSeen, this`reportedStale, this`lastAccepted, this`stats
      ensures observed == old(observed) + out.rotations.Keys
      ensures reportedStale == (old(reportedStale) + out.stale) - out.rotations.Keys
      ensures lastSeen == SeenAt(old(lastSeen), out.rotations.Keys, out.timestamp)
      ensures lastAccepted == Some(out.timestamp) && stats == EmissionCounted(old(stats), out, crossed)
    {
      hide SeenAt;
      reportedStale := reportedStale + out.stale;
      Remember(out.rotations.Keys, out.timestamp);
      stats := EmissionCounted(stats, out, crossed);
      lastAccepted := Some(out.timestamp);
    }

    /** `holder` is the packet that filled the item's slot; of a clock only whether one did is known. */
    ghost predicate HeldBy(item: Item, holder: Option<nat>)
      reads this
      requires Valid()
    {
      var held := if ledger.frame.Some? then Holder(ledger.frame.value.entries, SlotOf(item)) else None;
      (holder.Some? <==> held.Some?) && (!item.ClockItem? ==> holder == held)
    }

    /** The packet that filled this slot repeats it: the first value stands. */
    method CountRepeat(item: Item)
      requires Valid() && ledger.frame.Some?
      modifies this`frame, this`stats, this`ledger
      ensures Valid() && ledger == Repeat(old(ledger), item)
    {
      hide Holder, RotationsOf, ChannelsOf, RootOf, ClockOf, HipsOffsetOf;
      frame := frame.(duplicates := frame.duplicates + 1);
      stats := if item.ExpressionItem? then stats.(expressionsDuplicated := stats.expressionsDuplicated + 1)
               else stats.(bonesDuplicated := stats.bonesDuplicated + 1);
      ledger := Repeat(ledger, item);
    }

    /** The item joins the open frame, which opens if none is. */
    method FillSlot(item: Item, receiveTime: real)
      requires Valid() && (item.BoneItem? ==> item.bone < config.joints)
      modifies this`frame, this`stats, this`ledger
      ensures Valid() && ledger == Join(old(ledger), item, receiveTime)
    {
      hide Holds, Counted;
      if !frame.open {
        frame := NOTHING.(open := true, receiveTime := receiveTime);
        OpenedHolds(receiveTime, config.hips);
      }
      ghost var f := if ledger.frame.Some? then ledger.frame.value else OpenFrame(receiveTime, [], 0);
      OpenIsHeld(old(frame), ledger.frame, config.hips);
      FilledHolds(frame, f, item, packet, config.hips);
      frame := Filled(frame, item, packet, config.hips);
      stats := Counted(stats, item);
      ledger := Join(ledger, item, receiveTime);
    }

    /** One accepted message finds its slot: repeated by its own packet, or free, or the sign of a new frame. */
    method AcceptItem(item: Item, holder: Option<nat>, receiveTime: real) returns (emitted: seq<VmcFrame>)
      requires Valid() && HeldBy(item, holder)
      requires item.BoneItem? ==> item.bone < config.joints
      modifies this
      ensures Valid() && ledger == Accept(config, old(ledger), item, receiveTime)
      ensures EmittedFrames(ledger.closures) == EmittedFrames(old(ledger.closures)) + emitted && |emitted| <= 1
    {
      hide Close, Holder, EmittedFrames, Mirrors, Counted;
      emitted := [];
      if holder.Some? {
        if !item.ClockItem? && holder.value == packet {
          CountRepeat(item);
          return;
        }
        emitted := CloseFrame();
      }
      FillSlot(item, receiveTime);
    }

    method TakeMessage(m: Message, receiveTime: real) returns (emitted: seq<VmcFrame>)
      requires Valid() && (m.BoneTransform? ==> m.bone < config.joints)
      modifies this
      ensures Valid() && ledger == Take(config, old(ledger), m, receiveTime)
      ensures EmittedFrames(ledger.closures) == EmittedFrames(old(ledger.closures)) + emitted && |emitted| <= 1
    {
      hide Accept, EmittedFrames;
      emitted := [];
      match m {
        case Time(seconds) =>
          // A clock already taken ends the frame whichever packet brought it.
          var holder := if frame.open && frame.senderTime.Some? then Some(packet) else None;
          emitted := AcceptItem(ClockItem(seconds), holder, receiveTime);
          return;
        case BoneTransform(bone, rotation, position) =>
          var holder := if frame.open && bone in frame.bonePacket then Some(frame.bonePacket[bone]) else None;
          emitted := AcceptItem(BoneItem(bone, rotation, position), holder, receiveTime);
          return;
        case RootTransform(root) =>
          var holder := if frame.open && frame.root.Some? then Some(frame.rootPacket) else None;
          emitted := AcceptItem(RootItem(root), holder, receiveTime);
          return;
        case BlendValue(name, weight) =>
          var channel := NAMESPACE + name;
          var holder := if frame.open && channel in frame.expressionPacket then Some(frame.expressionPacket[channel]) else None;
          emitted := AcceptItem(ExpressionItem(channel, weight), holder, receiveTime);
          return;
        case BoneUnsupported => stats := stats.(bonesUnsupported := stats.bonesUnsupported + 1);
        case BoneMalformed => stats := stats.(bonesMalformed := stats.bonesMalformed + 1);
        case RootMalformed => stats := stats.(rootsMalformed := stats.rootsMalformed + 1);
        case Model(_) => stats := stats.(messagesIgnored := stats.messagesIgnored + 1);
        case Ignored => stats := stats.(messagesIgnored := stats.messagesIgnored + 1);
      }
      ledger := ledger.(stats := stats);
    }

    /** One datagram: every message it decoded to, in order. */
    method Push(messages: seq<Message>, receiveTime: real) returns (completed: nat, emitted: seq<VmcFrame>)
      requires Valid() && forall m :: m in messages && m.BoneTransform? ==> m.bone < config.joints
      modifies this
      ensures Valid() && ledger == Step(config, old(ledger), Pushed(messages, receiveTime))
      ensures EmittedFrames(ledger.closures) == EmittedFrames(old(ledger.closures)) + emitted && completed == |emitted|
    {
      hide Take, EmittedFrames, Mirrors;
      packet := packet + 1;
      ledger := ledger.(packet := packet);
      ghost var start := ledger;
      completed, emitted := 0, [];
      for i := 0 to |messages|
        invariant Valid() && ledger == TakeAll(config, start, messages[..i], receiveTime)
        invariant EmittedFrames(ledger.closures) == EmittedFrames(old(ledger.closures)) + emitted && completed == |emitted|
      {
        var more := TakeMessage(messages[i], receiveTime);
        assert messages[..i + 1][..i] == messages[..i];
        emitted := emitted + more;
        completed := completed + |more|;
      }
      assert messages[..|messages|] == messages;
    }

    method Flush() returns (completed: nat, emitted: seq<VmcFrame>)
      requires Valid()
      modifies this
      ensures Valid() && ledger == Step(config, old(ledger), Flushed)
      ensures EmittedFrames(ledger.closures) == EmittedFrames(old(ledger.closures)) + emitted && completed == |emitted| <= 1
    {
      emitted := CloseFrame();
      completed := |emitted|;
    }
  }
}
