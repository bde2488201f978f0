/**
 A VMC message stream cut into frames, as FrameAssembler.cpp of the VMC connector does it: a slot
 carried again by a later packet, or a second clock, ends a frame.
 */
module VmcFrames {
  import opened Bytes

  type Rotation = seq<real>

  type Position = seq<real>

  datatype Root = Root(position: Position, orientation: Rotation)

  /** A decoded message, with what the skeleton map makes of a bone's or the root's transform. */
  datatype Message =
    | Time(seconds: real)
    | BoneTransform(bone: nat, rotation: Rotation, position: Position)
    | BoneUnsupported
    | BoneMalformed
    | RootTransform(root: Root)
    | RootMalformed
    | BlendValue(name: string, weight: real)
    | Model(title: string)
    | Ignored

  /** `joints` counts the bones there are and `hips` is the hips' number; a bound of zero disables its check. */
  datatype Config = Config(stalenessSeconds: real, restartBackwardsSeconds: real, joints: nat, hips: nat)

  // ---- What a frame holds ----

  /** One accepted message: the slot of a frame that it fills. */
  datatype Item =
    | ClockItem(seconds: real)
    | BoneItem(bone: nat, rotation: Rotation, position: Position)
    | RootItem(root: Root)
    | ExpressionItem(name: string, weight: real)

  datatype Slot = ClockSlot | BoneSlot(bone: nat) | RootSlot | ExpressionSlot(name: string)

  function SlotOf(item: Item): Slot {
    match item
    case ClockItem(_) => ClockSlot
    case BoneItem(bone, _, _) => BoneSlot(bone)
    case RootItem(_) => RootSlot
    case ExpressionItem(name, _) => ExpressionSlot(name)
  }

  datatype Entry = Entry(item: Item, packet: nat)

  datatype OpenFrame = OpenFrame(receiveTime: real, entries: seq<Entry>, duplicates: nat)

  /** The packet that filled a slot of the frame, if one did. */
  function Holder(entries: seq<Entry>, slot: Slot): Option<nat> {
    if entries == [] then None
    else
      var last := entries[|entries| - 1];
      if SlotOf(last.item) == slot then Some(last.packet) else Holder(entries[..|entries| - 1], slot)
  }

  predicate DistinctSlots(entries: seq<Entry>) {
    forall i, k :: 0 <= i < k < |entries| ==> SlotOf(entries[i].item) != SlotOf(entries[k].item)
  }

  function ClockOf(entries: seq<Entry>): Option<real> {
    if entries == [] then None
    else
      var last := entries[|entries| - 1].item;
      if last.ClockItem? then Some(last.seconds) else ClockOf(entries[..|entries| - 1])
  }

  function RotationsOf(entries: seq<Entry>): map<nat, Rotation> {
    if entries == [] then map[]
    else
      var before, last := RotationsOf(entries[..|entries| - 1]), entries[|entries| - 1].item;
      if last.BoneItem? then before[last.bone := last.rotation] else before
  }

  function HipsOffsetOf(entries: seq<Entry>, hips: nat): Option<Position> {
    if entries == [] then None
    else
      var before, last := HipsOffsetOf(entries[..|entries| - 1], hips), entries[|entries| - 1].item;
      if last.BoneItem? && last.bone == hips then Some(last.position) else before
  }

  function RootOf(entries: seq<Entry>): Option<Root> {
    if entries == [] then None
    else
      var before, last := RootOf(entries[..|entries| - 1]), entries[|entries| - 1].item;
      if last.RootItem? then Some(last.root) else before
  }

  function ChannelsOf(entries: seq<Entry>): map<string, real> {
    if entries == [] then map[]
    else
      var before, last := ChannelsOf(entries[..|entries| - 1]), entries[|entries| - 1].item;
      if last.ExpressionItem? then before[last.name := last.weight] else before
  }

  predicate HasContent(entries: seq<Entry>) {
    RotationsOf(entries).Keys != {} || RootOf(entries).Some? || ChannelsOf(entries).Keys != {}
  }

  // ---- What is emitted ----

  datatype VmcFrame = VmcFrame(
    timestamp: real,
    rotations: map<nat, Rotation>,
    root: Option<Root>,
    channels: map<string, real>,
    beginsNewSession: bool,
    timestampFromSender: bool,
    missing: set<nat>,
    stale: set<nat>,
    hipsOffset: Option<Position>,
    duplicates: nat)

  /** How a frame ended; `crossed` are the bones first reported stale by it. */
  datatype Outcome = Emitted(frame: VmcFrame, crossed: set<nat>) | RefusedEmpty | RefusedOutOfOrder

  datatype Closure = Closure(entries: seq<Entry>, outcome: Outcome)

  datatype Stats = Stats(
    framesEmitted: nat,
    framesRefusedOutOfOrder: nat,
    framesRefusedEmpty: nat,
    framesIncomplete: nat,
    sessionRestarts: nat,
    bonesAccepted: nat,
    bonesDuplicated: nat,
    bonesUnsupported: nat,
    bonesMalformed: nat,
    rootsAccepted: nat,
    rootsMalformed: nat,
    expressionsAccepted: nat,
    expressionsDuplicated: nat,
    stalenessCrossings: nat,
    messagesIgnored: nat)

  const NO_STATS := Stats(0, 0, 0, 0, 0, 0, 0, 0, 0, 0, 0, 0, 0, 0, 0)

  /** The assembler's state, with everything it closed and every item it accepted so far. */
  datatype Ledger = Ledger(
    frame: Option<OpenFrame>,
    observed: set<nat>,
    reportedStale: set<nat>,
    lastSeen: map<nat, real>,
    lastAccepted: Option<real>,
    packet: nat,
    stats: Stats,
    closures: seq<Closure>,
    accepted: seq<Entry>)

  const START := Ledger(None, {}, {}, map[], None, 0, NO_STATS, [], [])

  function LastSeen(seen: map<nat, real>, bone: nat): real {
    if bone in seen then seen[bone] else 0.0
  }

  function TimestampOf(f: OpenFrame): real {
    var clock := ClockOf(f.entries);
    if clock.Some? then clock.value else f.receiveTime
  }

  predicate Regresses(l: Ledger, timestamp: real) {
    l.lastAccepted.Some? && timestamp <= l.lastAccepted.value
  }

  predicate Restarts(cfg: Config, l: Ledger, timestamp: real) {
    && Regresses(l, timestamp) && cfg.restartBackwardsSeconds > 0.0
    && l.lastAccepted.value - timestamp > cfg.restartBackwardsSeconds
  }

  /** A session's memory, dropped. */
  function Forgotten(l: Ledger): Ledger {
    l.(observed := {}, reportedStale := {}, lastSeen := map[], lastAccepted := None,
       stats := l.stats.(sessionRestarts := l.stats.sessionRestarts + 1))
  }

  /** The horizon is checked, and it passed between these times. */
  predicate Elapsed(cfg: Config, since: real, now: real) {
    cfg.stalenessSeconds > 0.0 && now - since > cfg.stalenessSeconds
  }

  function StaleAmong(cfg: Config, missing: set<nat>, seen: map<nat, real>, timestamp: real): set<nat> {
    set b | b in missing && Elapsed(cfg, LastSeen(seen, b), timestamp)
  }

  function SeenAt(seen: map<nat, real>, bones: set<nat>, timestamp: real): map<nat, real> {
    map b | b in seen.Keys + bones :: if b in bones then timestamp else seen[b]
  }

  /** The frame emitted, measured against the rig observed before it. */
  function EmittedFrame(cfg: Config, l: Ledger, f: OpenFrame, timestamp: real, restart: bool): VmcFrame {
    var rotations := RotationsOf(f.entries);
    var missing := l.observed - rotations.Keys;
    VmcFrame(timestamp, rotations, RootOf(f.entries), ChannelsOf(f.entries), restart, ClockOf(f.entries).Some?,
             missing, StaleAmong(cfg, missing, l.lastSeen, timestamp), HipsOffsetOf(f.entries, cfg.hips), f.duplicates)
  }

  function EmissionCounted(stats: Stats, frame: VmcFrame, crossed: set<nat>): Stats {
    stats.(framesEmitted := stats.framesEmitted + 1,
           framesIncomplete := stats.framesIncomplete + (if frame.missing != {} then 1 else 0),
           stalenessCrossings := stats.stalenessCrossings + |crossed|)
  }

  function Emit(cfg: Config, l: Ledger, f: OpenFrame, timestamp: real, restart: bool): Ledger {
    var frame := EmittedFrame(cfg, l, f, timestamp, restart);
    var bones, crossed := frame.rotations.Keys, frame.stale - l.reportedStale;
    l.(frame := None,
       observed := l.observed + bones,
       reportedStale := (l.reportedStale + frame.stale) - bones,
       lastSeen := SeenAt(l.lastSeen, bones, timestamp),
       lastAccepted := Some(timestamp),
       stats := EmissionCounted(l.stats, frame, crossed),
       closures := l.closures + [Closure(f.entries, Emitted(frame, crossed))])
  }

  /** The open frame, if there is one, ends. */
  function Close(cfg: Config, l: Ledger): Ledger {
    if l.frame.None? then l
    else
      var f := l.frame.value;
      var timestamp := TimestampOf(f);
      if !HasContent(f.entries) then
        l.(frame := None, closures := l.closures + [Closure(f.entries, RefusedEmpty)],
           stats := l.stats.(framesRefusedEmpty := l.stats.framesRefusedEmpty + 1))
      else if Restarts(cfg, l, timestamp) then Emit(cfg, Forgotten(l), f, timestamp, true)
      else if Regresses(l, timestamp) then
        l.(frame := None, closures := l.closures + [Closure(f.entries, RefusedOutOfOrder)],
           stats := l.stats.(framesRefusedOutOfOrder := l.stats.framesRefusedOutOfOrder + 1))
      else Emit(cfg, l, f, timestamp, false)
  }

  function Counted(stats: Stats, item: Item): Stats {
    match item
    case ClockItem(_) => stats
    case BoneItem(_, _, _) => stats.(bonesAccepted := stats.bonesAccepted + 1)
    case RootItem(_) => stats.(rootsAccepted := stats.rootsAccepted + 1)
    case ExpressionItem(_, _) => stats.(expressionsAccepted := stats.expressionsAccepted + 1)
  }

  /** The item joins the open frame, which opens if none is. */
  function Join(l: Ledger, item: Item, receiveTime: real): Ledger {
    var f := if l.frame.Some? then l.frame.value else OpenFrame(receiveTime, [], 0);
    var entry := Entry(item, l.packet);
    l.(frame := Some(f.(entries := f.entries + [entry])), accepted := l.accepted + [entry], stats := Counted(l.stats, item))
  }

  /** One delivery repeated a slot: the first value stands. */
  function Repeat(l: Ledger, item: Item): Ledger
    requires l.frame.Some?
  {
    l.(frame := Some(l.frame.value.(duplicates := l.frame.value.duplicates + 1)),
       stats := if item.ExpressionItem? then l.stats.(expressionsDuplicated := l.stats.expressionsDuplicated + 1)
                else l.stats.(bonesDuplicated := l.stats.bonesDuplicated + 1))
  }

  function Accept(cfg: Config, l: Ledger, item: Item, receiveTime: real): Ledger {
    var holder := if l.frame.Some? then Holder(l.frame.value.entries, SlotOf(item)) else None;
    if holder.None? then Join(l, item, receiveTime)
    else if !item.ClockItem? && holder.value == l.packet then Repeat(l, item)
    else Join(Close(cfg, l), item, receiveTime)
  }

  const NAMESPACE := "vmc:"

  function Take(cfg: Config, l: Ledger, m: Message, receiveTime: real): Ledger {
    match m
    case Time(seconds) => Accept(cfg, l, ClockItem(seconds), receiveTime)
    case BoneTransform(bone, rotation, position) => Accept(cfg, l, BoneItem(bone, rotation, position), receiveTime)
    case BoneUnsupported => l.(stats := l.stats.(bonesUnsupported := l.stats.bonesUnsupported + 1))
    case BoneMalformed => l.(stats := l.stats.(bonesMalformed := l.stats.bonesMalformed + 1))
    case RootTransform(root) => Accept(cfg, l, RootItem(root), receiveTime)
    case RootMalformed => l.(stats := l.stats.(rootsMalformed := l.stats.rootsMalformed + 1))
    case BlendValue(name, weight) => Accept(cfg, l, ExpressionItem(NAMESPACE + name, weight), receiveTime)
    case Model(_) => l.(stats := l.stats.(messagesIgnored := l.stats.messagesIgnored + 1))
    case Ignored => l.(stats := l.stats.(messagesIgnored := l.stats.messagesIgnored + 1))
  }

  function TakeAll(cfg: Config, l: Ledger, messages: seq<Message>, receiveTime: real): Ledger {
    if messages == [] then l
    else Take(cfg, TakeAll(cfg, l, messages[..|messages| - 1], receiveTime), messages[|messages| - 1], receiveTime)
  }

  datatype Event = Pushed(messages: seq<Message>, receiveTime: real) | Flushed

  function Step(cfg: Config, l: Ledger, e: Event): Ledger {
    match e
    case Pushed(messages, receiveTime) => TakeAll(cfg, l.(packet := l.packet + 1), messages, receiveTime)
    case Flushed => Close(cfg, l)
  }

  /** Everything that came of a run of pushes and flushes. */
  function Run(cfg: Config, events: seq<Event>): Ledger {
    if events == [] then START else Step(cfg, Run(cfg, events[..|events| - 1]), events[|events| - 1])
  }

  /** The emissions among the closures, in order. */
  function Emissions(closures: seq<Closure>): (emitted: seq<Outcome>)
    ensures forall i :: 0 <= i < |emitted| ==> emitted[i].Emitted?
  {
    if closures == [] then []
    else
      var last := closures[|closures| - 1].outcome;
      Emissions(closures[..|closures| - 1]) + if last.Emitted? then [last] else []
  }

  lemma EmissionsAppend(closures: seq<Closure>, c: Closure)
    ensures Emissions(closures + [c]) == Emissions(closures) + if c.outcome.Emitted? then [c.outcome] else []
  {
    assert (closures + [c])[..|closures|] == closures;
  }
}
