/**
 The VMC assembler from its events alone: which message joins which frame, where frames are cut, and
 what every frame and every count comes to, told without the assembler's state.
 */
module VmcArrivals {
  import opened Bytes
  import opened VmcFrames
  import opened VmcRuns

  // ---- What arrives ----

  /** A message, in which datagram and when it came, or a flush between two datagrams. */
  datatype Arrival = Arrival(message: Message, packet: nat, receiveTime: real) | FlushMark

  function Pushes(events: seq<Event>): nat {
    if events == [] then 0 else Pushes(events[..|events| - 1]) + if events[|events| - 1].Pushed? then 1 else 0
  }

  function Datagram(messages: seq<Message>, packet: nat, receiveTime: real): seq<Arrival> {
    if messages == [] then []
    else
      var last := |messages| - 1;
      Datagram(messages[..last], packet, receiveTime) + [Arrival(messages[last], packet, receiveTime)]
  }

  function Arrivals(events: seq<Event>): seq<Arrival> {
    if events == [] then []
    else
      Arrivals(events[..|events| - 1]) +
      match events[|events| - 1]
      case Pushed(messages, receiveTime) => Datagram(messages, Pushes(events), receiveTime)
      case Flushed => [FlushMark]
  }

  /** What a message says of the pose, if anything. */
  function Said(m: Message): Option<Item> {
    match m
    case Time(seconds) => Some(ClockItem(seconds))
    case BoneTransform(bone, rotation, position) => Some(BoneItem(bone, rotation, position))
    case RootTransform(root) => Some(RootItem(root))
    case BlendValue(name, weight) => Some(ExpressionItem("vmc:" + name, weight))
    case _ => None
  }

  predicate Carries(a: Arrival) {
    a.Arrival? && Said(a.message).Some?
  }

  /** Two messages that speak of the same thing, so that no frame has room for both. */
  predicate Rivals(m: Message, n: Message) {
    || (m.Time? && n.Time?)
    || (m.BoneTransform? && n.BoneTransform? && m.bone == n.bone)
    || (m.RootTransform? && n.RootTransform?)
    || (m.BlendValue? && n.BlendValue? && m.name == n.name)
  }

  // ---- Where frames are cut ----

  /** The frame an arrival falls into, counted from zero, and whether it joins it. */
  datatype Fate = Fate(frame: nat, joins: bool)

  function Current(fates: seq<Fate>): nat {
    if fates == [] then 0 else fates[|fates| - 1].frame
  }

  /** The arrival `i` has joined the frame `g`. */
  predicate IsIn(past: seq<Arrival>, fates: seq<Fate>, g: nat, i: int) {
    0 <= i < |past| && i < |fates| && Carries(past[i]) && fates[i] == Fate(g, true)
  }

  /** Its own datagram has said this already in the current frame; a clock is never repeated. */
  ghost predicate Repeats(past: seq<Arrival>, fates: seq<Fate>, a: Arrival) {
    && Carries(a) && !a.message.Time?
    && exists i :: IsIn(past, fates, Current(fates), i) && Rivals(past[i].message, a.message) && past[i].packet == a.packet
  }

  /** An earlier datagram has said this already in the current frame, or a clock or a flush ends it. */
  ghost predicate Cuts(past: seq<Arrival>, fates: seq<Fate>, a: Arrival) {
    if a.FlushMark? then exists i :: IsIn(past, fates, Current(fates), i)
    else
      && Carries(a)
      && exists i :: IsIn(past, fates, Current(fates), i) && Rivals(past[i].message, a.message)
                  && (past[i].packet != a.packet || a.message.Time?)
  }

  ghost predicate Befalls(past: seq<Arrival>, fates: seq<Fate>, a: Arrival, f: Fate) {
    && f.joins == (Carries(a) && !Repeats(past, fates, a))
    && f.frame == Current(fates) + if Cuts(past, fates, a) then 1 else 0
  }

  ghost predicate AreFates(all: seq<Arrival>, fates: seq<Fate>) {
    |all| == |fates| && forall k :: 0 <= k < |all| ==> Befalls(all[..k], fates[..k], all[k], fates[k])
  }

  // ---- What a frame holds ----

  /** Everything that joined the frame `g`, in its order of arrival. */
  function Joined(all: seq<Arrival>, fates: seq<Fate>, g: nat): seq<Entry>
    requires |all| == |fates|
  {
    if all == [] then []
    else
      var last := |all| - 1;
      Joined(all[..last], fates[..last], g) +
      if Carries(all[last]) && fates[last] == Fate(g, true)
      then [Entry(Said(all[last].message).value, all[last].packet)]
      else []
  }

  /** When the first of them came. */
  function BeganAt(all: seq<Arrival>, fates: seq<Fate>, g: nat): Option<real>
    requires |all| == |fates|
  {
    if all == [] then None
    else
      var last := |all| - 1;
      var before := BeganAt(all[..last], fates[..last], g);
      if before.Some? then before
      else if Carries(all[last]) && fates[last] == Fate(g, true) then Some(all[last].receiveTime)
      else None
  }

  /** How many arrivals were only repeated in it. */
  function RepeatedIn(all: seq<Arrival>, fates: seq<Fate>, g: nat): nat
    requires |all| == |fates|
  {
    if all == [] then 0
    else
      var last := |all| - 1;
      RepeatedIn(all[..last], fates[..last], g) + if Carries(all[last]) && fates[last] == Fate(g, false) then 1 else 0
  }

  /** The sender's clock where the frame has one, and the receiver's where it began otherwise. */
  ghost predicate IsStamped(entries: seq<Entry>, began: real, timestamp: real, bySender: bool) {
    if exists i :: 0 <= i < |entries| && entries[i].item.ClockItem?
    then bySender && exists i :: 0 <= i < |entries| && entries[i].item == ClockItem(timestamp)
    else !bySender && timestamp == began
  }

  /** The frame has just what its entries say: each bone, the root, each expression, and the hips' offset. */
  ghost predicate Holds(cfg: Config, frame: VmcFrame, entries: seq<Entry>) {
    && (forall i :: 0 <= i < |entries| ==> HoldsItem(cfg, frame, entries[i].item))
    && (forall b :: b in frame.rotations ==> exists i :: 0 <= i < |entries| && IsBone(entries[i].item, b))
    && (forall n :: n in frame.channels ==> exists i :: 0 <= i < |entries| && IsExpression(entries[i].item, n))
    && (frame.root.Some? ==> exists i :: 0 <= i < |entries| && entries[i].item.RootItem?)
    && (frame.hipsOffset.Some? ==> exists i :: 0 <= i < |entries| && IsBone(entries[i].item, cfg.hips))
  }

  predicate IsBone(item: Item, bone: nat) {
    item.BoneItem? && item.bone == bone
  }

  predicate IsExpression(item: Item, name: string) {
    item.ExpressionItem? && item.name == name
  }

  predicate HoldsItem(cfg: Config, frame: VmcFrame, item: Item) {
    match item
    case ClockItem(_) => true
    case BoneItem(bone, rotation, position) =>
      && bone in frame.rotations && frame.rotations[bone] == rotation
      && (bone == cfg.hips ==> frame.hipsOffset == Some(position))
    case RootItem(root) => frame.root == Some(root)
    case ExpressionItem(name, weight) => name in frame.channels && frame.channels[name] == weight
  }

  /** The timestamp last emitted. */
  function LastStamp(closures: seq<Closure>): Option<real> {
    if closures == [] then None
    else
      match closures[|closures| - 1].outcome
      case Emitted(frame, _) => Some(frame.timestamp)
      case _ => LastStamp(closures[..|closures| - 1])
  }

  /** The bound is set, and a clock fell back beyond it. */
  predicate FallsBack(cfg: Config, last: real, timestamp: real) {
    cfg.restartBackwardsSeconds > 0.0 && last - timestamp > cfg.restartBackwardsSeconds
  }

  /**
   How a frame ends: refused when it holds clocks alone, or when its timestamp does not advance on the
   last emitted without falling back beyond the bound; emitted otherwise, and as the first of a session
   exactly when it fell back.
   */
  ghost predicate EndsAs(cfg: Config, earlier: seq<Closure>, c: Closure, began: real, repeated: nat) {
    var last := LastStamp(earlier);
    match c.outcome
    case RefusedEmpty => forall i :: 0 <= i < |c.entries| ==> c.entries[i].item.ClockItem?
    case RefusedOutOfOrder =>
      && (exists i :: 0 <= i < |c.entries| && !c.entries[i].item.ClockItem?)
      && exists t, bySender :: IsStamped(c.entries, began, t, bySender)
                            && last.Some? && t <= last.value && !FallsBack(cfg, last.value, t)
    case Emitted(frame, _) =>
      && (exists i :: 0 <= i < |c.entries| && !c.entries[i].item.ClockItem?)
      && IsStamped(c.entries, began, frame.timestamp, frame.timestampFromSender)
      && Holds(cfg, frame, c.entries) && frame.duplicates == repeated
      && if frame.beginsNewSession then last.Some? && FallsBack(cfg, last.value, frame.timestamp)
         else last.Some? ==> last.value < frame.timestamp
  }

  // ---- What is counted ----

  /** What an arrival is counted as; a root repeated is counted with the bones. */
  datatype Sort = Bone | RootBone | Expression | RepeatedBone | RepeatedExpression | NoBone | BadBone | BadRoot | Passed

  function SortOf(a: Arrival, f: Fate): Option<Sort> {
    if a.FlushMark? then None
    else
      match a.message
      case Time(_) => None
      case BoneTransform(_, _, _) => Some(if f.joins then Bone else RepeatedBone)
      case RootTransform(_) => Some(if f.joins then RootBone else RepeatedBone)
      case BlendValue(_, _) => Some(if f.joins then Expression else RepeatedExpression)
      case BoneUnsupported => Some(NoBone)
      case BoneMalformed => Some(BadBone)
      case RootMalformed => Some(BadRoot)
      case Model(_) => Some(Passed)
      case Ignored => Some(Passed)
  }

  function Count(all: seq<Arrival>, fates: seq<Fate>, sort: Sort): nat
    requires |all| == |fates|
  {
    if all == [] then 0
    else
      var last := |all| - 1;
      Count(all[..last], fates[..last], sort) + if SortOf(all[last], fates[last]) == Some(sort) then 1 else 0
  }

  ghost predicate IsCounted(all: seq<Arrival>, fates: seq<Fate>, stats: Stats)
    requires |all| == |fates|
  {
    && stats.bonesAccepted == Count(all, fates, Bone)
    && stats.rootsAccepted == Count(all, fates, RootBone)
    && stats.expressionsAccepted == Count(all, fates, Expression)
    && stats.bonesDuplicated == Count(all, fates, RepeatedBone)
    && stats.expressionsDuplicated == Count(all, fates, RepeatedExpression)
    && stats.bonesUnsupported == Count(all, fates, NoBone)
    && stats.bonesMalformed == Count(all, fates, BadBone)
    && stats.rootsMalformed == Count(all, fates, BadRoot)
    && stats.messagesIgnored == Count(all, fates, Passed)
  }

  // ---- The ledger told by the fates ----

  ghost predicate EntriesFit(all: seq<Arrival>, fates: seq<Fate>, l: Ledger)
    requires |all| == |fates|
  {
    && (forall i :: 0 <= i < |fates| ==> fates[i].frame <= |l.closures|)
    && OpenEntries(l) == Joined(all, fates, |l.closures|)
    && forall g :: 0 <= g < |l.closures| ==> l.closures[g].entries == Joined(all, fates, g)
  }

  ghost predicate OpenFits(all: seq<Arrival>, fates: seq<Fate>, l: Ledger)
    requires |all| == |fates|
  {
    && RepeatedIn(all, fates, |l.closures|) == (if l.frame.Some? then l.frame.value.duplicates else 0)
    && BeganAt(all, fates, |l.closures|) == if l.frame.Some? then Some(l.frame.value.receiveTime) else None
  }

  ghost predicate ClosuresFit(cfg: Config, all: seq<Arrival>, fates: seq<Fate>, closures: seq<Closure>)
    requires |all| == |fates|
  {
    forall g :: 0 <= g < |closures| ==>
      BeganAt(all, fates, g).Some?
      && EndsAs(cfg, closures[..g], closures[g], BeganAt(all, fates, g).value, RepeatedIn(all, fates, g))
  }

  /** The frames, closed and open, and the counts are what the fates of the arrivals make them. */
  ghost predicate Fits(cfg: Config, all: seq<Arrival>, fates: seq<Fate>, l: Ledger) {
    && |all| == |fates|
    && EntriesFit(all, fates, l)
    && OpenFits(all, fates, l)
    && ClosuresFit(cfg, all, fates, l.closures)
    && IsCounted(all, fates, l.stats)
    && l.lastAccepted == LastStamp(l.closures)
  }

  ghost predicate Tells(cfg: Config, all: seq<Arrival>, fates: seq<Fate>, l: Ledger) {
    |all| == |fates| && AreFates(all, fates) && Current(fates) == |l.closures| && Fits(cfg, all, fates, l)
  }

  // ---- One more arrival ----

  lemma FatesGoOn(all: seq<Arrival>, fates: seq<Fate>, a: Arrival, f: Fate)
    requires AreFates(all, fates) && Befalls(all, fates, a, f)
    ensures AreFates(all + [a], fates + [f])
  {
    hide Befalls;
    var more, theirs := all + [a], fates + [f];
    forall k | 0 <= k < |more|
      ensures Befalls(more[..k], theirs[..k], more[k], theirs[k])
    {
      assert k < |all| ==> more[..k] == all[..k] && theirs[..k] == fates[..k];
      assert k == |all| ==> more[..k] == all && theirs[..k] == fates;
    }
  }

  lemma FramesGoOn(all: seq<Arrival>, fates: seq<Fate>, a: Arrival, f: Fate, g: nat)
    requires |all| == |fates|
    ensures Joined(all + [a], fates + [f], g) == Joined(all, fates, g) +
              if Carries(a) && f == Fate(g, true) then [Entry(Said(a.message).value, a.packet)] else []
    ensures BeganAt(all + [a], fates + [f], g) ==
              if BeganAt(all, fates, g).Some? then BeganAt(all, fates, g)
              else if Carries(a) && f == Fate(g, true) then Some(a.receiveTime) else None
    ensures RepeatedIn(all + [a], fates + [f], g) ==
              RepeatedIn(all, fates, g) + if Carries(a) && f == Fate(g, false) then 1 else 0
  {
    assert (all + [a])[..|all|] == all && (fates + [f])[..|fates|] == fates;
  }

  lemma CountGoesOn(all: seq<Arrival>, fates: seq<Fate>, a: Arrival, f: Fate, sort: Sort)
    requires |all| == |fates|
    ensures Count(all + [a], fates + [f], sort) == Count(all, fates, sort) + if SortOf(a, f) == Some(sort) then 1 else 0
  {
    hide SortOf;
    assert (all + [a])[..|all|] == all && (fates + [f])[..|fates|] == fates;
  }

  lemma CountsGoOn(all: seq<Arrival>, fates: seq<Fate>, a: Arrival, f: Fate)
    requires |all| == |fates|
    ensures forall sort :: Count(all + [a], fates + [f], sort) == Count(all, fates, sort) + if SortOf(a, f) == Some(sort) then 1 else 0
  {
    hide SortOf, Count;
    forall sort
      ensures Count(all + [a], fates + [f], sort) == Count(all, fates, sort) + if SortOf(a, f) == Some(sort) then 1 else 0
    {
      CountGoesOn(all, fates, a, f, sort);
    }
  }

  /** A frame that no arrival has reached yet. */
  lemma {:induction false} NothingAhead(all: seq<Arrival>, fates: seq<Fate>, g: nat)
    requires |all| == |fates| && forall i :: 0 <= i < |fates| ==> fates[i].frame < g
    ensures Joined(all, fates, g) == [] && RepeatedIn(all, fates, g) == 0 && BeganAt(all, fates, g).None?
  {
    if all != [] {
      NothingAhead(all[..|all| - 1], fates[..|all| - 1], g);
    }
  }

  // ---- What holds a slot ----

  lemma SameSlot(m: Message, n: Message)
    requires Said(m).Some? && Said(n).Some?
    ensures Rivals(m, n) <==> SlotOf(Said(m).value) == SlotOf(Said(n).value)
  {
    if m.BlendValue? && n.BlendValue? {
      assert ("vmc:" + m.name)[4..] == m.name && ("vmc:" + n.name)[4..] == n.name;
    }
  }

  /** One arrival taken off the end. */
  lemma JoinedBefore(all: seq<Arrival>, fates: seq<Fate>, g: nat)
    requires |all| == |fates| && all != []
    ensures var last := |all| - 1;
            && Joined(all, fates, g) == Joined(all[..last], fates[..last], g) +
                 (if IsIn(all, fates, g, last) then [Entry(Said(all[last].message).value, all[last].packet)] else [])
            && forall i :: i < last ==> (IsIn(all[..last], fates[..last], g, i) <==> IsIn(all, fates, g, i))
  {
    hide Said;
  }

  lemma FewerAreDistinct(entries: seq<Entry>, more: seq<Entry>)
    requires DistinctSlots(entries + more)
    ensures DistinctSlots(entries)
  {
    hide SlotOf;
    forall i, k | 0 <= i < k < |entries|
      ensures SlotOf(entries[i].item) != SlotOf(entries[k].item)
    {
      assert entries[i] == (entries + more)[i] && entries[k] == (entries + more)[k];
    }
  }

  /** The packet that filled a slot is that of whichever rival joined the frame; no rival joined where none did. */
  lemma {:induction false} HolderSays(all: seq<Arrival>, fates: seq<Fate>, g: nat, m: Message)
    requires |all| == |fates| && Said(m).Some? && DistinctSlots(Joined(all, fates, g))
    ensures var holder := Holder(Joined(all, fates, g), SlotOf(Said(m).value));
            && (forall i :: IsIn(all, fates, g, i) && Rivals(all[i].message, m) ==> holder == Some(all[i].packet))
            && (holder.Some? ==> exists i :: IsIn(all, fates, g, i) && Rivals(all[i].message, m))
  {
    hide Rivals, SlotOf, Said, Joined, DistinctSlots, Holder;
    var slot := SlotOf(Said(m).value);
    if all == [] {
      assert Joined(all, fates, g) == [] by { NothingAhead(all, fates, g); }
      NoHolderNoSlot([], slot);
    } else {
      var last := |all| - 1;
      var front, theirs := all[..last], fates[..last];
      var before := Joined(front, theirs, g);
      JoinedBefore(all, fates, g);
      if IsIn(all, fates, g, last) {
        var entry := Entry(Said(all[last].message).value, all[last].packet);
        FewerAreDistinct(before, [entry]);
        HolderSays(front, theirs, g, m);
        HolderGoesOn(before, entry, slot);
        SameSlot(all[last].message, m);
      } else {
        assert Joined(all, fates, g) == before;
        HolderSays(front, theirs, g, m);
      }
      if Holder(before, slot).Some? {
        var i :| IsIn(front, theirs, g, i) && Rivals(front[i].message, m);
        assert IsIn(all, fates, g, i);
      }
    }
  }

  lemma HolderGoesOn(entries: seq<Entry>, e: Entry, slot: Slot)
    requires DistinctSlots(entries + [e])
    ensures Holder(entries + [e], slot) == if SlotOf(e.item) == slot then Some(e.packet) else Holder(entries, slot)
    ensures SlotOf(e.item) == slot ==> Holder(entries, slot).None?
  {
    hide SlotOf;
    assert (entries + [e])[..|entries|] == entries;
    NoHolderNoSlot(entries, slot);
  }

  // ---- What a frame says ----

  lemma {:induction false} ClockSays(entries: seq<Entry>)
    requires DistinctSlots(entries)
    ensures ClockOf(entries).Some? <==> exists i :: 0 <= i < |entries| && entries[i].item.ClockItem?
    ensures ClockOf(entries).Some? ==> exists i :: 0 <= i < |entries| && entries[i].item == ClockItem(ClockOf(entries).value)
  {
    if entries != [] {
      var front := entries[..|entries| - 1];
      ClockSays(front);
    }
  }

  lemma {:induction false} RotationsSay(entries: seq<Entry>)
    requires DistinctSlots(entries)
    ensures forall i :: 0 <= i < |entries| && entries[i].item.BoneItem? ==>
              entries[i].item.bone in RotationsOf(entries) && RotationsOf(entries)[entries[i].item.bone] == entries[i].item.rotation
    ensures forall b :: b in RotationsOf(entries) ==> exists i :: 0 <= i < |entries| && IsBone(entries[i].item, b)
  {
    if entries != [] {
      var front, last := entries[..|entries| - 1], entries[|entries| - 1].item;
      RotationsSay(front);
      assert forall i :: 0 <= i < |front| ==> front[i] == entries[i] && SlotOf(entries[i].item) != SlotOf(last);
      forall b | b in RotationsOf(entries)
        ensures exists i :: 0 <= i < |entries| && IsBone(entries[i].item, b)
      {
        if !IsBone(last, b) {
          assert b in RotationsOf(front);
          var i :| 0 <= i < |front| && IsBone(front[i].item, b);
          assert IsBone(entries[i].item, b);
        }
      }
    }
  }

  lemma {:induction false} ChannelsSay(entries: seq<Entry>)
    requires DistinctSlots(entries)
    ensures forall i :: 0 <= i < |entries| && entries[i].item.ExpressionItem? ==>
              entries[i].item.name in ChannelsOf(entries) && ChannelsOf(entries)[entries[i].item.name] == entries[i].item.weight
    ensures forall n :: n in ChannelsOf(entries) ==> exists i :: 0 <= i < |entries| && IsExpression(entries[i].item, n)
  {
    if entries != [] {
      var front, last := entries[..|entries| - 1], entries[|entries| - 1].item;
      ChannelsSay(front);
      assert forall i :: 0 <= i < |front| ==> front[i] == entries[i] && SlotOf(entries[i].item) != SlotOf(last);
      forall n | n in ChannelsOf(entries)
        ensures exists i :: 0 <= i < |entries| && IsExpression(entries[i].item, n)
      {
        if !IsExpression(last, n) {
          assert n in ChannelsOf(front);
          var i :| 0 <= i < |front| && IsExpression(front[i].item, n);
          assert IsExpression(entries[i].item, n);
        }
      }
    }
  }

  lemma {:induction false} RootSays(entries: seq<Entry>)
    requires DistinctSlots(entries)
    ensures forall i :: 0 <= i < |entries| && entries[i].item.RootItem? ==> RootOf(entries) == Some(entries[i].item.root)
    ensures RootOf(entries).Some? ==> exists i :: 0 <= i < |entries| && entries[i].item.RootItem?
  {
    if entries != [] {
      var front, last := entries[..|entries| - 1], entries[|entries| - 1].item;
      RootSays(front);
      assert forall i :: 0 <= i < |front| ==> front[i] == entries[i] && SlotOf(entries[i].item) != SlotOf(last);
    }
  }

  lemma {:induction false} HipsSay(entries: seq<Entry>, hips: nat)
    requires DistinctSlots(entries)
    ensures forall i :: 0 <= i < |entries| && IsBone(entries[i].item, hips) ==>
              HipsOffsetOf(entries, hips) == Some(entries[i].item.position)
    ensures HipsOffsetOf(entries, hips).Some? ==> exists i :: 0 <= i < |entries| && IsBone(entries[i].item, hips)
  {
    if entries != [] {
      var front, last := entries[..|entries| - 1], entries[|entries| - 1].item;
      HipsSay(front, hips);
      assert forall i :: 0 <= i < |front| ==> front[i] == entries[i] && SlotOf(entries[i].item) != SlotOf(last);
      if HipsOffsetOf(front, hips).Some? {
        var i :| 0 <= i < |front| && IsBone(front[i].item, hips);
        assert IsBone(entries[i].item, hips);
      }
    }
  }

  lemma ContentSays(entries: seq<Entry>)
    requires DistinctSlots(entries)
    ensures HasContent(entries) <==> exists i :: 0 <= i < |entries| && !entries[i].item.ClockItem?
  {
    hide RotationsOf, ChannelsOf, RootOf, DistinctSlots;
    RotationsSay(entries);
    ChannelsSay(entries);
    RootSays(entries);
    if i :| 0 <= i < |entries| && !entries[i].item.ClockItem? {
      match entries[i].item {
        case BoneItem(bone, _, _) => assert bone in RotationsOf(entries).Keys;
        case ExpressionItem(name, _) => assert name in ChannelsOf(entries).Keys;
        case _ =>
      }
    } else {
      assert forall b :: b !in RotationsOf(entries).Keys;
      assert forall n :: n !in ChannelsOf(entries).Keys;
    }
  }

  lemma FrameHolds(cfg: Config, l: Ledger, f: OpenFrame, timestamp: real, restart: bool)
    requires DistinctSlots(f.entries)
    ensures Holds(cfg, EmittedFrame(cfg, l, f, timestamp, restart), f.entries)
  {
    hide RotationsOf, ChannelsOf, RootOf, HipsOffsetOf, ClockOf, DistinctSlots, StaleAmong;
    RotationsSay(f.entries);
    ChannelsSay(f.entries);
    RootSays(f.entries);
    HipsSay(f.entries, cfg.hips);
  }

  lemma StampSays(f: OpenFrame)
    requires DistinctSlots(f.entries)
    ensures IsStamped(f.entries, f.receiveTime, TimestampOf(f), ClockOf(f.entries).Some?)
  {
    hide ClockOf, DistinctSlots;
    ClockSays(f.entries);
  }

  /** How an open frame ends, told from its entries and the closures before. */
  lemma CloseEndsAs(cfg: Config, l: Ledger)
    requires l.frame.Some? && DistinctSlots(l.frame.value.entries) && l.lastAccepted == LastStamp(l.closures)
    ensures var l', f := Close(cfg, l), l.frame.value;
            && |l'.closures| == |l.closures| + 1 && l'.closures == l.closures + [l'.closures[|l.closures|]]
            && EndsAs(cfg, l.closures, l'.closures[|l.closures|], f.receiveTime, f.duplicates)
            && l'.lastAccepted == LastStamp(l'.closures)
  {
    hide HasContent, TimestampOf, ClockOf, DistinctSlots, IsStamped, Holds, RotationsOf, ChannelsOf, RootOf, HipsOffsetOf,
         StaleAmong, SeenAt;
    var f := l.frame.value;
    ContentSays(f.entries);
    StampSays(f);
    FrameHolds(cfg, l, f, TimestampOf(f), false);
    FrameHolds(cfg, Forgotten(l), f, TimestampOf(f), true);
    var l' := Close(cfg, l);
    assert l'.closures[..|l.closures|] == l.closures;
  }

  // ---- One step ----

  lemma CloseCounts(cfg: Config, l: Ledger)
    ensures var s, s' := l.stats, Close(cfg, l).stats;
            && s'.bonesAccepted == s.bonesAccepted && s'.rootsAccepted == s.rootsAccepted
            && s'.expressionsAccepted == s.expressionsAccepted && s'.bonesDuplicated == s.bonesDuplicated
            && s'.expressionsDuplicated == s.expressionsDuplicated && s'.bonesUnsupported == s.bonesUnsupported
            && s'.bonesMalformed == s.bonesMalformed && s'.rootsMalformed == s.rootsMalformed
            && s'.messagesIgnored == s.messagesIgnored
  {
    hide HasContent, TimestampOf, EmittedFrame, SeenAt;
  }

  /** The open frame closes: it is the next of the closed ones, and nothing is open. */
  lemma CloseFits(cfg: Config, all: seq<Arrival>, fates: seq<Fate>, l: Ledger)
    requires Fits(cfg, all, fates, l) && Partitioned(l) && l.frame.Some?
    ensures Fits(cfg, all, fates, Close(cfg, l))
  {
    hide Close, Joined, BeganAt, RepeatedIn, Count, EndsAs, LastStamp, DistinctSlots, Contents;
    var l' := Close(cfg, l);
    CloseEnds(cfg, l);
    CloseEndsAs(cfg, l);
    CloseCounts(cfg, l);
    NothingAhead(all, fates, |l.closures| + 1);
    forall g | 0 <= g < |l'.closures|
      ensures BeganAt(all, fates, g).Some?
      ensures EndsAs(cfg, l'.closures[..g], l'.closures[g], BeganAt(all, fates, g).value, RepeatedIn(all, fates, g))
    {
      if g < |l.closures| {
        assert l'.closures[..g] == l.closures[..g];
      } else {
        assert l'.closures[..g] == l.closures;
      }
    }
  }

  /** One more arrival changes no frame but the open one. */
  lemma ClosuresGoOn(cfg: Config, all: seq<Arrival>, fates: seq<Fate>, a: Arrival, f: Fate, closures: seq<Closure>)
    requires |all| == |fates| && ClosuresFit(cfg, all, fates, closures) && f.frame == |closures|
    ensures ClosuresFit(cfg, all + [a], fates + [f], closures)
  {
    hide EndsAs, BeganAt, RepeatedIn, Joined;
    forall g | 0 <= g < |closures|
      ensures BeganAt(all + [a], fates + [f], g).Some?
      ensures EndsAs(cfg, closures[..g], closures[g], BeganAt(all + [a], fates + [f], g).value, RepeatedIn(all + [a], fates + [f], g))
    {
      FramesGoOn(all, fates, a, f, g);
    }
  }

  lemma EntriesGoOn(all: seq<Arrival>, fates: seq<Fate>, a: Arrival, f: Fate, l: Ledger, l': Ledger)
    requires |all| == |fates| && EntriesFit(all, fates, l) && f.frame == |l.closures| && l'.closures == l.closures
    requires OpenEntries(l') == OpenEntries(l) +
               if Carries(a) && f.joins then [Entry(Said(a.message).value, a.packet)] else []
    ensures EntriesFit(all + [a], fates + [f], l')
  {
    hide Joined, Said, BeganAt, RepeatedIn;
    FramesGoOn(all, fates, a, f, |l.closures|);
    forall g | 0 <= g < |l.closures|
      ensures l'.closures[g].entries == Joined(all + [a], fates + [f], g)
    {
      FramesGoOn(all, fates, a, f, g);
    }
  }

  /** An item joins the open frame, or opens one. */
  lemma JoinFits(cfg: Config, all: seq<Arrival>, fates: seq<Fate>, l: Ledger, a: Arrival, f: Fate)
    requires Fits(cfg, all, fates, l) && Carries(a) && a.packet == l.packet && f == Fate(|l.closures|, true)
    ensures Fits(cfg, all + [a], fates + [f], Join(l, Said(a.message).value, a.receiveTime))
  {
    hide Joined, BeganAt, RepeatedIn, Count, EndsAs, LastStamp, ClosuresFit;
    EntriesGoOn(all, fates, a, f, l, Join(l, Said(a.message).value, a.receiveTime));
    FramesGoOn(all, fates, a, f, |l.closures|);
    ClosuresGoOn(cfg, all, fates, a, f, l.closures);
    CountsGoOn(all, fates, a, f);
  }

  lemma RepeatFits(cfg: Config, all: seq<Arrival>, fates: seq<Fate>, l: Ledger, a: Arrival, f: Fate)
    requires Fits(cfg, all, fates, l) && Carries(a) && !a.message.Time? && l.frame.Some? && f == Fate(|l.closures|, false)
    ensures Fits(cfg, all + [a], fates + [f], Repeat(l, Said(a.message).value))
  {
    hide Joined, BeganAt, RepeatedIn, Count, EndsAs, LastStamp, ClosuresFit;
    EntriesGoOn(all, fates, a, f, l, Repeat(l, Said(a.message).value));
    FramesGoOn(all, fates, a, f, |l.closures|);
    ClosuresGoOn(cfg, all, fates, a, f, l.closures);
    CountsGoOn(all, fates, a, f);
  }

  /** A message that says nothing of the pose is counted, and a flush is not. */
  lemma PassFits(cfg: Config, all: seq<Arrival>, fates: seq<Fate>, l: Ledger, a: Arrival, f: Fate)
    requires Fits(cfg, all, fates, l) && !Carries(a) && f == Fate(|l.closures|, false)
    ensures Fits(cfg, all + [a], fates + [f], if a.Arrival? then Take(cfg, l, a.message, a.receiveTime) else l)
  {
    hide Joined, BeganAt, RepeatedIn, Count, EndsAs, LastStamp, ClosuresFit;
    EntriesGoOn(all, fates, a, f, l, if a.Arrival? then Take(cfg, l, a.message, a.receiveTime) else l);
    FramesGoOn(all, fates, a, f, |l.closures|);
    ClosuresGoOn(cfg, all, fates, a, f, l.closures);
    CountsGoOn(all, fates, a, f);
  }

  /** What befalls an arrival that says something, by what holds its slot. */
  lemma ItemBefalls(all: seq<Arrival>, fates: seq<Fate>, a: Arrival, f: Fate)
    requires |all| == |fates| && Carries(a) && DistinctSlots(Joined(all, fates, Current(fates)))
    requires var holder := Holder(Joined(all, fates, Current(fates)), SlotOf(Said(a.message).value));
             f == if holder.None? then Fate(Current(fates), true)
                  else if !a.message.Time? && holder.value == a.packet then Fate(Current(fates), false)
                  else Fate(Current(fates) + 1, true)
    ensures Befalls(all, fates, a, f)
  {
    hide Joined, SlotOf, Holder, Rivals, DistinctSlots;
    HolderSays(all, fates, Current(fates), a.message);
  }

  /** A flush cuts exactly where something has joined the current frame. */
  lemma {:induction false} JoinedSome(all: seq<Arrival>, fates: seq<Fate>, g: nat)
    requires |all| == |fates|
    ensures Joined(all, fates, g) != [] <==> exists i :: IsIn(all, fates, g, i)
  {
    hide Joined, Said;
    if all == [] {
      NothingAhead(all, fates, g);
    } else {
      var last := |all| - 1;
      var front, theirs := all[..last], fates[..last];
      JoinedBefore(all, fates, g);
      JoinedSome(front, theirs, g);
      if i :| IsIn(front, theirs, g, i) {
        assert IsIn(all, fates, g, i);
      }
      if i :| IsIn(all, fates, g, i) {
        assert i < last ==> IsIn(front, theirs, g, i);
      }
    }
  }

  /** One message with what befalls it. */
  lemma TakeTells(cfg: Config, all: seq<Arrival>, fates: seq<Fate>, l: Ledger, m: Message, receiveTime: real) returns (f: Fate)
    requires Tells(cfg, all, fates, l) && Partitioned(l)
    ensures Tells(cfg, all + [Arrival(m, l.packet, receiveTime)], fates + [f], Take(cfg, l, m, receiveTime))
  {
    hide AreFates, Befalls, Fits, Partitioned, Joined, Said, Rivals, SlotOf, Holder, Close, Take;
    var a, now := Arrival(m, l.packet, receiveTime), |l.closures|;
    if !Carries(a) {
      f := Fate(now, false);
      PassFits(cfg, all, fates, l, a, f);
      NothingBefalls(all, fates, a);
      PassLeaves(cfg, l, m, receiveTime);
    } else {
      TakeIsAccept(cfg, l, m, receiveTime);
      f := AcceptFits(cfg, all, fates, l, a);
    }
    FatesGoOn(all, fates, a, f);
  }

  lemma NothingBefalls(all: seq<Arrival>, fates: seq<Fate>, a: Arrival)
    requires a.Arrival? && !Carries(a)
    ensures Befalls(all, fates, a, Fate(Current(fates), false))
  {
  }

  lemma PassLeaves(cfg: Config, l: Ledger, m: Message, receiveTime: real)
    requires Said(m).None?
    ensures Take(cfg, l, m, receiveTime).closures == l.closures
  {
  }

  lemma TakeIsAccept(cfg: Config, l: Ledger, m: Message, receiveTime: real)
    requires Said(m).Some?
    ensures Take(cfg, l, m, receiveTime) == Accept(cfg, l, Said(m).value, receiveTime)
    ensures Said(m).value.ClockItem? <==> m.Time?
  {
    hide Accept;
  }

  lemma AcceptFits(cfg: Config, all: seq<Arrival>, fates: seq<Fate>, l: Ledger, a: Arrival) returns (f: Fate)
    requires |all| == |fates| && Current(fates) == |l.closures| && Fits(cfg, all, fates, l) && Partitioned(l)
    requires Carries(a) && a.packet == l.packet
    ensures var l' := Accept(cfg, l, Said(a.message).value, a.receiveTime);
            Befalls(all, fates, a, f) && f.frame == |l'.closures| && Fits(cfg, all + [a], fates + [f], l')
  {
    hide Fits, Befalls, Joined, Said, SlotOf, Holder, Close, DistinctSlots, Contents;
    var item, now := Said(a.message).value, |l.closures|;
    TakeIsAccept(cfg, l, a.message, a.receiveTime);
    FitsOpen(cfg, all, fates, l);
    var holder := Holder(OpenEntries(l), SlotOf(item));
    if holder.None? {
      f := Fate(now, true);
      JoinFits(cfg, all, fates, l, a, f);
    } else if !a.message.Time? && holder.value == l.packet {
      f := Fate(now, false);
      HeldIsOpen(l, SlotOf(item));
      RepeatFits(cfg, all, fates, l, a, f);
    } else {
      f := Fate(now + 1, true);
      HeldIsOpen(l, SlotOf(item));
      CloseEnds(cfg, l);
      CloseFits(cfg, all, fates, l);
      JoinFits(cfg, all, fates, Close(cfg, l), a, f);
    }
    ItemBefalls(all, fates, a, f);
  }

  lemma HeldIsOpen(l: Ledger, slot: Slot)
    requires Holder(OpenEntries(l), slot).Some?
    ensures l.frame.Some?
  {
  }

  lemma FitsOpen(cfg: Config, all: seq<Arrival>, fates: seq<Fate>, l: Ledger)
    requires Fits(cfg, all, fates, l)
    ensures OpenEntries(l) == Joined(all, fates, |l.closures|)
  {
    hide Joined, BeganAt, RepeatedIn, ClosuresFit, LastStamp, IsCounted;
  }

  lemma FlushTells(cfg: Config, all: seq<Arrival>, fates: seq<Fate>, l: Ledger) returns (f: Fate)
    requires Tells(cfg, all, fates, l) && Partitioned(l)
    ensures Tells(cfg, all + [FlushMark], fates + [f], Close(cfg, l))
  {
    hide AreFates, Fits, Joined, Close, DistinctSlots, Contents;
    FitsOpen(cfg, all, fates, l);
    JoinedSome(all, fates, |l.closures|);
    var l' := Close(cfg, l);
    if l.frame.Some? {
      CloseEnds(cfg, l);
      CloseFits(cfg, all, fates, l);
    } else {
      CloseIsNothing(cfg, l);
    }
    f := Fate(|l'.closures|, false);
    PassFits(cfg, all, fates, l', FlushMark, f);
    assert Befalls(all, fates, FlushMark, f);
    FatesGoOn(all, fates, FlushMark, f);
  }

  // ---- Whole runs ----

  lemma {:induction false} TakeAllTells(cfg: Config, all: seq<Arrival>, fates: seq<Fate>, l: Ledger, messages: seq<Message>,
                                        receiveTime: real)
    returns (more: seq<Fate>)
    requires Tells(cfg, all, fates, l) && Kept(cfg, l)
    ensures Tells(cfg, all + Datagram(messages, l.packet, receiveTime), more, TakeAll(cfg, l, messages, receiveTime))
    ensures TakeAll(cfg, l, messages, receiveTime).packet == l.packet
  {
    hide Tells, Take, Partitioned, Tallied, Clocked, Sessioned;
    if messages == [] {
      more := fates;
      assert all + [] == all;
    } else {
      var last := |messages| - 1;
      var front := messages[..last];
      var before := TakeAllTells(cfg, all, fates, l, front, receiveTime);
      TakeAllKeeps(cfg, l, front, receiveTime);
      var l' := TakeAll(cfg, l, front, receiveTime);
      var earlier := all + Datagram(front, l.packet, receiveTime);
      var f := TakeTells(cfg, earlier, before, l', messages[last], receiveTime);
      more := before + [f];
      TakeKeepsPacket(cfg, l', messages[last], receiveTime);
      assert all + Datagram(messages, l.packet, receiveTime) == earlier + [Arrival(messages[last], l.packet, receiveTime)];
    }
  }

  lemma TakeKeepsPacket(cfg: Config, l: Ledger, m: Message, receiveTime: real)
    ensures Take(cfg, l, m, receiveTime).packet == l.packet
  {
    hide Close, Holder, SlotOf;
    CloseKeepsPacket(cfg, l);
  }

  lemma CloseKeepsPacket(cfg: Config, l: Ledger)
    ensures Close(cfg, l).packet == l.packet
  {
    hide HasContent, TimestampOf, EmittedFrame, SeenAt;
  }

  lemma NamingTells(cfg: Config, all: seq<Arrival>, fates: seq<Fate>, l: Ledger, packet: nat)
    requires Tells(cfg, all, fates, l)
    ensures Tells(cfg, all, fates, l.(packet := packet))
  {
    hide AreFates, Joined, BeganAt, RepeatedIn, ClosuresFit, LastStamp, IsCounted;
  }

  lemma StartTells(cfg: Config)
    ensures Tells(cfg, [], [], START)
  {
    hide EndsAs, Befalls, Joined, BeganAt, RepeatedIn, Count, LastStamp;
    NothingAhead([], [], 0);
    NothingCounted();
    assert LastStamp([]).None? by { NoStamp(); }
    assert AreFates([], []);
  }

  lemma NothingCounted()
    ensures forall sort :: Count([], [], sort) == 0
  {
  }

  lemma NoStamp()
    ensures LastStamp([]).None?
  {
  }

  lemma KeptIsPartitioned(cfg: Config, l: Ledger)
    requires Kept(cfg, l)
    ensures Partitioned(l)
  {
    hide Partitioned, Tallied, Clocked, Sessioned;
  }

  lemma DatagramTells(cfg: Config, all: seq<Arrival>, fates: seq<Fate>, l: Ledger, messages: seq<Message>, receiveTime: real)
    returns (more: seq<Fate>)
    requires Tells(cfg, all, fates, l) && Kept(cfg, l)
    ensures var l' := TakeAll(cfg, l.(packet := l.packet + 1), messages, receiveTime);
            && Tells(cfg, all + Datagram(messages, l.packet + 1, receiveTime), more, l')
            && l'.packet == l.packet + 1
  {
    hide Tells, TakeAll, Kept, Datagram;
    NamingTells(cfg, all, fates, l, l.packet + 1);
    OtherwiseKept(cfg, l, l.stats, l.packet + 1);
    more := TakeAllTells(cfg, all, fates, l.(packet := l.packet + 1), messages, receiveTime);
  }

  /**
   Every run told from its events alone. Each arrival has its fate, the only one it can have: it is left
   out exactly when its own datagram has said the same in the current frame, and it ends the frame
   exactly when an earlier datagram has, or when it is a second clock, or where a flush stands. The
   frames of the run, closed and open, are those the fates make, each ended as its own entries and the
   last emitted timestamp say, and every count is a count of fates.
   */
  lemma {:induction false} EventsTell(cfg: Config, events: seq<Event>) returns (fates: seq<Fate>)
    ensures Tells(cfg, Arrivals(events), fates, Run(cfg, events)) && Run(cfg, events).packet == Pushes(events)
  {
    hide Tells, Take, TakeAll, Close, Kept, Datagram;
    if events == [] {
      fates := [];
      StartTells(cfg);
    } else {
      var front, last := events[..|events| - 1], events[|events| - 1];
      var before := EventsTell(cfg, front);
      RunKeeps(cfg, front);
      var l := Run(cfg, front);
      match last {
        case Pushed(messages, receiveTime) =>
          fates := DatagramTells(cfg, Arrivals(front), before, l, messages, receiveTime);
        case Flushed =>
          KeptIsPartitioned(cfg, l);
          var f := FlushTells(cfg, Arrivals(front), before, l);
          fates := before + [f];
          CloseKeepsPacket(cfg, l);
      }
    }
  }

  /** No arrivals have two lists of fates. */
  lemma {:induction false} FatesAreUnique(all: seq<Arrival>, one: seq<Fate>, other: seq<Fate>)
    requires AreFates(all, one) && AreFates(all, other)
    ensures one == other
  {
    hide Befalls;
    if all != [] {
      var last := |all| - 1;
      FatesOfPrefix(all, one, last);
      FatesOfPrefix(all, other, last);
      FatesAreUnique(all[..last], one[..last], other[..last]);
      BefallsOnce(all[..last], one[..last], all[last], one[last], other[last]);
      assert one == one[..last] + [one[last]] && other == other[..last] + [other[last]];
    }
  }

  lemma BefallsOnce(past: seq<Arrival>, fates: seq<Fate>, a: Arrival, f: Fate, f': Fate)
    requires Befalls(past, fates, a, f) && Befalls(past, fates, a, f')
    ensures f == f'
  {
    hide Repeats, Cuts;
  }

  lemma FatesOfPrefix(all: seq<Arrival>, fates: seq<Fate>, n: nat)
    requires AreFates(all, fates) && n <= |all|
    ensures AreFates(all[..n], fates[..n])
  {
    hide Befalls;
    forall k | 0 <= k < n
      ensures Befalls(all[..n][..k], fates[..n][..k], all[..n][k], fates[..n][k])
    {
      assert all[..n][..k] == all[..k] && fates[..n][..k] == fates[..k];
    }
  }
}
