/**
 The other direction of the wire: whatever a reader accepts can be written, is already in normal form, and
 a frame survives being written and read again. What is written is itself a tree the parser lets through,
 six levels deep at most, and two frames are written alike exactly when their normal forms agree.
 */
module WireReading {
  import opened Bytes
  import opened WireTree
  import opened FrameWire
  import opened WireRoundTrip
  import T = Text

  // ---- What is read can be written ----

  lemma FloatReads(c: Codec, v: Value)
    requires Sound(c) && ReadFloat(c)(v).Some?
    ensures c.finite(ReadFloat(c)(v).value)
  {
    hide DistinctWords, JointsInOrder, AllText;
  }

  lemma DoubleReads(c: Codec, v: Value)
    requires Sound(c) && ReadDouble(c)(v).Some?
    ensures c.finiteDouble(ReadDouble(c)(v).value)
  {
    hide DistinctWords, JointsInOrder, AllText;
  }

  lemma VectorReads(c: Codec, v: Value)
    requires Sound(c) && ReadVector(c)(v).Some?
    ensures FiniteVector(c, ReadVector(c)(v).value)
  {
    hide Sound, ReadFloat;
    FloatReads(c, v.elements[0]);
    FloatReads(c, v.elements[1]);
    FloatReads(c, v.elements[2]);
  }

  lemma RotationReads(c: Codec, v: Value)
    requires Sound(c) && ReadRotation(c)(v).Some?
    ensures Turns(c, ReadRotation(c)(v).value)
  {
    hide Sound, ReadFloat;
    FloatReads(c, v.elements[0]);
    FloatReads(c, v.elements[1]);
    FloatReads(c, v.elements[2]);
    FloatReads(c, v.elements[3]);
  }

  lemma TimingReads(c: Codec, v: Value)
    requires Sound(c) && ReadTiming(c, v).Some?
    ensures WritableTiming(c, ReadTiming(c, v).value)
  {
    hide Sound, Find, ReadDouble;
    var sourced := Find(v.members, TIMING[0]);
    if sourced.Some? {
      DoubleReads(c, sourced.value);
    }
    DoubleReads(c, Find(v.members, TIMING[1]).value);
  }

  lemma RootReads(c: Codec, v: Value)
    requires Sound(c) && ReadRoot(c, v).Some?
    ensures var r := ReadRoot(c, v).value; WritableRoot(c, r) && NormalRoot(c, r) == r
  {
    hide Sound, Find, ReadVector, ReadRotation;
    var m := v.members;
    if Find(m, ROOT[0]).Some? {
      VectorReads(c, Find(m, ROOT[0]).value);
    }
    if Find(m, ROOT[1]).Some? {
      RotationReads(c, Find(m, ROOT[1]).value);
    }
    if Find(m, ROOT[2]).Some? {
      VectorReads(c, Find(m, ROOT[2]).value);
    }
    if Find(m, ROOT[3]).Some? {
      VectorReads(c, Find(m, ROOT[3]).value);
    }
  }

  lemma {:induction false} LimbsRead(c: Codec, members: seq<Member>, l: Limbs)
    requires Sound(c) && Limbed(c, l) && WritableLimbs(c, l) && NormalLimbs(c, l) == l
    requires ReadLimbs(c, members, l).Some?
    ensures var r := ReadLimbs(c, members, l).value; WritableLimbs(c, r) && NormalLimbs(c, r) == r
  {
    hide Sound, FindWord, ReadRotation, Turns;
    if members != [] {
      var j, q := FindWord(c.joints, members[0].key).value, ReadRotation(c)(members[0].value).value;
      RotationReads(c, members[0].value);
      var next := Limbs(l.rotations[j := q], l.carried[j := true]);
      forall i | 0 <= i < |c.joints|
        ensures next.rotations[i] == if next.carried[i] then next.rotations[i] else c.rest
      {
        assert NormalLimbs(c, l).rotations[i] == l.rotations[i];
      }
      assert NormalLimbs(c, next).rotations == next.rotations;
      LimbsRead(c, members[1..], next);
    }
  }

  /** Confidences only where a joint is carried, finite there, and zero where none was read. */
  predicate Gathered(c: Codec, carried: seq<bool>, a: Confidences)
    requires |carried| == |a.values| == |a.present| == |c.joints|
  {
    forall j :: 0 <= j < |c.joints| ==>
      if a.present[j] then carried[j] && c.finite(a.values[j]) else a.values[j] == 0
  }

  lemma {:induction false} ConfidencesRead(c: Codec, members: seq<Member>, carried: seq<bool>, a: Confidences)
    requires Sound(c) && |carried| == |a.values| == |a.present| == |c.joints| && Gathered(c, carried, a)
    requires GatherConfidence(c, members, carried, a).Some?
    ensures Gathered(c, carried, GatherConfidence(c, members, carried, a).value)
  {
    hide Sound, FindWord, ReadFloat;
    if members != [] {
      var j, x := FindWord(c.joints, members[0].key).value, ReadFloat(c)(members[0].value).value;
      FloatReads(c, members[0].value);
      ConfidencesRead(c, members[1..], carried, Confidences(a.values[j := x], a.present[j := true]));
    }
  }

  lemma ConfidenceReads(c: Codec, v: Value, carried: seq<bool>)
    requires Sound(c) && |carried| == |c.joints| && ReadConfidence(c, v, carried).Some?
    ensures var x := ReadConfidence(c, v, carried).value; WritableConfidence(c, carried, x) && NormalConfidence(carried, x) == x
  {
    hide Sound, GatherConfidence;
    ConfidencesRead(c, v.members, carried, NoConfidence(c));
  }

  lemma {:induction false} ChannelsRead(c: Codec, members: seq<Member>, channels: seq<Channel<Float>>)
    requires Sound(c) && Wholesome(c.isText, Obj(members)) && ReadChannels(c, members, channels).Some?
    requires InNameOrder(channels) && WritableChannels(c, channels)
    ensures InNameOrder(ReadChannels(c, members, channels).value)
    ensures WritableChannels(c, ReadChannels(c, members, channels).value)
  {
    hide Sound, Less, Put, ReadFloat;
    if members != [] {
      var next := Channel(members[0].key, ReadFloat(c)(members[0].value).value);
      FloatReads(c, members[0].value);
      PutKeepsOrder(channels, next);
      var put := Put(channels, next);
      OrderedIsDistinct(put);
      forall i | 0 <= i < |put|
        ensures c.isText(put[i].name) && c.finite(put[i].weight)
      {
        assert put[i] in put;
      }
      assert Wholesome(c.isText, Obj(members[1..])) by {
        assert forall m :: 0 <= m < |members[1..]| ==> members[1..][m] == members[m + 1];
      }
      ChannelsRead(c, members[1..], put);
    }
  }

  lemma FoundIsWholesome(c: Codec, members: seq<Member>, key: string)
    requires Wholesome(c.isText, Obj(members))
    ensures Find(members, key).Some? ==> Wholesome(c.isText, Find(members, key).value)
  {
  }

  lemma MetadataReads(c: Codec, v: Value)
    requires Sound(c) && Wholesome(c.isText, v) && ReadMetadata(c, v).Some?
    ensures WritableMetadata(c, ReadMetadata(c, v).value)
  {
    hide Sound, Find, ReadDouble, ReadCount;
    var m := v.members;
    FoundIsWholesome(c, m, METADATA[1]);
    FoundIsWholesome(c, m, METADATA[2]);
    FoundIsWholesome(c, m, METADATA[3]);
    if Find(m, METADATA[4]).Some? {
      DoubleReads(c, Find(m, METADATA[4]).value);
    }
  }

  lemma PoseReads(c: Codec, fields: seq<Option<Value>>)
    requires Sound(c) && |fields| == |POSE| && forall i :: 0 <= i < |POSE| && POSE_NEEDS[i] ==> fields[i].Some?
    requires forall i :: 0 <= i < |POSE| && fields[i].Some? ==> Wholesome(c.isText, fields[i].value)
    requires PoseFrom(c, fields).Some?
    ensures var p := PoseFrom(c, fields).value; WritablePose(c, p) && NormalPose(c, p) == p
  {
    hide Sound, ReadDouble, ReadRoot, ReadLimbs, ReadConfidence, ReadContacts, ReadVector, ReadChannels, ReadMetadata;
    hide WritableRoot, WritableLimbs, WritableConfidence, WritableChannels, WritableMetadata, Wholesome, Sorted, Less;
    hide NormalRoot, NormalLimbs, NormalConfidence;
    var p := PoseFrom(c, fields).value;
    DoubleReads(c, fields[0].value);
    RootReads(c, fields[1].value);
    StillIsNormal(c);
    LimbsRead(c, fields[2].value.members, Still(c));
    if fields[3].Some? {
      ConfidenceReads(c, fields[3].value, p.limbs.carried);
    }
    if fields[4].Some? {
      ContactsRead(fields[4].value);
    }
    if fields[5].Some? {
      VectorReads(c, fields[5].value);
    }
    NoChannels(c);
    ChannelsRead(c, fields[6].value.members, []);
    SortedStays(p.channels);
    MetadataReads(c, fields[7].value);
  }

  lemma StillIsNormal(c: Codec)
    ensures WritableLimbs(c, Still(c)) && NormalLimbs(c, Still(c)) == Still(c)
  {
  }

  lemma NoChannels(c: Codec)
    ensures WritableChannels(c, []) && InNameOrder<Float>([])
  {
  }

  lemma ContactsRead(v: Value)
    requires ReadContacts(v).Some?
    ensures WritableContacts(ReadContacts(v).value)
  {
  }

  lemma TrackerReads(c: Codec, v: Value)
    requires Sound(c) && Wholesome(c.isText, v) && ReadTracker(c)(v).Some?
    ensures var t := ReadTracker(c)(v).value; WritableTracker(c, t) && NormalTracker(c, t) == t
  {
    hide Sound, Find, ReadFloat, ReadVector, ReadRotation;
    var m := v.members;
    FoundIsWholesome(c, m, TRACKER[0]);
    if Find(m, TRACKER[1]).Some? {
      VectorReads(c, Find(m, TRACKER[1]).value);
    }
    if Find(m, TRACKER[2]).Some? {
      RotationReads(c, Find(m, TRACKER[2]).value);
    }
    if Find(m, TRACKER[3]).Some? {
      FloatReads(c, Find(m, TRACKER[3]).value);
    }
  }

  lemma TrackersRead(c: Codec, v: Value)
    requires Sound(c) && Wholesome(c.isText, v) && ReadTrackers(c, v).Some?
    ensures var items := ReadTrackers(c, v).value; (
              && DistinctIds(items, TrackerId()) && NormalTrackers(c, items) == items
              && forall i :: 0 <= i < |items| ==> WritableTracker(c, items[i]))
  {
    hide Sound, ReadTracker, WritableTracker, NormalTracker;
    var items := ReadTrackers(c, v).value;
    ListedAreDistinct(v.elements, ReadTracker(c), TrackerId(), {});
    forall i | 0 <= i < |items|
      ensures WritableTracker(c, items[i]) && NormalTracker(c, items[i]) == items[i]
    {
      TrackerReads(c, v.elements[i]);
    }
  }

  lemma ActorReads(c: Codec, v: Value)
    requires Sound(c) && Wholesome(c.isText, v) && ReadActor(c)(v).Some?
    ensures var a := ReadActor(c)(v).value; ShapedActor(c, a) && WritableActor(c, a) && NormalActor(c, a) == a
  {
    hide Sound, Find, ReadTrackers, PoseFrom, WritablePose, WritableTracker, NormalPose, NormalTrackers;
    var m := v.members;
    FoundIsWholesome(c, m, ACTOR[0]);
    FoundIsWholesome(c, m, ACTOR[2]);
    TrackersRead(c, Find(m, ACTOR[2]).value);
    if Find(m, ACTOR[1]).Some? {
      FoundIsWholesome(c, m, ACTOR[1]);
      WholePoseReads(c, Find(m, ACTOR[1]).value);
    }
  }

  lemma WholePoseReads(c: Codec, v: Value)
    requires Sound(c) && Wholesome(c.isText, v) && ReadPose(c, v).Some?
    ensures var p := ReadPose(c, v).value; WritablePose(c, p) && NormalPose(c, p) == p
  {
    hide Sound, Find, PoseFrom, WritablePose, NormalPose, Wholesome;
    var fields := Fields(v.members, POSE);
    forall i | 0 <= i < |POSE| && fields[i].Some?
      ensures Wholesome(c.isText, fields[i].value)
    {
      FoundIsWholesome(c, v.members, POSE[i]);
    }
    PoseReads(c, fields);
  }

  lemma ActorsRead(c: Codec, v: Value)
    requires Sound(c) && Wholesome(c.isText, v) && ReadActors(c, v).Some?
    ensures var items := ReadActors(c, v).value; (
              && DistinctIds(items, ActorName())
              && forall i :: 0 <= i < |items| ==>
                   ShapedActor(c, items[i]) && WritableActor(c, items[i]) && NormalActor(c, items[i]) == items[i])
  {
    hide Sound, ReadActor, ShapedActor, WritableActor, NormalActor;
    var items := ReadActors(c, v).value;
    ListedAreDistinct(v.elements, ReadActor(c), ActorName(), {});
    forall i | 0 <= i < |items|
      ensures ShapedActor(c, items[i]) && WritableActor(c, items[i]) && NormalActor(c, items[i]) == items[i]
    {
      ActorReads(c, v.elements[i]);
    }
  }

  /** Whatever the reader accepts of a parsed message the writer accepts too, and it is already normal. */
  lemma ReadIsWritable(c: Codec, v: Value)
    requires Sound(c) && Wholesome(c.isText, v) && ReadFrame(c, v).Some?
    ensures var f := ReadFrame(c, v).value; Shaped(c, f) && Writable(c, f) && Normal(c, f) == f
  {
    hide Sound, Find, ReadActors, ReadTiming, ReadCount, ShapedActor, WritableActor, NormalActor, WritableTiming;
    var m := v.members;
    FoundIsWholesome(c, m, FRAME[2]);
    FoundIsWholesome(c, m, FRAME[4]);
    TimingReads(c, Find(m, FRAME[3]).value);
    ActorsRead(c, Find(m, FRAME[4]).value);
  }

  /** A decoded frame encoded and decoded again is the same frame. */
  lemma ReencodedIsTheSame(c: Codec, v: Value)
    requires Sound(c) && Wholesome(c.isText, v) && ReadFrame(c, v).Some?
    ensures var f := ReadFrame(c, v).value; Shaped(c, f) && ReadFrame(c, FrameTree(c, f)) == Some(f)
  {
    hide Sound, ReadFrame, FrameTree, Normal, Writable, Wholesome, Shaped;
    ReadIsWritable(c, v);
    WrittenIsRead(c, ReadFrame(c, v).value);
  }

  // ---- What is written the parser lets through ----

  lemma {:induction false} Deeper(v: Value, depth: nat, more: nat)
    requires Within(v, depth) && depth <= more
    ensures Within(v, more)
    decreases v
  {
    match v
    case Arr(elements) =>
      forall i | 0 <= i < |elements|
        ensures Within(elements[i], more - 1)
      {
        Deeper(elements[i], depth - 1, more - 1);
      }
    case Obj(members) =>
      forall m | 0 <= m < |members|
        ensures Within(members[m].value, more - 1)
      {
        Deeper(members[m].value, depth - 1, more - 1);
      }
    case _ =>
  }

  predicate Fits(c: Codec, o: Option<Value>, depth: nat) {
    o.Some? ==> Parsed(c.isText, o.value, depth)
  }

  /** Numbers, words, counters and text fit anywhere; vectors and rotations need one level. */
  lemma LeavesFit(c: Codec, o: Option<Value>, depth: nat)
    requires o.Some? ==> o.value.Number? || (o.value.Str? && c.isText(o.value.text))
    ensures Fits(c, o, depth)
  {
  }

  lemma VectorFits(c: Codec, o: Option<Value>, depth: nat)
    requires depth >= 1
    requires o.Some? ==> (exists v: Vector :: o.value == VectorTree(c)(v)) || exists q: Rotation :: o.value == RotationTree(c)(q)
    ensures Fits(c, o, depth)
  {
    if o.Some? {
      if v: Vector :| o.value == VectorTree(c)(v) {
        assert o.value == Arr([FloatTree(c)(v.x), FloatTree(c)(v.y), FloatTree(c)(v.z)]);
      } else {
        var q: Rotation :| o.value == RotationTree(c)(q);
        assert o.value == Arr([FloatTree(c)(q.w), FloatTree(c)(q.x), FloatTree(c)(q.y), FloatTree(c)(q.z)]);
      }
      var elements := o.value.elements;
      assert forall i :: 0 <= i < |elements| ==> elements[i].Number?;
      ArrayIsParsed(c.isText, elements, depth - 1);
    }
  }

  /** An object whose values fit at a depth fits one deeper. */
  lemma ObjectFits(c: Codec, keys: seq<string>, values: seq<Option<Value>>, depth: nat, more: nat)
    requires |keys| == |values| && DistinctWords(keys) && AllText(c, keys) && depth < more
    requires forall i :: 0 <= i < |values| ==> Fits(c, values[i], depth)
    ensures Fits(c, Some(Obj(Build(keys, values))), more)
  {
    hide Within, Wholesome, DistinctWords;
    BuiltIsParsed(c.isText, keys, values, depth);
    Deeper(Obj(Build(keys, values)), depth + 1, more);
  }

  lemma ArrayFits(c: Codec, elements: seq<Value>, depth: nat)
    requires forall i :: 0 <= i < |elements| ==> Fits(c, Some(elements[i]), depth)
    ensures Fits(c, Some(Arr(elements)), depth + 1)
  {
    ArrayIsParsed(c.isText, elements, depth);
  }

  lemma VocabularyIsText(c: Codec)
    requires Sound(c)
    ensures AllText(c, FRAME) && AllText(c, TIMING) && AllText(c, ACTOR) && AllText(c, POSE) && AllText(c, ROOT)
    ensures AllText(c, CONTACTS) && AllText(c, METADATA) && AllText(c, TRACKER)
    ensures AllText(c, CLOCKS) && AllText(c, KINDS) && AllText(c, FEET) && AllText(c, c.joints)
    ensures JointsInOrder(c) && c.isText(FORMAT) && DistinctWords(c.joints)
    ensures forall n: nat :: c.isText(T.Decimal(n))
  {
    assert AllText(c, [FORMAT]) && [FORMAT][0] == FORMAT;
  }

  lemma TimingFits(c: Codec, t: Timing)
    requires Sound(c) && WritableTiming(c, t)
    ensures Fits(c, Some(TimingTree(c, t)), 5)
  {
    hide Sound, Fits, DistinctWords, Build;
    var values := [Maybe(t.sourced, DoubleTree(c)), Some(DoubleTree(c)(t.received)), Maybe(t.sequence, CountTree),
                   Some(WordTree(CLOCKS, t.clock))];
    VocabularyIsText(c);
    TablesAreDistinct();
    LeavesFit(c, values[0], 0);
    LeavesFit(c, values[1], 0);
    LeavesFit(c, values[2], 0);
    LeavesFit(c, values[3], 0);
    ObjectFits(c, TIMING, values, 0, 5);
  }

  lemma RootFits(c: Codec, r: Root)
    requires Sound(c)
    ensures Fits(c, Some(RootTree(c, r)), 2)
  {
    hide Sound, Fits, DistinctWords, Build, AllText, VectorTree, RotationTree;
    var values := [If(r.position, VectorTree(c)), If(r.orientation, RotationTree(c)), If(r.linear, VectorTree(c)),
                   If(r.angular, VectorTree(c))];
    VocabularyIsText(c);
    TablesAreDistinct();
    VectorFits(c, values[0], 1);
    VectorFits(c, values[1], 1);
    VectorFits(c, values[2], 1);
    VectorFits(c, values[3], 1);
    ObjectFits(c, ROOT, values, 1, 2);
  }

  lemma LimbsFit(c: Codec, l: Limbs)
    requires Sound(c) && Limbed(c, l)
    ensures Fits(c, Some(LimbsTree(c, l)), 2)
  {
    hide Sound, Fits, DistinctWords, Build, AllText, RotationTree;
    VocabularyIsText(c);
    var values := LimbValues(c, l);
    forall i | 0 <= i < |values|
      ensures Fits(c, values[i], 1)
    {
      VectorFits(c, values[i], 1);
    }
    ObjectFits(c, c.joints, values, 1, 2);
  }

  lemma NamesAreDistinct(c: Codec)
    requires JointsInOrder(c)
    ensures DistinctWords(Names(c))
  {
    hide Less;
    forall i, k | 0 <= i < k < |Names(c)|
      ensures Names(c)[i] != Names(c)[k]
    {
      LessIsStrict(Names(c)[i]);
    }
  }

  lemma ConfidenceFits(c: Codec, carried: seq<bool>, x: seq<Float>)
    requires Sound(c) && |carried| == |x| == |c.joints|
    ensures Fits(c, Some(ConfidenceTree(c, carried, x)), 2)
  {
    hide Sound, Fits, DistinctWords, Build, Less;
    SoundIsOrdered(c);
    VocabularyIsText(c);
    NamesAreDistinct(c);
    var values := ConfidenceValues(c, carried, x);
    forall i | 0 <= i < |values|
      ensures Fits(c, values[i], 0)
    {
      var j := c.byName[i];
      assert values[i] == if carried[j] then Some(FloatTree(c)(x[j])) else None;
      LeavesFit(c, values[i], 0);
    }
    ObjectFits(c, Names(c), values, 0, 2);
  }

  lemma ChannelsFit(c: Codec, channels: seq<Channel<Float>>)
    requires WritableChannels(c, channels)
    ensures Fits(c, Some(ChannelsTree(c, channels)), 2)
  {
    hide Fits, Build, Less, Sorted;
    SortedIsWritable(c, channels);
    var sorted := Sorted(channels);
    var values := ChannelValues(c, sorted);
    forall i | 0 <= i < |values|
      ensures Fits(c, values[i], 0)
    {
      assert values[i] == Some(FloatTree(c)(sorted[i].weight));
      LeavesFit(c, values[i], 0);
    }
    ObjectFits(c, ChannelNames(sorted), values, 0, 2);
  }

  lemma ContactsFit(c: Codec, f: Contacts)
    requires Sound(c) && WritableContacts(f)
    ensures Fits(c, Some(ContactsTree(f)), 2)
  {
    hide Sound, Fits, DistinctWords, Build;
    var values := [Some(WordTree(FEET, f.left)), Some(WordTree(FEET, f.right))];
    VocabularyIsText(c);
    TablesAreDistinct();
    LeavesFit(c, values[0], 0);
    LeavesFit(c, values[1], 0);
    ObjectFits(c, CONTACTS, values, 0, 2);
  }

  lemma MetadataFits(c: Codec, m: Metadata)
    requires Sound(c) && WritableMetadata(c, m)
    ensures Fits(c, Some(MetadataTree(c, m)), 2)
  {
    hide Sound, Fits, DistinctWords, Build;
    var values := [Some(WordTree(KINDS, m.kind)), Some(Str(m.provider)), Some(Str(m.protocol)), Some(Str(m.sourceId)),
                   Maybe(m.sourced, DoubleTree(c)), Maybe(m.sequence, CountTree)];
    VocabularyIsText(c);
    LongTablesAreDistinct();
    LeavesFit(c, values[0], 0);
    LeavesFit(c, values[1], 0);
    LeavesFit(c, values[2], 0);
    LeavesFit(c, values[3], 0);
    LeavesFit(c, values[4], 0);
    LeavesFit(c, values[5], 0);
    ObjectFits(c, METADATA, values, 0, 2);
  }

  lemma PoseFits(c: Codec, p: Pose)
    requires Sound(c) && ShapedPose(c, p) && WritablePose(c, p)
    ensures Fits(c, Some(PoseTree(c, p)), 3)
  {
    hide Sound, Fits, DistinctWords, Build, AllText, RootTree, LimbsTree, ConfidenceTree, ContactsTree, VectorTree;
    hide ChannelsTree, MetadataTree, JointsInOrder, WritableRoot, WritableLimbs, WritableContacts, WritableConfidence;
    hide WritableChannels, WritableMetadata;
    VocabularyIsText(c);
    var values := PoseValues(c, p);
    LongTablesAreDistinct();
    LeavesFit(c, values[0], 2);
    RootFits(c, p.root);
    LimbsFit(c, p.limbs);
    if p.confidence.Some? {
      ConfidenceFits(c, p.limbs.carried, p.confidence.value);
    } else {
      LeavesFit(c, values[3], 2);
    }
    if p.contacts.Some? {
      ContactsFit(c, p.contacts.value);
    } else {
      LeavesFit(c, values[4], 2);
    }
    VectorFits(c, values[5], 2);
    ChannelsFit(c, p.channels);
    MetadataFits(c, p.metadata);
    ObjectFits(c, POSE, values, 2, 3);
  }

  lemma TrackerFits(c: Codec, t: Tracker)
    requires Sound(c) && WritableTracker(c, t)
    ensures Fits(c, Some(TrackerTree(c, t)), 2)
  {
    hide Sound, Fits, DistinctWords, Build, AllText, VectorTree, RotationTree;
    var values := [Some(Str(t.trackerId)), If(t.position, VectorTree(c)), If(t.rotation, RotationTree(c)),
                   Maybe(t.confidence, FloatTree(c))];
    VocabularyIsText(c);
    TablesAreDistinct();
    LeavesFit(c, values[0], 1);
    VectorFits(c, values[1], 1);
    VectorFits(c, values[2], 1);
    LeavesFit(c, values[3], 1);
    ObjectFits(c, TRACKER, values, 1, 2);
  }

  lemma ActorFits(c: Codec, a: Actor)
    requires Sound(c) && ShapedActor(c, a) && WritableActor(c, a)
    ensures Fits(c, Some(ActorTree(c, a)), 4)
  {
    hide Sound, Fits, DistinctWords, Build, AllText, PoseTree, TrackerTree, JointsInOrder, WritablePose, WritableTracker;
    VocabularyIsText(c);
    var trackers := TrackerTrees(c, a.trackers);
    var values := [Some(Str(a.name)), if a.pose.None? then None else Some(PoseTree(c, a.pose.value)), Some(Arr(trackers))];
    TablesAreDistinct();
    LeavesFit(c, values[0], 3);
    if a.pose.Some? {
      PoseFits(c, a.pose.value);
    } else {
      LeavesFit(c, values[1], 3);
    }
    forall i | 0 <= i < |trackers|
      ensures Fits(c, Some(trackers[i]), 2)
    {
      TrackerFits(c, a.trackers[i]);
    }
    ArrayFits(c, trackers, 2);
    ObjectFits(c, ACTOR, values, 3, 4);
  }

  /** A written message has text for strings, no key twice, and nests no deeper than the parser's bound of six. */
  lemma WrittenIsParsed(c: Codec, f: Frame)
    requires Sound(c) && Shaped(c, f) && Writable(c, f)
    ensures Wholesome(c.isText, FrameTree(c, f)) && Within(FrameTree(c, f), 6)
  {
    hide Sound, DistinctWords, Build, AllText, JointsInOrder, ActorTree, TimingTree, WritableActor, WritableTiming;
    hide Wholesome, Within;
    VocabularyIsText(c);
    var actors := ActorTrees(c, f.actors);
    var values := [Some(Str(FORMAT)), Some(CountTree(f.number)), Some(Str(f.profile)), Some(TimingTree(c, f.timing)),
                   Some(Arr(actors))];
    TablesAreDistinct();
    LeavesFit(c, values[0], 5);
    LeavesFit(c, values[1], 5);
    LeavesFit(c, values[2], 5);
    TimingFits(c, f.timing);
    forall i | 0 <= i < |actors|
      ensures Fits(c, Some(actors[i]), 4)
    {
      ActorFits(c, f.actors[i]);
    }
    ArrayFits(c, actors, 4);
    ObjectFits(c, FRAME, values, 5, 6);
    assert Fits(c, Some(FrameTree(c, f)), 6);
  }

  // ---- What the wire can tell apart ----

  lemma PoseWritesAlike(c: Codec, p: Pose)
    requires ShapedPose(c, p) && JointsInOrder(c)
    ensures PoseTree(c, NormalPose(c, p)) == PoseTree(c, p)
  {
    hide Build, Less, Sorted, JointsInOrder;
    var n := NormalPose(c, p);
    SortedIsInOrder(p.channels);
    SortedStays(Sorted(p.channels));
    assert LimbValues(c, n.limbs) == LimbValues(c, p.limbs);
    if p.confidence.Some? {
      ConfidenceWritesAlike(c, p.limbs.carried, p.confidence.value);
    }
    assert PoseValues(c, n) == PoseValues(c, p);
  }

  lemma ConfidenceWritesAlike(c: Codec, carried: seq<bool>, x: seq<Float>)
    requires |carried| == |x| == |c.joints| && JointsInOrder(c)
    ensures ConfidenceTree(c, carried, NormalConfidence(carried, x)) == ConfidenceTree(c, carried, x)
  {
    hide Build, Less;
    assert ConfidenceValues(c, carried, NormalConfidence(carried, x)) == ConfidenceValues(c, carried, x);
  }

  lemma ActorWritesAlike(c: Codec, a: Actor)
    requires ShapedActor(c, a) && JointsInOrder(c)
    ensures ActorTree(c, NormalActor(c, a)) == ActorTree(c, a)
  {
    hide Build, PoseTree, JointsInOrder, NormalPose;
    if a.pose.Some? {
      PoseWritesAlike(c, a.pose.value);
    }
    assert TrackerTrees(c, NormalTrackers(c, a.trackers)) == TrackerTrees(c, a.trackers);
  }

  lemma NormalWritesAlike(c: Codec, f: Frame)
    requires Shaped(c, f) && JointsInOrder(c)
    ensures FrameTree(c, Normal(c, f)) == FrameTree(c, f)
  {
    hide Build, ActorTree, NormalActor, JointsInOrder;
    var n := Normal(c, f);
    forall i | 0 <= i < |f.actors|
      ensures ActorTree(c, n.actors[i]) == ActorTree(c, f.actors[i])
    {
      ActorWritesAlike(c, f.actors[i]);
    }
    assert ActorTrees(c, n.actors) == ActorTrees(c, f.actors);
  }

  /** Two frames are written as the same message exactly when their normal forms are the same frame. */
  lemma WrittenAlikeIffNormalAlike(c: Codec, f: Frame, g: Frame)
    requires Sound(c) && Shaped(c, f) && Writable(c, f) && Shaped(c, g) && Writable(c, g)
    ensures FrameTree(c, f) == FrameTree(c, g) <==> Normal(c, f) == Normal(c, g)
  {
    hide Sound, JointsInOrder, FrameTree, Normal, Writable, Shaped, ReadFrame;
    VocabularyIsText(c);
    WrittenIsRead(c, f);
    WrittenIsRead(c, g);
    NormalWritesAlike(c, f);
    NormalWritesAlike(c, g);
  }
}
