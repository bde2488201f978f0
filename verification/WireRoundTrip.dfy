/**
 The wire reader and writer against each other, part by part and for whole frames: everything written is
 read back in its normal form, everything read can be written, and what is written is a tree the parser
 allows. Normal forms are exactly what the wire can tell apart.
 */
module WireRoundTrip {
  import opened Bytes
  import opened WireTree
  import opened FrameWire
  import T = Text

  // ---- What is written is read back ----

  lemma SoundIsOrdered(c: Codec)
    requires Sound(c)
    ensures JointsInOrder(c)
  {
  }

  lemma TablesAreDistinct()
    ensures DistinctWords(FRAME) && DistinctWords(TIMING) && DistinctWords(ACTOR) && DistinctWords(ROOT)
    ensures DistinctWords(CONTACTS) && DistinctWords(TRACKER)
    ensures DistinctWords(CLOCKS) && DistinctWords(KINDS) && DistinctWords(FEET)
  {
  }

  lemma LongTablesAreDistinct()
    ensures DistinctWords(POSE) && DistinctWords(METADATA)
  {
  }

  lemma FloatIsRead(c: Codec, x: Float)
    requires Sound(c) && c.finite(x)
    ensures ReadFloat(c)(FloatTree(c)(x)) == Some(x)
  {
    hide DistinctWords, JointsInOrder, AllText;
  }

  lemma VectorIsRead(c: Codec, v: Vector)
    requires Sound(c) && FiniteVector(c, v)
    ensures ReadVector(c)(VectorTree(c)(v)) == Some(v)
  {
    hide Sound, ReadFloat, FloatTree;
    var tree := VectorTree(c)(v);
    FloatIsRead(c, v.x);
    FloatIsRead(c, v.y);
    FloatIsRead(c, v.z);
    assert tree.elements[0] == FloatTree(c)(v.x) && tree.elements[1] == FloatTree(c)(v.y) && tree.elements[2] == FloatTree(c)(v.z);
  }

  lemma RotationIsRead(c: Codec, q: Rotation)
    requires Sound(c) && Turns(c, q)
    ensures ReadRotation(c)(RotationTree(c)(q)) == Some(q)
  {
    hide Sound, ReadFloat, FloatTree;
    var tree := RotationTree(c)(q);
    FloatIsRead(c, q.w);
    FloatIsRead(c, q.x);
    FloatIsRead(c, q.y);
    FloatIsRead(c, q.z);
    assert tree.elements[0] == FloatTree(c)(q.w) && tree.elements[1] == FloatTree(c)(q.x);
    assert tree.elements[2] == FloatTree(c)(q.y) && tree.elements[3] == FloatTree(c)(q.z);
  }

  lemma CountIsRead(n: Count)
    ensures ReadCount(CountTree(n)) == Some(n)
  {
    CounterIsExact(T.Decimal(n), n);
  }

  lemma WordIsRead(words: seq<string>, i: nat)
    requires i < |words| && DistinctWords(words)
    ensures ReadWord(words, WordTree(words, i)) == Some(i)
  {
    WordIsFound(words, i);
  }

  lemma TimingIsRead(c: Codec, t: Timing)
    requires Sound(c) && WritableTiming(c, t)
    ensures ReadTiming(c, TimingTree(c, t)) == Some(t)
  {
    hide DistinctWords, JointsInOrder, AllText, KeysFit, Build, Find, ReadCount, CountTree, ReadWord, WordTree;
    var values := [Maybe(t.sourced, DoubleTree(c)), Some(DoubleTree(c)(t.received)), Maybe(t.sequence, CountTree),
                   Some(WordTree(CLOCKS, t.clock))];
    TablesAreDistinct();
    BuiltFits(TIMING, values, TIMING_NEEDS);
    WordIsRead(CLOCKS, t.clock);
    if t.sequence.Some? {
      CountIsRead(t.sequence.value);
    }
  }

  lemma RootIsRead(c: Codec, r: Root)
    requires Sound(c) && WritableRoot(c, r)
    ensures ReadRoot(c, RootTree(c, r)) == Some(NormalRoot(c, r))
  {
    hide DistinctWords, JointsInOrder, AllText, KeysFit, Build, Find, ReadVector, VectorTree, ReadRotation, RotationTree;
    var values := [If(r.position, VectorTree(c)), If(r.orientation, RotationTree(c)), If(r.linear, VectorTree(c)),
                   If(r.angular, VectorTree(c))];
    TablesAreDistinct();
    BuiltFits(ROOT, values, ROOT_NEEDS);
    if r.position.has {
      VectorIsRead(c, r.position.value);
    }
    if r.orientation.has {
      RotationIsRead(c, r.orientation.value);
    }
    if r.linear.has {
      VectorIsRead(c, r.linear.value);
    }
    if r.angular.has {
      VectorIsRead(c, r.angular.value);
    }
  }

  lemma ContactsAreRead(f: Contacts)
    requires WritableContacts(f)
    ensures ReadContacts(ContactsTree(f)) == Some(f)
  {
    hide DistinctWords, KeysFit, Build, Find, ReadWord, WordTree;
    TablesAreDistinct();
    BuiltFits(CONTACTS, [Some(WordTree(FEET, f.left)), Some(WordTree(FEET, f.right))], CONTACTS_NEEDS);
    WordIsRead(FEET, f.left);
    WordIsRead(FEET, f.right);
  }

  lemma MetadataIsRead(c: Codec, m: Metadata)
    requires Sound(c) && WritableMetadata(c, m)
    ensures ReadMetadata(c, MetadataTree(c, m)) == Some(m)
  {
    hide DistinctWords, JointsInOrder, AllText, KeysFit, Build, Find, ReadCount, CountTree, ReadWord, WordTree;
    var values := [Some(WordTree(KINDS, m.kind)), Some(Str(m.provider)), Some(Str(m.protocol)), Some(Str(m.sourceId)),
                   Maybe(m.sourced, DoubleTree(c)), Maybe(m.sequence, CountTree)];
    TablesAreDistinct();
    LongTablesAreDistinct();
    BuiltFits(METADATA, values, METADATA_NEEDS);
    WordIsRead(KINDS, m.kind);
    if m.sequence.Some? {
      CountIsRead(m.sequence.value);
    }
  }

  lemma TrackerIsRead(c: Codec, t: Tracker)
    requires Sound(c) && WritableTracker(c, t)
    ensures ReadTracker(c)(TrackerTree(c, t)) == Some(NormalTracker(c, t))
  {
    hide DistinctWords, JointsInOrder, AllText, KeysFit, Build, Find, ReadVector, VectorTree, ReadRotation, RotationTree;
    var values := [Some(Str(t.trackerId)), If(t.position, VectorTree(c)), If(t.rotation, RotationTree(c)),
                   Maybe(t.confidence, FloatTree(c))];
    TablesAreDistinct();
    BuiltFits(TRACKER, values, TRACKER_NEEDS);
    if t.position.has {
      VectorIsRead(c, t.position.value);
    }
    if t.rotation.has {
      RotationIsRead(c, t.rotation.value);
    }
  }

  /** The rotations of the first `k` joints, the others as they were. */
  function SomeLimbs(c: Codec, l: Limbs, k: nat): (p: Limbs)
    requires Limbed(c, l)
    ensures Limbed(c, p)
  {
    Limbs(seq(|c.joints|, j requires 0 <= j < |c.joints| => if j < k && l.carried[j] then l.rotations[j] else c.rest),
          seq(|c.joints|, j requires 0 <= j < |c.joints| => j < k && l.carried[j]))
  }

  lemma {:induction false} LimbsAreRead(c: Codec, l: Limbs, k: nat)
    requires Sound(c) && Limbed(c, l) && WritableLimbs(c, l) && k <= |c.joints|
    ensures ReadLimbs(c, Build(c.joints[k..], LimbValues(c, l)[k..]), SomeLimbs(c, l, k)) == Some(NormalLimbs(c, l))
    decreases |c.joints| - k
  {
    hide DistinctWords, JointsInOrder, AllText, FindWord, ReadRotation, RotationTree, Turns;
    var keys, values, before, next := c.joints[k..], LimbValues(c, l)[k..], SomeLimbs(c, l, k), SomeLimbs(c, l, k + 1);
    if k < |c.joints| {
      assert keys[1..] == c.joints[k + 1..] && values[1..] == LimbValues(c, l)[k + 1..];
      LimbsAreRead(c, l, k + 1);
      var rest := Build(keys[1..], values[1..]);
      if l.carried[k] {
        WordIsFound(c.joints, k);
        RotationIsRead(c, l.rotations[k]);
        assert Build(keys, values)[1..] == rest;
        assert next == Limbs(before.rotations[k := l.rotations[k]], before.carried[k := true]);
      } else {
        assert next == before;
      }
    } else {
      assert before == NormalLimbs(c, l);
    }
  }

  /** The confidences of the joints whose names come among the first `k`. */
  ghost function SomeConfidence(c: Codec, carried: seq<bool>, x: seq<Float>, k: nat): (a: Confidences)
    requires |carried| == |x| == |c.joints| && JointsInOrder(c) && k <= |c.byName|
    ensures |a.values| == |a.present| == |c.joints|
  {
    Confidences(seq(|c.joints|, j requires 0 <= j < |c.joints| => if carried[j] && j in c.byName[..k] then x[j] else 0),
                seq(|c.joints|, j requires 0 <= j < |c.joints| => carried[j] && j in c.byName[..k]))
  }

  lemma SomeConfidenceGrows(c: Codec, carried: seq<bool>, x: seq<Float>, k: nat)
    requires |carried| == |x| == |c.joints| && JointsInOrder(c) && k < |c.byName|
    ensures var before, j := SomeConfidence(c, carried, x, k), c.byName[k]; (
              SomeConfidence(c, carried, x, k + 1) ==
              if carried[j] then Confidences(before.values[j := x[j]], before.present[j := true]) else before)
  {
    hide Less;
    assert c.byName[..k + 1] == c.byName[..k] + [c.byName[k]];
    var before, after, j := SomeConfidence(c, carried, x, k), SomeConfidence(c, carried, x, k + 1), c.byName[k];
    if carried[j] {
      assert after.values == before.values[j := x[j]];
      assert after.present == before.present[j := true];
    } else {
      assert after.values == before.values;
      assert after.present == before.present;
    }
  }

  lemma {:induction false} ConfidenceIsGathered(c: Codec, carried: seq<bool>, x: seq<Float>, k: nat)
    requires Sound(c) && |carried| == |x| == |c.joints| && WritableConfidence(c, carried, x) && k <= |c.byName|
    ensures GatherConfidence(c, Build(Names(c)[k..], ConfidenceValues(c, carried, x)[k..]), carried, SomeConfidence(c, carried, x, k))
         == Some(SomeConfidence(c, carried, x, |c.byName|))
    decreases |c.byName| - k
  {
    hide DistinctWords, AllText, FindWord, Less, SomeConfidence;
    var keys, values := Names(c)[k..], ConfidenceValues(c, carried, x)[k..];
    if k < |c.byName| {
      assert keys[1..] == Names(c)[k + 1..] && values[1..] == ConfidenceValues(c, carried, x)[k + 1..];
      ConfidenceIsGathered(c, carried, x, k + 1);
      SomeConfidenceGrows(c, carried, x, k);
      var j := c.byName[k];
      if carried[j] {
        WordIsFound(c.joints, j);
        FloatIsRead(c, x[j]);
        assert Build(keys, values)[1..] == Build(keys[1..], values[1..]);
      }
    }
  }

  lemma ConfidenceIsRead(c: Codec, carried: seq<bool>, x: seq<Float>)
    requires Sound(c) && |carried| == |x| == |c.joints| && WritableConfidence(c, carried, x)
    ensures ReadConfidence(c, ConfidenceTree(c, carried, x), carried) == Some(NormalConfidence(carried, x))
  {
    hide DistinctWords, AllText, FindWord, Less, GatherConfidence, Build;
    ConfidenceIsGathered(c, carried, x, 0);
    assert Names(c)[0..] == Names(c) && ConfidenceValues(c, carried, x)[0..] == ConfidenceValues(c, carried, x);
    assert c.byName[..|c.byName|] == c.byName;
    var none, all := SomeConfidence(c, carried, x, 0), SomeConfidence(c, carried, x, |c.byName|);
    assert none.values == NoConfidence(c).values;
    assert none.present == NoConfidence(c).present;
    assert forall j: nat :: j < |carried| && carried[j] ==> all.present[j];
    assert all.values == NormalConfidence(carried, x);
  }

  lemma {:induction false} ChannelsAreRead(c: Codec, channels: seq<Channel<Float>>, k: nat)
    requires Sound(c) && InNameOrder(channels) && WritableChannels(c, channels) && k <= |channels|
    ensures ReadChannels(c, Build(ChannelNames(channels)[k..], ChannelValues(c, channels)[k..]), channels[..k]) == Some(channels)
    decreases |channels| - k
  {
    hide DistinctWords, JointsInOrder, AllText, Less, Put;
    var keys, values := ChannelNames(channels)[k..], ChannelValues(c, channels)[k..];
    if k < |channels| {
      assert keys[1..] == ChannelNames(channels)[k + 1..] && values[1..] == ChannelValues(c, channels)[k + 1..];
      ChannelsAreRead(c, channels, k + 1);
      assert Build(keys, values)[1..] == Build(keys[1..], values[1..]);
      PutsLast(channels[..k], channels[k]);
      FloatIsRead(c, channels[k].weight);
      assert channels[..k + 1] == channels[..k] + [channels[k]];
    } else {
      assert channels[..k] == channels;
    }
  }

  lemma SortedIsWritable(c: Codec, channels: seq<Channel<Float>>)
    requires WritableChannels(c, channels)
    ensures WritableChannels(c, Sorted(channels)) && InNameOrder(Sorted(channels))
  {
    hide Less, Put;
    SortedIsInOrder(channels);
    OrderedIsDistinct(Sorted(channels));
    var sorted := Sorted(channels);
    forall i | 0 <= i < |sorted|
      ensures c.isText(sorted[i].name) && c.finite(sorted[i].weight)
    {
      assert sorted[i] in channels;
    }
  }

  /** Channels in any order are read back in name order. */
  lemma SortedChannelsAreRead(c: Codec, channels: seq<Channel<Float>>)
    requires Sound(c) && WritableChannels(c, channels)
    ensures ChannelsTree(c, channels).Obj?
    ensures ReadChannels(c, ChannelsTree(c, channels).members, []) == Some(Sorted(channels))
  {
    hide DistinctWords, JointsInOrder, AllText, Less, Put, ReadChannels, Build, Sorted;
    var sorted := Sorted(channels);
    SortedIsWritable(c, channels);
    ChannelsAreRead(c, sorted, 0);
    assert ChannelNames(sorted)[0..] == ChannelNames(sorted) && ChannelValues(c, sorted)[0..] == ChannelValues(c, sorted);
    assert sorted[..0] == [];
  }

  lemma LimbsTreeIsRead(c: Codec, l: Limbs)
    requires Sound(c) && Limbed(c, l) && WritableLimbs(c, l)
    ensures ReadLimbs(c, LimbsTree(c, l).members, Still(c)) == Some(NormalLimbs(c, l))
  {
    hide Sound, ReadLimbs, Build, WritableLimbs;
    LimbsAreRead(c, l, 0);
    assert c.joints[0..] == c.joints && LimbValues(c, l)[0..] == LimbValues(c, l);
    assert SomeLimbs(c, l, 0) == Still(c);
  }

  lemma PoseValuesAreRead(c: Codec, p: Pose)
    requires Sound(c) && ShapedPose(c, p) && WritablePose(c, p)
    ensures PoseFrom(c, PoseValues(c, p)) == Some(NormalPose(c, p))
  {
    hide DistinctWords, JointsInOrder, AllText, Build, ReadVector, VectorTree, ReadRoot, RootTree, ReadLimbs;
    hide ReadMetadata, MetadataTree, ReadContacts, ContactsTree, ReadConfidence, ConfidenceTree, ReadChannels;
    hide WritableRoot, WritableLimbs, WritableConfidence, WritableContacts, WritableChannels, WritableMetadata;
    hide NormalLimbs, NormalRoot, NormalConfidence, Sorted;
    RootIsRead(c, p.root);
    LimbsTreeIsRead(c, p.limbs);
    SortedChannelsAreRead(c, p.channels);
    MetadataIsRead(c, p.metadata);
    if p.confidence.Some? {
      ConfidenceIsRead(c, p.limbs.carried, p.confidence.value);
    }
    if p.contacts.Some? {
      ContactsAreRead(p.contacts.value);
    }
    if p.lookAt.Some? {
      VectorIsRead(c, p.lookAt.value);
    }
  }

  lemma PoseIsRead(c: Codec, p: Pose)
    requires Sound(c) && ShapedPose(c, p) && WritablePose(c, p)
    ensures ReadPose(c, PoseTree(c, p)) == Some(NormalPose(c, p))
  {
    hide Sound, WritablePose, DistinctWords, JointsInOrder, KeysFit, Build, Find, PoseFrom, NormalPose;
    SoundIsOrdered(c);
    LongTablesAreDistinct();
    BuiltFits(POSE, PoseValues(c, p), POSE_NEEDS);
    assert Fields(PoseTree(c, p).members, POSE) == PoseValues(c, p);
    PoseValuesAreRead(c, p);
  }

  lemma ActorIsRead(c: Codec, a: Actor)
    requires Sound(c) && ShapedActor(c, a) && WritableActor(c, a)
    ensures ReadActor(c)(ActorTree(c, a)) == Some(NormalActor(c, a))
  {
    hide Sound, WritablePose, DistinctWords, JointsInOrder, KeysFit, Build, Find, ReadPose, PoseTree, NormalPose;
    hide ReadTrackers, TrackerTrees, NormalTrackers;
    SoundIsOrdered(c);
    var values := [Some(Str(a.name)), if a.pose.None? then None else Some(PoseTree(c, a.pose.value)),
                   Some(Arr(TrackerTrees(c, a.trackers)))];
    TablesAreDistinct();
    BuiltFits(ACTOR, values, ACTOR_NEEDS);
    if a.pose.Some? {
      PoseIsRead(c, a.pose.value);
    }
    TrackersAreRead(c, a.trackers);
  }

  lemma TrackersAreRead(c: Codec, trackers: seq<Tracker>)
    requires Sound(c) && DistinctIds(trackers, TrackerId())
    requires forall i :: 0 <= i < |trackers| ==> WritableTracker(c, trackers[i])
    ensures ReadTrackers(c, Arr(TrackerTrees(c, trackers)))
         == Some(NormalTrackers(c, trackers))
  {
    hide Sound, WritableTracker, ReadTracker, TrackerTree;
    var items := NormalTrackers(c, trackers);
    forall i | 0 <= i < |trackers|
      ensures ReadTracker(c)(TrackerTrees(c, trackers)[i]) == Some(items[i])
    {
      TrackerIsRead(c, trackers[i]);
    }
    DistinctAreListed(TrackerTrees(c, trackers), items, ReadTracker(c), TrackerId(), {});
  }

  lemma ActorsAreRead(c: Codec, f: Frame)
    requires Sound(c) && Shaped(c, f) && Writable(c, f)
    ensures ReadActors(c, Arr(ActorTrees(c, f.actors))) == Some(Normal(c, f).actors)
  {
    hide Sound, WritableActor, ReadActor, ActorTree;
    SoundIsOrdered(c);
    var items := Normal(c, f).actors;
    forall i | 0 <= i < |items|
      ensures ReadActor(c)(ActorTrees(c, f.actors)[i]) == Some(items[i])
    {
      ActorIsRead(c, f.actors[i]);
    }
    DistinctAreListed(ActorTrees(c, f.actors), items, ReadActor(c), ActorName(), {});
  }

  /** The reader accepts everything the writer writes, and returns the frame's normal form. */
  lemma WrittenIsRead(c: Codec, f: Frame)
    requires Sound(c) && Shaped(c, f) && Writable(c, f)
    ensures ReadFrame(c, FrameTree(c, f)) == Some(Normal(c, f))
  {
    hide Sound, DistinctWords, JointsInOrder, KeysFit, Build, Find, ReadActors, ActorTrees, ReadTiming, TimingTree;
    hide ReadCount, CountTree, NormalActor;
    SoundIsOrdered(c);
    var values := [Some(Str(FORMAT)), Some(CountTree(f.number)), Some(Str(f.profile)), Some(TimingTree(c, f.timing)),
                   Some(Arr(ActorTrees(c, f.actors)))];
    TablesAreDistinct();
    BuiltFits(FRAME, values, FRAME_NEEDS);
    CountIsRead(f.number);
    TimingIsRead(c, f.timing);
    ActorsAreRead(c, f);
  }
}
