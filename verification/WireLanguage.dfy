/**
 The wire format told by its keys and words: which value trees are a motion frame, and which frame. What
 FrameWire.cpp reads is exactly this.
 */
module WireLanguage {
  import opened Bytes
  import opened WireTree
  import opened FrameWire
  import T = Text

  // ---- Keys ----

  /** The value is an object that has this under the key. */
  predicate At(v: Value, key: string, x: Value) {
    v.Obj? && exists m :: 0 <= m < |v.members| && v.members[m] == Member(key, x)
  }

  predicate Without(v: Value, key: string) {
    v.Obj? && forall m :: 0 <= m < |v.members| ==> v.members[m].key != key
  }

  predicate OnlyKeys(v: Value, keys: seq<string>): (only: bool)
    ensures only ==> v.Obj?
  {
    v.Obj? && forall m :: 0 <= m < |v.members| ==> v.members[m].key in keys
  }

  // ---- Parts ----

  predicate SaysFloat(c: Codec, v: Value, x: Float) {
    v.Number? && c.readFloat(v.text) == Some(x)
  }

  predicate SaysDouble(c: Codec, v: Value, x: Double) {
    v.Number? && c.readDouble(v.text) == Some(x)
  }

  predicate SaysVector(c: Codec, v: Value, x: Vector) {
    && v.Arr? && |v.elements| == 3
    && SaysFloat(c, v.elements[0], x.x) && SaysFloat(c, v.elements[1], x.y) && SaysFloat(c, v.elements[2], x.z)
  }

  /** The scalar first, and of unit length. */
  predicate SaysRotation(c: Codec, v: Value, q: Rotation) {
    && v.Arr? && |v.elements| == 4 && c.isUnit(q)
    && SaysFloat(c, v.elements[0], q.w) && SaysFloat(c, v.elements[1], q.x)
    && SaysFloat(c, v.elements[2], q.y) && SaysFloat(c, v.elements[3], q.z)
  }

  ghost predicate DoubleAt(c: Codec, v: Value, key: string, x: Double) {
    exists t :: At(v, key, t) && SaysDouble(c, t, x)
  }

  ghost predicate MayDoubleAt(c: Codec, v: Value, key: string, x: Option<Double>) {
    match x
    case None => Without(v, key)
    case Some(d) => DoubleAt(c, v, key, d)
  }

  predicate MayCountAt(v: Value, key: string, n: Option<Count>) {
    match n
    case None => Without(v, key)
    case Some(n) => At(v, key, Str(T.Decimal(n)))
  }

  predicate WordAt(v: Value, key: string, words: seq<string>, i: nat) {
    i < |words| && At(v, key, Str(words[i]))
  }

  ghost predicate VectorAt(c: Codec, v: Value, key: string, x: Vector) {
    exists t :: At(v, key, t) && SaysVector(c, t, x)
  }

  ghost predicate RotationAt(c: Codec, v: Value, key: string, q: Rotation) {
    exists t :: At(v, key, t) && SaysRotation(c, t, q)
  }

  ghost predicate HeldVectorAt(c: Codec, v: Value, key: string, h: Held<Vector>) {
    if h.has then VectorAt(c, v, key, h.value) else h.value == c.origin && Without(v, key)
  }

  ghost predicate HeldRotationAt(c: Codec, v: Value, key: string, h: Held<Rotation>) {
    if h.has then RotationAt(c, v, key, h.value) else h.value == c.rest && Without(v, key)
  }

  ghost predicate SaysTiming(c: Codec, v: Value, t: Timing) {
    && OnlyKeys(v, ["sourceTimestamp", "receiveTimestamp", "sequence", "sourceClock"])
    && MayDoubleAt(c, v, "sourceTimestamp", t.sourced) && DoubleAt(c, v, "receiveTimestamp", t.received)
    && MayCountAt(v, "sequence", t.sequence)
    && WordAt(v, "sourceClock", ["device", "localMonotonic", "wall", "networkSynchronized", "none"], t.clock)
  }

  ghost predicate SaysRoot(c: Codec, v: Value, r: Root) {
    && OnlyKeys(v, ["worldPosition", "worldOrientation", "linearVelocity", "angularVelocity"])
    && HeldVectorAt(c, v, "worldPosition", r.position) && HeldRotationAt(c, v, "worldOrientation", r.orientation)
    && HeldVectorAt(c, v, "linearVelocity", r.linear) && HeldVectorAt(c, v, "angularVelocity", r.angular)
  }

  ghost predicate SaysContacts(v: Value, f: Contacts) {
    && OnlyKeys(v, ["leftFoot", "rightFoot"])
    && WordAt(v, "leftFoot", ["unknown", "free", "contact"], f.left)
    && WordAt(v, "rightFoot", ["unknown", "free", "contact"], f.right)
  }

  ghost predicate SaysMetadata(c: Codec, v: Value, m: Metadata) {
    && OnlyKeys(v, ["kind", "provider", "protocol", "sourceId", "sourceTimestamp", "sequenceNumber"])
    && WordAt(v, "kind", ["clip", "liveCapture", "generated", "procedural", "simulated"], m.kind)
    && At(v, "provider", Str(m.provider)) && At(v, "protocol", Str(m.protocol)) && At(v, "sourceId", Str(m.sourceId))
    && MayDoubleAt(c, v, "sourceTimestamp", m.sourced) && MayCountAt(v, "sequenceNumber", m.sequence)
  }

  ghost predicate SaysTracker(c: Codec, v: Value, t: Tracker) {
    && OnlyKeys(v, ["trackerId", "position", "rotation", "confidence"])
    && At(v, "trackerId", Str(t.trackerId))
    && HeldVectorAt(c, v, "position", t.position) && HeldRotationAt(c, v, "rotation", t.rotation)
    && match t.confidence
       case None => Without(v, "confidence")
       case Some(x) => FloatAt(c, v, "confidence", x)
  }

  /** A rotation under the name of each joint carried, and nothing else. */
  ghost predicate SaysLimbs(c: Codec, v: Value, l: Limbs) {
    && Limbed(c, l) && OnlyKeys(v, c.joints)
    && forall j :: 0 <= j < |c.joints| ==>
         if l.carried[j] then RotationAt(c, v, c.joints[j], l.rotations[j])
         else l.rotations[j] == c.rest && Without(v, c.joints[j])
  }

  /** A confidence for each joint carried, and for no other. */
  ghost predicate SaysConfidence(c: Codec, v: Value, carried: seq<bool>, x: seq<Float>) {
    && |carried| == |x| == |c.joints| && OnlyKeys(v, c.joints)
    && forall j :: 0 <= j < |c.joints| ==>
         if carried[j] then FloatAt(c, v, c.joints[j], x[j])
         else x[j] == 0 && Without(v, c.joints[j])
  }

  ghost predicate FloatAt(c: Codec, v: Value, key: string, x: Float) {
    exists w :: At(v, key, w) && SaysFloat(c, w, x)
  }

  predicate HasChannel(channels: seq<Channel<Float>>, name: string) {
    exists i :: 0 <= i < |channels| && channels[i].name == name
  }

  /** A weight under the name of each channel; the channels stand in name order. */
  ghost predicate SaysChannels(c: Codec, v: Value, channels: seq<Channel<Float>>) {
    && v.Obj? && InNameOrder(channels)
    && (forall i :: 0 <= i < |channels| ==> FloatAt(c, v, channels[i].name, channels[i].weight))
    && forall m :: 0 <= m < |v.members| ==> HasChannel(channels, v.members[m].key)
  }

  ghost predicate RootAt(c: Codec, v: Value, r: Root) {
    exists w :: At(v, "root", w) && SaysRoot(c, w, r)
  }

  ghost predicate LimbsAt(c: Codec, v: Value, l: Limbs) {
    exists w :: At(v, "joints", w) && SaysLimbs(c, w, l)
  }

  ghost predicate ConfidenceAt(c: Codec, v: Value, carried: seq<bool>, x: Option<seq<Float>>) {
    match x
    case None => Without(v, "confidence")
    case Some(y) => exists w :: At(v, "confidence", w) && SaysConfidence(c, w, carried, y)
  }

  ghost predicate ContactsAt(v: Value, f: Option<Contacts>) {
    match f
    case None => Without(v, "contacts")
    case Some(y) => exists w :: At(v, "contacts", w) && SaysContacts(w, y)
  }

  ghost predicate LooksAt(c: Codec, v: Value, x: Option<Vector>) {
    match x
    case None => Without(v, "lookAtTarget")
    case Some(y) => VectorAt(c, v, "lookAtTarget", y)
  }

  ghost predicate ChannelsAt(c: Codec, v: Value, channels: seq<Channel<Float>>) {
    exists w :: At(v, "channels", w) && SaysChannels(c, w, channels)
  }

  ghost predicate MetadataAt(c: Codec, v: Value, m: Metadata) {
    exists w :: At(v, "metadata", w) && SaysMetadata(c, w, m)
  }

  ghost predicate SaysPose(c: Codec, v: Value, p: Pose) {
    && OnlyKeys(v, ["timestamp", "root", "joints", "confidence", "contacts", "lookAtTarget", "channels", "metadata"])
    && DoubleAt(c, v, "timestamp", p.timestamp)
    && RootAt(c, v, p.root) && LimbsAt(c, v, p.limbs) && ConfidenceAt(c, v, p.limbs.carried, p.confidence)
    && ContactsAt(v, p.contacts) && LooksAt(c, v, p.lookAt) && ChannelsAt(c, v, p.channels) && MetadataAt(c, v, p.metadata)
  }

  ghost predicate SaysTrackers(c: Codec, v: Value, trackers: seq<Tracker>) {
    && v.Arr? && |v.elements| == |trackers|
    && (forall i :: 0 <= i < |trackers| ==> SaysTracker(c, v.elements[i], trackers[i]))
    && forall i, k :: 0 <= i < k < |trackers| ==> trackers[i].trackerId != trackers[k].trackerId
  }

  ghost predicate SaysActor(c: Codec, v: Value, a: Actor) {
    && OnlyKeys(v, ["actor", "pose", "trackers"])
    && At(v, "actor", Str(a.name))
    && (match a.pose
        case None => Without(v, "pose")
        case Some(p) => exists w :: At(v, "pose", w) && SaysPose(c, w, p))
    && exists w :: At(v, "trackers", w) && SaysTrackers(c, w, a.trackers)
  }

  ghost predicate SaysActors(c: Codec, v: Value, actors: seq<Actor>) {
    && v.Arr? && |v.elements| == |actors|
    && (forall i :: 0 <= i < |actors| ==> SaysActor(c, v.elements[i], actors[i]))
    && forall i, k :: 0 <= i < k < |actors| ==> actors[i].name != actors[k].name
  }

  /** A message of this format, and the frame it says. */
  ghost predicate SaysFrame(c: Codec, v: Value, f: Frame) {
    && OnlyKeys(v, ["format", "frameNumber", "sourceProfile", "timing", "actors"])
    && At(v, "format", Str("openstrata.motion.frame/v1"))
    && At(v, "frameNumber", Str(T.Decimal(f.number)))
    && At(v, "sourceProfile", Str(f.profile))
    && (exists w :: At(v, "timing", w) && SaysTiming(c, w, f.timing))
    && exists w :: At(v, "actors", w) && SaysActors(c, w, f.actors)
  }

  // ---- Keys are found where they stand ----

  lemma {:induction false} FoundIff(members: seq<Member>, key: string, x: Value)
    requires UniqueKeys(members)
    ensures Find(members, key) == Some(x) <==> At(Obj(members), key, x)
    ensures Find(members, key).None? <==> Without(Obj(members), key)
  {
    if members != [] {
      var rest := members[1..];
      FoundIff(rest, key, x);
      assert forall m :: 0 <= m < |rest| ==> rest[m] == members[m + 1];
      assert forall m :: 0 < m < |members| ==> members[m] == rest[m - 1];
      if members[0].key == key {
        assert members[0] == Member(key, members[0].value);
      } else {
        if At(Obj(members), key, x) {
          var m :| 0 <= m < |members| && members[m] == Member(key, x);
          assert rest[m - 1] == Member(key, x);
        }
      }
    }
  }

  lemma KeysIff(v: Value, keys: seq<string>, needed: seq<bool>)
    requires v.Obj? && |keys| == |needed|
    ensures KeysFit(v.members, keys, needed) <==>
              OnlyKeys(v, keys) && forall i :: 0 <= i < |keys| && needed[i] ==> Find(v.members, keys[i]).Some?
  {
  }

  // ---- Fields ----

  lemma VectorIff(c: Codec, v: Value, x: Vector)
    ensures ReadVector(c)(v) == Some(x) <==> SaysVector(c, v, x)
  {
    if v.Arr? && |v.elements| == 3 {
      FloatIff(c, v.elements[0], x.x);
      FloatIff(c, v.elements[1], x.y);
      FloatIff(c, v.elements[2], x.z);
    }
  }

  lemma FloatIff(c: Codec, v: Value, x: Float)
    ensures ReadFloat(c)(v) == Some(x) <==> SaysFloat(c, v, x)
  {
  }

  lemma RotationIff(c: Codec, v: Value, q: Rotation)
    ensures ReadRotation(c)(v) == Some(q) <==> SaysRotation(c, v, q)
  {
    if v.Arr? && |v.elements| == 4 {
      FloatIff(c, v.elements[0], q.w);
      FloatIff(c, v.elements[1], q.x);
      FloatIff(c, v.elements[2], q.y);
      FloatIff(c, v.elements[3], q.z);
    }
  }

  /** What is read of a field that is there. */
  lemma ReadAt<T>(v: Value, key: string, read: Value -> Option<T>, x: T)
    requires v.Obj? && UniqueKeys(v.members)
    ensures Find(v.members, key).Some? && read(Find(v.members, key).value) == Some(x) <==>
            exists w :: At(v, key, w) && read(w) == Some(x)
  {
    hide At, Find, UniqueKeys;
    forall w
      ensures Find(v.members, key) == Some(w) <==> At(v, key, w)
    {
      FoundIff(v.members, key, w);
    }
  }

  lemma AbsentIff(v: Value, key: string)
    requires v.Obj? && UniqueKeys(v.members)
    ensures Find(v.members, key).None? <==> Without(v, key)
  {
    FoundIff(v.members, key, Null);
  }

  lemma DoubleIff(c: Codec, v: Value, key: string, x: Double)
    requires v.Obj? && UniqueKeys(v.members)
    ensures Find(v.members, key).Some? && ReadDouble(c)(Find(v.members, key).value) == Some(x) <==> DoubleAt(c, v, key, x)
  {
    hide At, Find, UniqueKeys;
    ReadAt(v, key, ReadDouble(c), x);
    forall w
      ensures ReadDouble(c)(w) == Some(x) <==> SaysDouble(c, w, x)
    {
    }
  }

  lemma MayDoubleIff(c: Codec, v: Value, key: string, x: Option<Double>)
    requires v.Obj? && UniqueKeys(v.members)
    ensures May(Find(v.members, key), ReadDouble(c)) == Some(x) <==> MayDoubleAt(c, v, key, x)
  {
    hide Find, UniqueKeys, ReadDouble, DoubleAt, Without;
    AbsentIff(v, key);
    if x.Some? {
      DoubleIff(c, v, key, x.value);
    }
  }

  lemma CountIff(v: Value, key: string, n: Count)
    requires v.Obj? && UniqueKeys(v.members)
    ensures Find(v.members, key).Some? && ReadCount(Find(v.members, key).value) == Some(n) <==> At(v, key, Str(T.Decimal(n)))
  {
    hide At, Find, UniqueKeys, ReadCounter;
    FoundIff(v.members, key, Str(T.Decimal(n)));
    if Find(v.members, key).Some? && Find(v.members, key).value.Str? {
      CounterIsExact(Find(v.members, key).value.text, n);
    }
    CounterIsExact(T.Decimal(n), n);
  }

  lemma MayCountIff(v: Value, key: string, n: Option<Count>)
    requires v.Obj? && UniqueKeys(v.members)
    ensures May(Find(v.members, key), ReadCount) == Some(n) <==> MayCountAt(v, key, n)
  {
    hide At, Find, UniqueKeys, ReadCount, Without;
    AbsentIff(v, key);
    if n.Some? {
      CountIff(v, key, n.value);
    }
  }

  lemma TextIff(v: Value, key: string, text: string)
    requires v.Obj? && UniqueKeys(v.members)
    ensures Find(v.members, key).Some? && ReadText(Find(v.members, key).value) == Some(text) <==> At(v, key, Str(text))
  {
    hide At, Find, UniqueKeys;
    FoundIff(v.members, key, Str(text));
  }

  lemma WordIff(v: Value, key: string, words: seq<string>, i: nat)
    requires v.Obj? && UniqueKeys(v.members) && DistinctWords(words)
    ensures Find(v.members, key).Some? && ReadWord(words, Find(v.members, key).value) == Some(i) <==> WordAt(v, key, words, i)
  {
    hide At, Find, UniqueKeys, FindWord;
    if i < |words| {
      FoundIff(v.members, key, Str(words[i]));
      WordIsFound(words, i);
    }
  }

  lemma VectorAtIff(c: Codec, v: Value, key: string, x: Vector)
    requires v.Obj? && UniqueKeys(v.members)
    ensures Find(v.members, key).Some? && ReadVector(c)(Find(v.members, key).value) == Some(x) <==> VectorAt(c, v, key, x)
  {
    hide At, Find, UniqueKeys, ReadVector, SaysVector;
    ReadAt(v, key, ReadVector(c), x);
    forall w
      ensures ReadVector(c)(w) == Some(x) <==> SaysVector(c, w, x)
    {
      VectorIff(c, w, x);
    }
  }

  lemma RotationAtIff(c: Codec, v: Value, key: string, q: Rotation)
    requires v.Obj? && UniqueKeys(v.members)
    ensures Find(v.members, key).Some? && ReadRotation(c)(Find(v.members, key).value) == Some(q) <==> RotationAt(c, v, key, q)
  {
    hide At, Find, UniqueKeys, ReadRotation, SaysRotation;
    ReadAt(v, key, ReadRotation(c), q);
    forall w
      ensures ReadRotation(c)(w) == Some(q) <==> SaysRotation(c, w, q)
    {
      RotationIff(c, w, q);
    }
  }

  lemma HeldVectorIff(c: Codec, v: Value, key: string, h: Held<Vector>)
    requires v.Obj? && UniqueKeys(v.members)
    ensures Hold(Find(v.members, key), ReadVector(c), c.origin) == Some(h) <==> HeldVectorAt(c, v, key, h)
  {
    hide Find, UniqueKeys, ReadVector, VectorAt, Without;
    AbsentIff(v, key);
    VectorAtIff(c, v, key, h.value);
  }

  lemma HeldRotationIff(c: Codec, v: Value, key: string, h: Held<Rotation>)
    requires v.Obj? && UniqueKeys(v.members)
    ensures Hold(Find(v.members, key), ReadRotation(c), c.rest) == Some(h) <==> HeldRotationAt(c, v, key, h)
  {
    hide Find, UniqueKeys, ReadRotation, RotationAt, Without;
    AbsentIff(v, key);
    RotationAtIff(c, v, key, h.value);
  }

  // ---- Objects ----

  lemma TimingIff(c: Codec, v: Value, t: Timing)
    requires v.Obj? ==> UniqueKeys(v.members)
    ensures ReadTiming(c, v) == Some(t) <==> SaysTiming(c, v, t)
  {
    hide Find, UniqueKeys, KeysFit, OnlyKeys, ReadDouble, ReadCount, ReadWord, May, DoubleAt, MayDoubleAt, MayCountAt, WordAt;
    if v.Obj? {
      KeysIff(v, TIMING, TIMING_NEEDS);
      MayDoubleIff(c, v, "sourceTimestamp", t.sourced);
      DoubleIff(c, v, "receiveTimestamp", t.received);
      MayCountIff(v, "sequence", t.sequence);
      WordIff(v, "sourceClock", ["device", "localMonotonic", "wall", "networkSynchronized", "none"], t.clock);
    }
  }

  lemma RootIff(c: Codec, v: Value, r: Root)
    requires v.Obj? ==> UniqueKeys(v.members)
    ensures ReadRoot(c, v) == Some(r) <==> SaysRoot(c, v, r)
  {
    hide Find, UniqueKeys, KeysFit, OnlyKeys, Hold, ReadVector, ReadRotation, HeldVectorAt, HeldRotationAt;
    if v.Obj? {
      KeysIff(v, ROOT, ROOT_NEEDS);
      HeldVectorIff(c, v, "worldPosition", r.position);
      HeldRotationIff(c, v, "worldOrientation", r.orientation);
      HeldVectorIff(c, v, "linearVelocity", r.linear);
      HeldVectorIff(c, v, "angularVelocity", r.angular);
    }
  }

  lemma ContactsIff(v: Value, f: Contacts)
    requires v.Obj? ==> UniqueKeys(v.members)
    ensures ReadContacts(v) == Some(f) <==> SaysContacts(v, f)
  {
    hide Find, UniqueKeys, KeysFit, OnlyKeys, ReadWord, WordAt;
    if v.Obj? {
      KeysIff(v, CONTACTS, CONTACTS_NEEDS);
      WordIff(v, "leftFoot", ["unknown", "free", "contact"], f.left);
      WordIff(v, "rightFoot", ["unknown", "free", "contact"], f.right);
    }
  }

  lemma MetadataIff(c: Codec, v: Value, m: Metadata)
    requires v.Obj? ==> UniqueKeys(v.members)
    ensures ReadMetadata(c, v) == Some(m) <==> SaysMetadata(c, v, m)
  {
    hide Find, UniqueKeys, KeysFit, OnlyKeys, ReadDouble, ReadCount, ReadWord, ReadText, May, MayDoubleAt, MayCountAt, WordAt, At;
    if v.Obj? {
      KeysIff(v, METADATA, METADATA_NEEDS);
      WordIff(v, "kind", ["clip", "liveCapture", "generated", "procedural", "simulated"], m.kind);
      TextIff(v, "provider", m.provider);
      TextIff(v, "protocol", m.protocol);
      TextIff(v, "sourceId", m.sourceId);
      MayDoubleIff(c, v, "sourceTimestamp", m.sourced);
      MayCountIff(v, "sequenceNumber", m.sequence);
    }
  }

  lemma MayFloatIff(c: Codec, v: Value, key: string, x: Option<Float>)
    requires v.Obj? && UniqueKeys(v.members)
    ensures May(Find(v.members, key), ReadFloat(c)) == Some(x) <==>
            match x { case None => Without(v, key) case Some(y) => FloatAt(c, v, key, y) }
  {
    hide Find, UniqueKeys, At, Without;
    AbsentIff(v, key);
    if x.Some? {
      ReadAt(v, key, ReadFloat(c), x.value);
    }
  }

  lemma TrackerIff(c: Codec, v: Value, t: Tracker)
    requires v.Obj? ==> UniqueKeys(v.members)
    ensures ReadTracker(c)(v) == Some(t) <==> SaysTracker(c, v, t)
  {
    hide Find, UniqueKeys, KeysFit, OnlyKeys, ReadText, ReadFloat, ReadVector, ReadRotation, May, Hold, HeldVectorAt, HeldRotationAt,
         At, Without, FloatAt;
    if v.Obj? {
      KeysIff(v, TRACKER, TRACKER_NEEDS);
      TextIff(v, "trackerId", t.trackerId);
      HeldVectorIff(c, v, "position", t.position);
      HeldRotationIff(c, v, "rotation", t.rotation);
      MayFloatIff(c, v, "confidence", t.confidence);
    }
  }

  // ---- Joints, confidences and channels ----

  lemma RestIsUnique(members: seq<Member>)
    requires UniqueKeys(members) && members != []
    ensures UniqueKeys(members[1..])
    ensures forall key :: Find(members[1..], key) == if key == members[0].key then None else Find(members, key)
  {
    var rest := members[1..];
    assert forall m :: 0 <= m < |rest| ==> rest[m] == members[m + 1];
    FoundIff(rest, members[0].key, Null);
  }

  /** What the joint loop makes of each joint: the rotation under its name, or what it was before. */
  lemma {:induction false} LimbsSay(c: Codec, members: seq<Member>, before: Limbs)
    requires UniqueKeys(members) && DistinctWords(c.joints) && Limbed(c, before)
    ensures ReadLimbs(c, members, before).Some? <==>
              forall m :: 0 <= m < |members| ==> members[m].key in c.joints && ReadRotation(c)(members[m].value).Some?
    ensures ReadLimbs(c, members, before).Some? ==>
              var l := ReadLimbs(c, members, before).value;
              forall j :: 0 <= j < |c.joints| ==>
                var found := Find(members, c.joints[j]);
                if found.Some? then l.carried[j] && ReadRotation(c)(found.value) == Some(l.rotations[j])
                else l.carried[j] == before.carried[j] && l.rotations[j] == before.rotations[j]
  {
    hide FindWord, ReadRotation, Find, UniqueKeys;
    if members == [] {
      assert forall key :: Find(members, key).None? by { NothingFound(); }
    } else {
      var key, rest := members[0].key, members[1..];
      RestIsUnique(members);
      assert Find(members, key) == Some(members[0].value) by { FirstFound(members); }
      NameIff(c.joints, key);
      assert forall m :: 0 <= m < |rest| ==> rest[m] == members[m + 1];
      assert forall m :: 0 < m < |members| ==> members[m] == rest[m - 1];
      if FindWord(c.joints, key).Some? && ReadRotation(c)(members[0].value).Some? {
        var j, q := FindWord(c.joints, key).value, ReadRotation(c)(members[0].value).value;
        LimbsSay(c, rest, Limbs(before.rotations[j := q], before.carried[j := true]));
      }
    }
  }

  lemma NothingFound()
    ensures forall key :: Find([], key).None?
  {
  }

  lemma FirstFound(members: seq<Member>)
    requires members != []
    ensures Find(members, members[0].key) == Some(members[0].value)
  {
  }

  /** A word is found exactly where it stands. */
  lemma NameIff(words: seq<string>, word: string)
    requires DistinctWords(words)
    ensures FindWord(words, word).Some? <==> word in words
    ensures forall j :: 0 <= j < |words| ==> (FindWord(words, word) == Some(j) <==> words[j] == word)
  {
    hide FindWord;
    forall j | 0 <= j < |words|
      ensures FindWord(words, word) == Some(j) <==> words[j] == word
    {
      WordIsFound(words, j);
    }
  }

  lemma LimbsIff(c: Codec, v: Value, l: Limbs)
    requires (v.Obj? ==> UniqueKeys(v.members)) && DistinctWords(c.joints)
    ensures v.Obj? && ReadLimbs(c, v.members, Still(c)) == Some(l) <==> SaysLimbs(c, v, l)
  {
    hide ReadLimbs, Find, UniqueKeys, RotationAt, ReadRotation, Without, DistinctWords;
    if v.Obj? {
      LimbsSay(c, v.members, Still(c));
      forall j | 0 <= j < |c.joints|
        ensures Find(v.members, c.joints[j]).None? <==> Without(v, c.joints[j])
        ensures forall q :: Find(v.members, c.joints[j]).Some? && ReadRotation(c)(Find(v.members, c.joints[j]).value) == Some(q)
                  <==> RotationAt(c, v, c.joints[j], q)
      {
        AbsentIff(v, c.joints[j]);
        forall q
          ensures Find(v.members, c.joints[j]).Some? && ReadRotation(c)(Find(v.members, c.joints[j]).value) == Some(q)
              <==> RotationAt(c, v, c.joints[j], q)
        {
          RotationAtIff(c, v, c.joints[j], q);
        }
      }
      if SaysLimbs(c, v, l) {
        forall m | 0 <= m < |v.members|
          ensures ReadRotation(c)(v.members[m].value).Some?
        {
          MemberIsFound(v.members, m);
          var j :| 0 <= j < |c.joints| && c.joints[j] == v.members[m].key;
          assert l.carried[j];
        }
        var r := ReadLimbs(c, v.members, Still(c)).value;
        assert r.rotations == l.rotations && r.carried == l.carried;
      }
    }
  }

  lemma MemberIsFound(members: seq<Member>, m: nat)
    requires UniqueKeys(members) && m < |members|
    ensures Find(members, members[m].key) == Some(members[m].value)
  {
    FoundIff(members, members[m].key, members[m].value);
  }

  /** What the confidence loop makes of each joint. */
  lemma {:induction false} ConfidencesSay(c: Codec, members: seq<Member>, carried: seq<bool>, before: Confidences)
    requires UniqueKeys(members) && DistinctWords(c.joints)
    requires |carried| == |before.values| == |before.present| == |c.joints|
    ensures GatherConfidence(c, members, carried, before).Some? <==>
              forall m :: 0 <= m < |members| ==> IsCarried(c, carried, members[m].key) && ReadFloat(c)(members[m].value).Some?
    ensures GatherConfidence(c, members, carried, before).Some? ==>
              var a := GatherConfidence(c, members, carried, before).value;
              forall j :: 0 <= j < |c.joints| ==>
                var found := Find(members, c.joints[j]);
                if found.Some? then a.present[j] && ReadFloat(c)(found.value) == Some(a.values[j])
                else a.present[j] == before.present[j] && a.values[j] == before.values[j]
  {
    hide FindWord, ReadFloat, Find, UniqueKeys, DistinctWords;
    if members == [] {
      assert forall key :: Find(members, key).None? by { NothingFound(); }
    } else {
      var key, rest := members[0].key, members[1..];
      RestIsUnique(members);
      assert Find(members, key) == Some(members[0].value) by { FirstFound(members); }
      NameIff(c.joints, key);
      assert forall m :: 0 <= m < |rest| ==> rest[m] == members[m + 1];
      assert forall m :: 0 < m < |members| ==> members[m] == rest[m - 1];
      if IsCarried(c, carried, key) && ReadFloat(c)(members[0].value).Some? {
        var j, x := FindWord(c.joints, key).value, ReadFloat(c)(members[0].value).value;
        ConfidencesSay(c, rest, carried, Confidences(before.values[j := x], before.present[j := true]));
      }
    }
  }

  /** A joint of this name is carried. */
  predicate IsCarried(c: Codec, carried: seq<bool>, name: string)
    requires |carried| == |c.joints|
  {
    exists j :: 0 <= j < |carried| && c.joints[j] == name && carried[j]
  }

  lemma FloatAtIff(c: Codec, v: Value, key: string, x: Float)
    requires v.Obj? && UniqueKeys(v.members)
    ensures Find(v.members, key).Some? && ReadFloat(c)(Find(v.members, key).value) == Some(x) <==>
            FloatAt(c, v, key, x)
  {
    hide Find, UniqueKeys, At;
    ReadAt(v, key, ReadFloat(c), x);
  }

  lemma ConfidenceIff(c: Codec, v: Value, carried: seq<bool>, x: seq<Float>)
    requires (v.Obj? ==> UniqueKeys(v.members)) && DistinctWords(c.joints) && |carried| == |x| == |c.joints|
    ensures ReadConfidence(c, v, carried) == Some(x) <==> SaysConfidence(c, v, carried, x)
  {
    hide GatherConfidence, Find, UniqueKeys, ReadFloat, FloatAt, Without, DistinctWords, At;
    if v.Obj? {
      ConfidencesSay(c, v.members, carried, NoConfidence(c));
      forall j | 0 <= j < |c.joints|
        ensures Find(v.members, c.joints[j]).None? <==> Without(v, c.joints[j])
        ensures Find(v.members, c.joints[j]).Some? && ReadFloat(c)(Find(v.members, c.joints[j]).value) == Some(x[j])
            <==> FloatAt(c, v, c.joints[j], x[j])
      {
        AbsentIff(v, c.joints[j]);
        FloatAtIff(c, v, c.joints[j], x[j]);
      }
      if SaysConfidence(c, v, carried, x) {
        ConfidenceIsGathered(c, v, carried, x);
        var a := GatherConfidence(c, v.members, carried, NoConfidence(c)).value;
        assert a.values == x;
      }
      if ReadConfidence(c, v, carried) == Some(x) {
        ConfidenceIsCarried(c, v, carried);
      }
    }
  }

  lemma ConfidenceIsGathered(c: Codec, v: Value, carried: seq<bool>, x: seq<Float>)
    requires v.Obj? && UniqueKeys(v.members) && DistinctWords(c.joints) && SaysConfidence(c, v, carried, x)
    ensures GatherConfidence(c, v.members, carried, NoConfidence(c)).Some?
  {
    hide GatherConfidence, Find, UniqueKeys, ReadFloat, FloatAt, DistinctWords, At, Without;
    ConfidencesSay(c, v.members, carried, NoConfidence(c));
    forall m | 0 <= m < |v.members|
      ensures IsCarried(c, carried, v.members[m].key) && ReadFloat(c)(v.members[m].value).Some?
    {
      var j :| 0 <= j < |c.joints| && c.joints[j] == v.members[m].key;
      MemberIsFound(v.members, m);
      AbsentIff(v, c.joints[j]);
      FloatAtIff(c, v, c.joints[j], x[j]);
    }
  }

  lemma ConfidenceIsCarried(c: Codec, v: Value, carried: seq<bool>)
    requires v.Obj? && UniqueKeys(v.members) && DistinctWords(c.joints) && |carried| == |c.joints|
    requires GatherConfidence(c, v.members, carried, NoConfidence(c)).Some?
    ensures OnlyKeys(v, c.joints) && forall j :: 0 <= j < |c.joints| && !carried[j] ==> Find(v.members, c.joints[j]).None?
  {
    hide GatherConfidence, Find, UniqueKeys, ReadFloat;
    ConfidencesSay(c, v.members, carried, NoConfidence(c));
    forall j | 0 <= j < |c.joints| && !carried[j]
      ensures Find(v.members, c.joints[j]).None?
    {
      forall m | 0 <= m < |v.members|
        ensures v.members[m].key != c.joints[j]
      {
        assert IsCarried(c, carried, v.members[m].key);
      }
      AbsentIff(v, c.joints[j]);
    }
  }

  predicate HasKey(members: seq<Member>, key: string) {
    exists m :: 0 <= m < |members| && members[m].key == key
  }

  /** What the channel loop gathers: the weight under each name, and what was there under other names. */
  lemma {:induction false} ChannelsSay(c: Codec, members: seq<Member>, before: seq<Channel<Float>>)
    requires UniqueKeys(members) && InNameOrder(before)
    requires forall i, m :: 0 <= i < |before| && 0 <= m < |members| ==> before[i].name != members[m].key
    ensures ReadChannels(c, members, before).Some? <==> forall m :: 0 <= m < |members| ==> ReadFloat(c)(members[m].value).Some?
    ensures ReadChannels(c, members, before).Some? ==>
              var r := ReadChannels(c, members, before).value;
              && InNameOrder(r)
              && (forall x :: x in before ==> x in r)
              && (forall m :: 0 <= m < |members| ==> WeightOf(c, members[m]) in r)
              && (forall x :: x in r ==> x in before || HasKey(members, x.name))
  {
    hide ReadFloat, Less, Put;
    if members != [] {
      var rest := members[1..];
      assert forall m :: 0 <= m < |rest| ==> rest[m] == members[m + 1];
      assert forall m :: 0 < m < |members| ==> members[m] == rest[m - 1];
      if ReadFloat(c)(members[0].value).Some? {
        var next := WeightOf(c, members[0]);
        PutKeepsOrder(before, next);
        var put := Put(before, next);
        forall i, m | 0 <= i < |put| && 0 <= m < |rest|
          ensures put[i].name != rest[m].key
        {
          assert put[i] in put;
        }
        ChannelsSay(c, rest, put);
        if ReadChannels(c, members, before).Some? {
          var r := ReadChannels(c, members, before).value;
          forall x | x in r
            ensures x in before || HasKey(members, x.name)
          {
            if x !in put {
              assert HasKey(rest, x.name);
              var m :| 0 <= m < |rest| && rest[m].key == x.name;
              assert members[m + 1].key == x.name;
            } else if x !in before {
              assert members[0].key == x.name;
            }
          }
        }
      }
    }
  }

  /** Channels in name order are the same wherever they hold the same. */
  lemma {:induction false} OrderedAreOne(a: seq<Channel<Float>>, b: seq<Channel<Float>>)
    requires InNameOrder(a) && InNameOrder(b) && (forall x :: x in a <==> x in b)
    ensures a == b
  {
    hide Less;
    assert b != [] ==> b[0] in b;
    if a != [] {
      assert a[0] in b;
      var i :| 0 <= i < |b| && b[i] == a[0];
      assert b[0] in a;
      var k :| 0 <= k < |a| && a[k] == b[0];
      if i > 0 && k > 0 {
        LessIsTransitive(a[0].name, a[k].name, a[0].name);
        LessIsStrict(a[0].name);
      }
      assert a[0] == b[0];
      forall x
        ensures x in a[1..] <==> x in b[1..]
      {
        InRest(a, x);
        InRest(b, x);
      }
      OrderedAreOne(a[1..], b[1..]);
      assert a == [a[0]] + a[1..] && b == [b[0]] + b[1..];
    }
  }

  lemma InRest(a: seq<Channel<Float>>, x: Channel<Float>)
    requires InNameOrder(a) && a != []
    ensures x in a[1..] <==> x in a && x != a[0]
  {
    hide Less;
    LessIsStrict(a[0].name);
    if x in a && x != a[0] {
      var i :| 0 <= i < |a| && a[i] == x;
      assert a[1..][i - 1] == x;
    }
    if x in a[1..] {
      var i :| 0 <= i < |a[1..]| && a[1..][i] == x;
      assert a[i + 1] == x;
    }
  }

  function WeightOf(c: Codec, m: Member): Channel<Float>
    requires ReadFloat(c)(m.value).Some?
  {
    Channel(m.key, ReadFloat(c)(m.value).value)
  }

  lemma ChannelIsSaid(c: Codec, v: Value, channels: seq<Channel<Float>>, i: nat, m: nat)
    requires v.Obj? && InNameOrder(channels) && i < |channels| && m < |v.members| && v.members[m].key == channels[i].name
    requires ReadFloat(c)(v.members[m].value).Some? && WeightOf(c, v.members[m]) in channels
    ensures FloatAt(c, v, channels[i].name, channels[i].weight)
  {
    OneOfAName(channels, i, WeightOf(c, v.members[m]));
    assert At(v, channels[i].name, v.members[m].value);
  }

  lemma ChannelsAreSaid(c: Codec, v: Value)
    requires v.Obj? && UniqueKeys(v.members) && ReadChannels(c, v.members, []).Some?
    ensures SaysChannels(c, v, ReadChannels(c, v.members, []).value)
  {
    hide ReadChannels, UniqueKeys, Less, ReadFloat, At, SaysFloat, InNameOrder;
    NoneInOrder();
    ChannelsSay(c, v.members, []);
    var r := ReadChannels(c, v.members, []).value;
    forall i | 0 <= i < |r|
      ensures FloatAt(c, v, r[i].name, r[i].weight)
    {
      assert r[i] in r;
      assert HasKey(v.members, r[i].name);
      var m :| 0 <= m < |v.members| && v.members[m].key == r[i].name;
      ChannelIsSaid(c, v, r, i, m);
    }
    forall m | 0 <= m < |v.members|
      ensures HasChannel(r, v.members[m].key)
    {
      assert WeightOf(c, v.members[m]) in r;
    }
  }

  lemma NoneInOrder()
    ensures InNameOrder<Float>([])
  {
  }

  lemma OneOfAName(channels: seq<Channel<Float>>, i: nat, x: Channel<Float>)
    requires InNameOrder(channels) && i < |channels| && x in channels && x.name == channels[i].name
    ensures x == channels[i]
  {
    hide Less;
    OrderedIsDistinct(channels);
  }

  lemma ChannelsIff(c: Codec, v: Value, channels: seq<Channel<Float>>)
    requires v.Obj? ==> UniqueKeys(v.members)
    ensures v.Obj? && ReadChannels(c, v.members, []) == Some(channels) <==> SaysChannels(c, v, channels)
  {
    hide ReadChannels, UniqueKeys;
    if v.Obj? && ReadChannels(c, v.members, []).Some? {
      ChannelsAreSaid(c, v);
    }
    if SaysChannels(c, v, channels) {
      SaidAreChannels(c, v, channels);
    }
  }

  lemma MemberIsSaid(c: Codec, v: Value, channels: seq<Channel<Float>>, m: nat)
    requires v.Obj? && UniqueKeys(v.members) && SaysChannels(c, v, channels) && m < |v.members|
    ensures ReadFloat(c)(v.members[m].value).Some? && WeightOf(c, v.members[m]) in channels
  {
    hide Less, UniqueKeys, At;
    assert HasChannel(channels, v.members[m].key);
    var i :| 0 <= i < |channels| && channels[i].name == v.members[m].key;
    assert FloatAt(c, v, channels[i].name, channels[i].weight);
    var w :| At(v, channels[i].name, w) && SaysFloat(c, w, channels[i].weight);
    OneUnderAKey(v, m, w);
    assert channels[i] == WeightOf(c, v.members[m]);
  }

  lemma SaidIsMember(c: Codec, v: Value, channels: seq<Channel<Float>>, x: Channel<Float>)
    requires v.Obj? && UniqueKeys(v.members) && SaysChannels(c, v, channels) && x in channels
    ensures exists m :: 0 <= m < |v.members| && ReadFloat(c)(v.members[m].value).Some? && WeightOf(c, v.members[m]) == x
  {
    hide Less, UniqueKeys;
    var i :| 0 <= i < |channels| && channels[i] == x;
    assert FloatAt(c, v, channels[i].name, channels[i].weight);
    var w :| At(v, channels[i].name, w) && SaysFloat(c, w, channels[i].weight);
    var m :| 0 <= m < |v.members| && v.members[m] == Member(channels[i].name, w);
    assert WeightOf(c, v.members[m]) == x;
  }

  lemma SaidAreChannels(c: Codec, v: Value, channels: seq<Channel<Float>>)
    requires v.Obj? && UniqueKeys(v.members) && SaysChannels(c, v, channels)
    ensures ReadChannels(c, v.members, []) == Some(channels)
  {
    hide ReadChannels, Less, SaysChannels, UniqueKeys, InNameOrder, ReadFloat, HasKey;
    NoneInOrder();
    SaidInOrder(c, v, channels);
    ChannelsSay(c, v.members, []);
    forall m | 0 <= m < |v.members|
      ensures ReadFloat(c)(v.members[m].value).Some? && WeightOf(c, v.members[m]) in channels
    {
      MemberIsSaid(c, v, channels, m);
    }
    var r := ReadChannels(c, v.members, []).value;
    forall x | x in r
      ensures x in channels
    {
      ReadIsMember(c, v.members, r, x);
    }
    forall x | x in channels
      ensures x in r
    {
      SaidIsMember(c, v, channels, x);
    }
    OrderedAreOne(r, channels);
  }

  /** What is read under a name is the weight that stands there. */
  lemma ReadIsMember(c: Codec, members: seq<Member>, r: seq<Channel<Float>>, x: Channel<Float>)
    requires InNameOrder(r) && x in r && HasKey(members, x.name)
    requires forall m :: 0 <= m < |members| ==> ReadFloat(c)(members[m].value).Some? && WeightOf(c, members[m]) in r
    ensures exists m :: 0 <= m < |members| && WeightOf(c, members[m]) == x
  {
    hide ReadFloat, InNameOrder;
    var m :| 0 <= m < |members| && members[m].key == x.name;
    var i :| 0 <= i < |r| && r[i] == x;
    OneOfAName(r, i, WeightOf(c, members[m]));
    assert WeightOf(c, members[m]) == x;
  }

  lemma SaidInOrder(c: Codec, v: Value, channels: seq<Channel<Float>>)
    requires SaysChannels(c, v, channels)
    ensures InNameOrder(channels)
  {
  }

  lemma OneUnderAKey(v: Value, m: nat, w: Value)
    requires v.Obj? && UniqueKeys(v.members) && m < |v.members| && At(v, v.members[m].key, w)
    ensures v.members[m].value == w
  {
  }

  // ---- Poses, actors and frames ----

  /** What stands in a wholesome tree is wholesome. */
  lemma InsideIsWholesome(c: Codec, v: Value, key: string, w: Value)
    requires Wholesome(c.isText, v) && At(v, key, w)
    ensures Wholesome(c.isText, w)
  {
  }

  lemma KeysAreUnique(c: Codec, v: Value)
    requires Wholesome(c.isText, v)
    ensures v.Obj? ==> UniqueKeys(v.members)
  {
  }

  lemma FoundIsAt(c: Codec, v: Value, key: string)
    requires Wholesome(c.isText, v) && v.Obj?
    ensures forall w :: Find(v.members, key) == Some(w) <==> At(v, key, w)
    ensures Find(v.members, key).None? <==> Without(v, key)
    ensures Find(v.members, key).Some? ==> Wholesome(c.isText, Find(v.members, key).value)
  {
    hide At, Find, UniqueKeys, Without, Wholesome;
    KeysAreUnique(c, v);
    forall w
      ensures Find(v.members, key) == Some(w) <==> At(v, key, w)
    {
      FoundIff(v.members, key, w);
    }
    AbsentIff(v, key);
    if Find(v.members, key).Some? {
      InsideIsWholesome(c, v, key, Find(v.members, key).value);
    }
  }

  lemma RootAtIff(c: Codec, v: Value, r: Root)
    requires Wholesome(c.isText, v) && v.Obj?
    ensures Find(v.members, "root").Some? && ReadRoot(c, Find(v.members, "root").value) == Some(r) <==> RootAt(c, v, r)
  {
    hide At, Find, Without, Wholesome, SaysRoot, ReadRoot;
    FoundIsAt(c, v, "root");
    if Find(v.members, "root").Some? {
      var w := Find(v.members, "root").value;
      KeysAreUnique(c, w);
      RootIff(c, w, r);
    }
  }

  lemma LimbsAtIff(c: Codec, v: Value, l: Limbs)
    requires Wholesome(c.isText, v) && v.Obj? && DistinctWords(c.joints)
    ensures var found := Find(v.members, "joints");
            found.Some? && found.value.Obj? && ReadLimbs(c, found.value.members, Still(c)) == Some(l) <==> LimbsAt(c, v, l)
  {
    hide At, Find, Without, Wholesome, SaysLimbs, ReadLimbs, DistinctWords;
    FoundIsAt(c, v, "joints");
    if Find(v.members, "joints").Some? {
      var w := Find(v.members, "joints").value;
      KeysAreUnique(c, w);
      LimbsIff(c, w, l);
    }
  }

  lemma ChannelsAtIff(c: Codec, v: Value, channels: seq<Channel<Float>>)
    requires Wholesome(c.isText, v) && v.Obj?
    ensures var found := Find(v.members, "channels");
            found.Some? && found.value.Obj? && ReadChannels(c, found.value.members, []) == Some(channels) <==> ChannelsAt(c, v, channels)
  {
    hide At, Find, Without, Wholesome, SaysChannels, ReadChannels;
    FoundIsAt(c, v, "channels");
    if Find(v.members, "channels").Some? {
      var w := Find(v.members, "channels").value;
      KeysAreUnique(c, w);
      ChannelsIff(c, w, channels);
    }
  }

  lemma MetadataAtIff(c: Codec, v: Value, m: Metadata)
    requires Wholesome(c.isText, v) && v.Obj?
    ensures Find(v.members, "metadata").Some? && ReadMetadata(c, Find(v.members, "metadata").value) == Some(m) <==> MetadataAt(c, v, m)
  {
    hide At, Find, Without, Wholesome, SaysMetadata, ReadMetadata;
    FoundIsAt(c, v, "metadata");
    if Find(v.members, "metadata").Some? {
      var w := Find(v.members, "metadata").value;
      KeysAreUnique(c, w);
      MetadataIff(c, w, m);
    }
  }

  lemma ConfidenceAtIff(c: Codec, v: Value, carried: seq<bool>, x: Option<seq<Float>>)
    requires Wholesome(c.isText, v) && v.Obj? && DistinctWords(c.joints) && |carried| == |c.joints|
    requires x.Some? ==> |x.value| == |c.joints|
    ensures MayConfidence(c, Find(v.members, "confidence"), carried) == Some(x) <==> ConfidenceAt(c, v, carried, x)
  {
    hide At, Find, Without, Wholesome, SaysConfidence, ReadConfidence, DistinctWords;
    FoundIsAt(c, v, "confidence");
    if Find(v.members, "confidence").Some? && x.Some? {
      var w := Find(v.members, "confidence").value;
      KeysAreUnique(c, w);
      ConfidenceIff(c, w, carried, x.value);
    }
  }

  lemma ContactsAtIff(c: Codec, v: Value, f: Option<Contacts>)
    requires Wholesome(c.isText, v) && v.Obj?
    ensures May(Find(v.members, "contacts"), ReadContacts) == Some(f) <==> ContactsAt(v, f)
  {
    hide At, Find, Without, Wholesome, SaysContacts, ReadContacts;
    FoundIsAt(c, v, "contacts");
    if Find(v.members, "contacts").Some? && f.Some? {
      var w := Find(v.members, "contacts").value;
      KeysAreUnique(c, w);
      ContactsIff(w, f.value);
    }
  }

  lemma LookAtIff(c: Codec, v: Value, x: Option<Vector>)
    requires Wholesome(c.isText, v) && v.Obj?
    ensures May(Find(v.members, "lookAtTarget"), ReadVector(c)) == Some(x) <==> LooksAt(c, v, x)
  {
    hide Find, Without, Wholesome, VectorAt, ReadVector, UniqueKeys;
    KeysAreUnique(c, v);
    AbsentIff(v, "lookAtTarget");
    if x.Some? {
      VectorAtIff(c, v, "lookAtTarget", x.value);
    }
  }

  lemma PoseKeysIff(v: Value)
    requires v.Obj?
    ensures KeysFit(v.members, POSE, POSE_NEEDS) <==>
              && OnlyKeys(v, ["timestamp", "root", "joints", "confidence", "contacts", "lookAtTarget", "channels", "metadata"])
              && Find(v.members, "timestamp").Some? && Find(v.members, "root").Some? && Find(v.members, "joints").Some?
              && Find(v.members, "channels").Some? && Find(v.members, "metadata").Some?
  {
    hide Find, OnlyKeys, KeysFit;
    KeysIff(v, POSE, POSE_NEEDS);
    assert POSE_NEEDS[0] && POSE_NEEDS[1] && POSE_NEEDS[2] && POSE_NEEDS[6] && POSE_NEEDS[7];
    assert !POSE_NEEDS[3] && !POSE_NEEDS[4] && !POSE_NEEDS[5];
    assert POSE[0] == "timestamp" && POSE[1] == "root" && POSE[2] == "joints" && POSE[6] == "channels" && POSE[7] == "metadata";
  }

  /** The parts a pose is read from, by name. */
  lemma PoseFieldsAre(v: Value)
    requires v.Obj?
    ensures Fields(v.members, POSE) ==
              [Find(v.members, "timestamp"), Find(v.members, "root"), Find(v.members, "joints"), Find(v.members, "confidence"),
               Find(v.members, "contacts"), Find(v.members, "lookAtTarget"), Find(v.members, "channels"), Find(v.members, "metadata")]
  {
    hide Find;
    var fields := Fields(v.members, POSE);
    assert |fields| == 8 && forall i :: 0 <= i < 8 ==> fields[i] == Find(v.members, POSE[i]);
    assert fields[0] == Find(v.members, "timestamp") && fields[1] == Find(v.members, "root");
    assert fields[2] == Find(v.members, "joints") && fields[3] == Find(v.members, "confidence");
    assert fields[4] == Find(v.members, "contacts") && fields[5] == Find(v.members, "lookAtTarget");
    assert fields[6] == Find(v.members, "channels") && fields[7] == Find(v.members, "metadata");
  }

  lemma SaidHasKeys(c: Codec, v: Value, p: Pose)
    requires Wholesome(c.isText, v) && SaysPose(c, v, p)
    ensures v.Obj? && KeysFit(v.members, POSE, POSE_NEEDS)
  {
    hide At, Find, Without, Wholesome, KeysFit, OnlyKeys, SaysDouble, SaysRoot, SaysLimbs, SaysConfidence, SaysContacts, VectorAt,
         SaysChannels, SaysMetadata;
    PoseKeysIff(v);
    FoundIsAt(c, v, "timestamp");
    FoundIsAt(c, v, "root");
    FoundIsAt(c, v, "joints");
    FoundIsAt(c, v, "channels");
    FoundIsAt(c, v, "metadata");
  }

  lemma SaidIsShaped(c: Codec, v: Value, p: Pose)
    requires SaysPose(c, v, p)
    ensures ShapedPose(c, p)
  {
    hide At, Without, OnlyKeys, DoubleAt, SaysRoot, SaysContacts, VectorAt, SaysChannels, SaysMetadata, RotationAt, FloatAt;
  }

  lemma PoseIff(c: Codec, v: Value, p: Pose)
    requires Wholesome(c.isText, v) && DistinctWords(c.joints)
    ensures ReadPose(c, v) == Some(p) <==> SaysPose(c, v, p)
  {
    hide Find, Wholesome, DistinctWords, KeysFit, Fields, PoseFrom, SaysPose;
    if ReadPose(c, v) == Some(p) || SaysPose(c, v, p) {
      if SaysPose(c, v, p) {
        SaidHasKeys(c, v, p);
        SaidIsShaped(c, v, p);
      }
      PoseKeysIff(v);
      PoseFieldsAre(v);
      PoseFromIff(c, v, p);
    }
  }

  lemma PoseFromIff(c: Codec, v: Value, p: Pose)
    requires Wholesome(c.isText, v) && v.Obj? && DistinctWords(c.joints) && KeysFit(v.members, POSE, POSE_NEEDS)
    requires forall i :: 0 <= i < |POSE| && POSE_NEEDS[i] ==> Fields(v.members, POSE)[i].Some?
    requires ShapedPose(c, p)
    ensures PoseFrom(c, Fields(v.members, POSE)) == Some(p) <==> SaysPose(c, v, p)
  {
    hide At, Find, Without, Wholesome, DistinctWords, KeysFit, OnlyKeys, Fields, UniqueKeys, ReadDouble, ReadRoot, ReadLimbs,
         MayConfidence, May, ReadContacts, ReadVector, ReadChannels, ReadMetadata, RootAt, LimbsAt, ConfidenceAt, ContactsAt,
         LooksAt, ChannelsAt, MetadataAt, DoubleAt, Limbed;
    PoseKeysIff(v);
    PoseFieldsAre(v);
    KeysAreUnique(c, v);
    LimbedCarries(c, p.limbs);
    DoubleIff(c, v, "timestamp", p.timestamp);
    RootAtIff(c, v, p.root);
    LimbsAtIff(c, v, p.limbs);
    ConfidenceAtIff(c, v, p.limbs.carried, p.confidence);
    ContactsAtIff(c, v, p.contacts);
    LookAtIff(c, v, p.lookAt);
    ChannelsAtIff(c, v, p.channels);
    MetadataAtIff(c, v, p.metadata);
  }

  lemma LimbedCarries(c: Codec, l: Limbs)
    requires Limbed(c, l)
    ensures |l.carried| == |c.joints|
  {
  }

  /** A list is read as its items exactly when each element reads to its item and no two have one identifier. */
  lemma ListedIff<X>(elements: seq<Value>, items: seq<X>, read: Value -> Option<X>, id: X -> string)
    ensures ReadListed(elements, read, id, {}) == Some(items) <==>
              && |elements| == |items| && (forall i :: 0 <= i < |items| ==> read(elements[i]) == Some(items[i]))
              && DistinctIds(items, id)
  {
    if ReadListed(elements, read, id, {}) == Some(items) {
      ListedAreDistinct(elements, read, id, {});
    } else if && |elements| == |items| && (forall i :: 0 <= i < |items| ==> read(elements[i]) == Some(items[i])) && DistinctIds(items, id) {
      DistinctAreListed(elements, items, read, id, {});
    }
  }

  lemma TrackersIff(c: Codec, v: Value, trackers: seq<Tracker>)
    requires Wholesome(c.isText, v)
    ensures ReadTrackers(c, v) == Some(trackers) <==> SaysTrackers(c, v, trackers)
  {
    hide ReadListed, ReadTracker, SaysTracker;
    if v.Arr? {
      ListedIff(v.elements, trackers, ReadTracker(c), TrackerId());
      if |v.elements| == |trackers| {
        forall i | 0 <= i < |trackers|
          ensures ReadTracker(c)(v.elements[i]) == Some(trackers[i]) <==> SaysTracker(c, v.elements[i], trackers[i])
        {
          KeysAreUnique(c, v.elements[i]);
          TrackerIff(c, v.elements[i], trackers[i]);
        }
      }
    }
  }

  lemma PoseAtIff(c: Codec, v: Value, p: Option<Pose>)
    requires Wholesome(c.isText, v) && v.Obj? && DistinctWords(c.joints)
    ensures May(Find(v.members, "pose"), PoseReader(c)) == Some(p) <==>
            match p
            case None => Without(v, "pose")
            case Some(q) => exists w :: At(v, "pose", w) && SaysPose(c, w, q)
  {
    hide At, Find, Without, Wholesome, SaysPose, ReadPose, DistinctWords;
    FoundIsAt(c, v, "pose");
    if Find(v.members, "pose").Some? && p.Some? {
      PoseIff(c, Find(v.members, "pose").value, p.value);
    }
  }

  lemma TrackersAtIff(c: Codec, v: Value, trackers: seq<Tracker>)
    requires Wholesome(c.isText, v) && v.Obj?
    ensures Find(v.members, "trackers").Some? && ReadTrackers(c, Find(v.members, "trackers").value) == Some(trackers) <==>
            exists w :: At(v, "trackers", w) && SaysTrackers(c, w, trackers)
  {
    hide At, Find, Without, Wholesome, SaysTrackers, ReadTrackers;
    FoundIsAt(c, v, "trackers");
    if Find(v.members, "trackers").Some? {
      TrackersIff(c, Find(v.members, "trackers").value, trackers);
    }
  }

  lemma ActorIff(c: Codec, v: Value, a: Actor)
    requires Wholesome(c.isText, v) && DistinctWords(c.joints)
    ensures ReadActor(c)(v) == Some(a) <==> SaysActor(c, v, a)
  {
    hide At, Find, Without, Wholesome, UniqueKeys, KeysFit, OnlyKeys, ReadText, PoseReader, May, ReadTrackers, SaysPose, SaysTrackers,
         DistinctWords;
    if v.Obj? {
      KeysAreUnique(c, v);
      KeysIff(v, ACTOR, ACTOR_NEEDS);
      assert ACTOR_NEEDS[0] && !ACTOR_NEEDS[1] && ACTOR_NEEDS[2] && ACTOR[0] == "actor" && ACTOR[2] == "trackers";
      TextIff(v, "actor", a.name);
      PoseAtIff(c, v, a.pose);
      TrackersAtIff(c, v, a.trackers);
    }
  }

  lemma ActorsIff(c: Codec, v: Value, actors: seq<Actor>)
    requires Wholesome(c.isText, v) && DistinctWords(c.joints)
    ensures ReadActors(c, v) == Some(actors) <==> SaysActors(c, v, actors)
  {
    hide ReadListed, ReadActor, SaysActor, DistinctWords;
    if v.Arr? {
      ListedIff(v.elements, actors, ReadActor(c), ActorName());
      if |v.elements| == |actors| {
        forall i | 0 <= i < |actors|
          ensures ReadActor(c)(v.elements[i]) == Some(actors[i]) <==> SaysActor(c, v.elements[i], actors[i])
        {
          ActorIff(c, v.elements[i], actors[i]);
        }
      }
    }
  }

  lemma ActorsAtIff(c: Codec, v: Value, actors: seq<Actor>)
    requires Wholesome(c.isText, v) && v.Obj? && DistinctWords(c.joints)
    ensures Find(v.members, "actors").Some? && ReadActors(c, Find(v.members, "actors").value) == Some(actors) <==>
            exists w :: At(v, "actors", w) && SaysActors(c, w, actors)
  {
    hide At, Find, Without, Wholesome, SaysActors, ReadActors, DistinctWords;
    FoundIsAt(c, v, "actors");
    if Find(v.members, "actors").Some? {
      ActorsIff(c, Find(v.members, "actors").value, actors);
    }
  }

  lemma TimingAtIff(c: Codec, v: Value, t: Timing)
    requires Wholesome(c.isText, v) && v.Obj?
    ensures Find(v.members, "timing").Some? && ReadTiming(c, Find(v.members, "timing").value) == Some(t) <==>
            exists w :: At(v, "timing", w) && SaysTiming(c, w, t)
  {
    hide At, Find, Without, Wholesome, SaysTiming, ReadTiming;
    FoundIsAt(c, v, "timing");
    if Find(v.members, "timing").Some? {
      KeysAreUnique(c, Find(v.members, "timing").value);
      TimingIff(c, Find(v.members, "timing").value, t);
    }
  }

  lemma FrameKeysIff(v: Value)
    requires v.Obj?
    ensures KeysFit(v.members, FRAME, FRAME_NEEDS) <==>
              && OnlyKeys(v, ["format", "frameNumber", "sourceProfile", "timing", "actors"])
              && Find(v.members, "frameNumber").Some? && Find(v.members, "sourceProfile").Some?
              && Find(v.members, "timing").Some? && Find(v.members, "actors").Some?
  {
    hide Find, OnlyKeys, KeysFit;
    KeysIff(v, FRAME, FRAME_NEEDS);
    assert !FRAME_NEEDS[0] && FRAME_NEEDS[1] && FRAME_NEEDS[2] && FRAME_NEEDS[3] && FRAME_NEEDS[4];
    assert FRAME[1] == "frameNumber" && FRAME[2] == "sourceProfile" && FRAME[3] == "timing" && FRAME[4] == "actors";
  }

  /**
   The wire language outright: a parsed value is read as a frame exactly when it says that frame. So a
   message of another format text, with a key that is not in the tables at any depth, or without one that
   is needed is refused, and nothing else is.
   */
  lemma FrameIff(c: Codec, v: Value, f: Frame)
    requires Wholesome(c.isText, v) && DistinctWords(c.joints)
    ensures ReadFrame(c, v) == Some(f) <==> SaysFrame(c, v, f)
  {
    hide At, Find, Without, Wholesome, UniqueKeys, KeysFit, OnlyKeys, ReadText, ReadCount, ReadTiming, ReadActors, SaysTiming, SaysActors,
         DistinctWords;
    if v.Obj? {
      KeysAreUnique(c, v);
      FrameKeysIff(v);
      FoundIff(v.members, "format", Str("openstrata.motion.frame/v1"));
      CountIff(v, "frameNumber", f.number);
      TextIff(v, "sourceProfile", f.profile);
      TimingAtIff(c, v, f.timing);
      ActorsAtIff(c, v, f.actors);
    }
  }

  /** The names agree on their first `n` characters, and there the one ends or has the smaller one. */
  predicate PartsAt(a: string, b: string, n: nat) {
    n <= |a| && n < |b| && (forall k :: 0 <= k < n ==> a[k] == b[k]) && (n == |a| || a[n] < b[n])
  }

  /** Channel and joint names are compared as the repository's text is, character by character. */
  lemma {:induction false} OrderIsLexical(a: string, b: string)
    ensures Less(a, b) <==> exists n: nat :: PartsAt(a, b, n)
  {
    if a != "" && b != "" && a[0] == b[0] {
      OrderIsLexical(a[1..], b[1..]);
      if n: nat :| PartsAt(a[1..], b[1..], n) {
        forall k | 0 <= k < n + 1
          ensures a[k] == b[k]
        {
          assert k > 0 ==> a[k] == a[1..][k - 1] && b[k] == b[1..][k - 1];
        }
        assert PartsAt(a, b, n + 1);
      }
      if n: nat :| PartsAt(a, b, n) {
        assert PartsAt(a[1..], b[1..], n - 1);
      }
    } else if b != "" && (a == "" || a[0] < b[0]) {
      assert PartsAt(a, b, 0);
    }
  }
}
