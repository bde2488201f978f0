/**
 FrameWire.cpp over the value tree: what each part of a motion frame is written as, when it is written at
 all, and what a reader accepts. The text of a number and of a string are the JSON layer's, given here as a
 codec; an unset field of a frame holds the value the frame starts with.
 */
module FrameWire {
  import opened Bytes
  import opened WireTree
  import T = Text

  /** The bits of a C++ float and a C++ double. */
  type Float = x: nat | x < 0x1_0000_0000
  type Double = x: nat | x < UINT64
  type Count = n: nat | n < UINT64

  datatype Vector = Vector(x: Float, y: Float, z: Float)
  datatype Rotation = Rotation(w: Float, x: Float, y: Float, z: Float)

  /** A field beside the flag that says whether it holds anything. */
  datatype Held<+T> = Held(has: bool, value: T)

  datatype Timing = Timing(sourced: Option<Double>, received: Double, sequence: Option<Count>, clock: nat)
  datatype Root = Root(position: Held<Vector>, orientation: Held<Rotation>, linear: Held<Vector>, angular: Held<Vector>)
  datatype Limbs = Limbs(rotations: seq<Rotation>, carried: seq<bool>)
  datatype Contacts = Contacts(left: nat, right: nat)
  datatype Metadata = Metadata(kind: nat, provider: string, protocol: string, sourceId: string, sourced: Option<Double>, sequence: Option<Count>)
  datatype Tracker = Tracker(trackerId: string, position: Held<Vector>, rotation: Held<Rotation>, confidence: Option<Float>)
  datatype Pose = Pose(timestamp: Double, root: Root, limbs: Limbs, confidence: Option<seq<Float>>, contacts: Option<Contacts>,
                       lookAt: Option<Vector>, channels: seq<Channel<Float>>, metadata: Metadata)
  datatype Actor = Actor(name: string, pose: Option<Pose>, trackers: seq<Tracker>)
  datatype Frame = Frame(number: Count, profile: string, timing: Timing, actors: seq<Actor>)

  /** The JSON layer's numbers and text, the joints of the vocabulary, and what an unset field holds. */
  datatype Codec = Codec(
    readFloat: string -> Option<Float>, writeFloat: Float -> string, finite: Float -> bool,
    readDouble: string -> Option<Double>, writeDouble: Double -> string, finiteDouble: Double -> bool,
    isText: string -> bool, isUnit: Rotation -> bool,
    joints: seq<string>, byName: seq<nat>, origin: Vector, rest: Rotation)

  // ---- Key tables and words ----

  const FORMAT := "openstrata.motion.frame/v1"
  const FRAME := ["format", "frameNumber", "sourceProfile", "timing", "actors"]
  const TIMING := ["sourceTimestamp", "receiveTimestamp", "sequence", "sourceClock"]
  const ACTOR := ["actor", "pose", "trackers"]
  const POSE := ["timestamp", "root", "joints", "confidence", "contacts", "lookAtTarget", "channels", "metadata"]
  const ROOT := ["worldPosition", "worldOrientation", "linearVelocity", "angularVelocity"]
  const CONTACTS := ["leftFoot", "rightFoot"]
  const METADATA := ["kind", "provider", "protocol", "sourceId", "sourceTimestamp", "sequenceNumber"]
  const TRACKER := ["trackerId", "position", "rotation", "confidence"]
  const CLOCKS := ["device", "localMonotonic", "wall", "networkSynchronized", "none"]
  const KINDS := ["clip", "liveCapture", "generated", "procedural", "simulated"]
  const FEET := ["unknown", "free", "contact"]

  const FRAME_NEEDS := [false, true, true, true, true]
  const TIMING_NEEDS := [false, true, false, true]
  const ACTOR_NEEDS := [true, false, true]
  const POSE_NEEDS := [true, true, true, false, false, false, true, true]
  const ROOT_NEEDS := [false, false, false, false]
  const CONTACTS_NEEDS := [true, true]
  const METADATA_NEEDS := [true, true, true, true, false, false]
  const TRACKER_NEEDS := [true, false, false, false]

  predicate AllText(c: Codec, words: seq<string>) {
    forall i :: 0 <= i < |words| ==> c.isText(words[i])
  }

  /** Numbers print to what reads back, a read number is finite, and the joints have names, each its own. */
  ghost predicate Sound(c: Codec) {
    && (forall x: Float :: c.finite(x) ==> c.readFloat(c.writeFloat(x)) == Some(x))
    && (forall t: string :: c.readFloat(t).Some? ==> c.finite(c.readFloat(t).value))
    && (forall x: Double :: c.finiteDouble(x) ==> c.readDouble(c.writeDouble(x)) == Some(x))
    && (forall t: string :: c.readDouble(t).Some? ==> c.finiteDouble(c.readDouble(t).value))
    && (forall n: nat :: c.isText(T.Decimal(n)))
    && DistinctWords(c.joints) && JointsInOrder(c)
    && AllText(c, [FORMAT]) && AllText(c, FRAME) && AllText(c, TIMING) && AllText(c, ACTOR) && AllText(c, POSE)
    && AllText(c, ROOT) && AllText(c, CONTACTS) && AllText(c, METADATA) && AllText(c, TRACKER)
    && AllText(c, CLOCKS) && AllText(c, KINDS) && AllText(c, FEET) && AllText(c, c.joints)
  }

  /** `byName` lists every joint once, in the order of the names. */
  predicate JointsInOrder(c: Codec) {
    && (forall k :: 0 <= k < |c.byName| ==> c.byName[k] < |c.joints|)
    && (forall j: nat :: j < |c.joints| ==> j in c.byName)
    && forall i, k :: 0 <= i < k < |c.byName| ==> Less(c.joints[c.byName[i]], c.joints[c.byName[k]])
  }

  // ---- When a frame is written ----

  predicate FiniteVector(c: Codec, v: Vector) {
    c.finite(v.x) && c.finite(v.y) && c.finite(v.z)
  }

  predicate Turns(c: Codec, q: Rotation) {
    c.finite(q.w) && c.finite(q.x) && c.finite(q.y) && c.finite(q.z) && c.isUnit(q)
  }

  predicate WritableTiming(c: Codec, t: Timing) {
    && (t.sourced.Some? ==> c.finiteDouble(t.sourced.value))
    && c.finiteDouble(t.received) && t.clock < |CLOCKS|
  }

  predicate WritableRoot(c: Codec, r: Root) {
    && (r.position.has ==> FiniteVector(c, r.position.value))
    && (r.orientation.has ==> Turns(c, r.orientation.value))
    && (r.linear.has ==> FiniteVector(c, r.linear.value))
    && (r.angular.has ==> FiniteVector(c, r.angular.value))
  }

  /** One rotation and one flag for each joint of the vocabulary. */
  predicate Limbed(c: Codec, l: Limbs) {
    |l.rotations| == |l.carried| == |c.joints|
  }

  predicate WritableLimbs(c: Codec, l: Limbs)
    requires Limbed(c, l)
  {
    forall j :: 0 <= j < |c.joints| && l.carried[j] ==> Turns(c, l.rotations[j])
  }

  predicate WritableConfidence(c: Codec, carried: seq<bool>, confidence: seq<Float>)
    requires |confidence| == |carried| == |c.joints|
  {
    forall j :: 0 <= j < |c.joints| && carried[j] ==> c.finite(confidence[j])
  }

  predicate WritableContacts(f: Contacts) {
    f.left < |FEET| && f.right < |FEET|
  }

  predicate WritableChannels(c: Codec, channels: seq<Channel<Float>>) {
    && DistinctNames(channels)
    && forall i :: 0 <= i < |channels| ==> c.isText(channels[i].name) && c.finite(channels[i].weight)
  }

  predicate WritableMetadata(c: Codec, m: Metadata) {
    && m.kind < |KINDS| && c.isText(m.provider) && c.isText(m.protocol) && c.isText(m.sourceId)
    && (m.sourced.Some? ==> c.finiteDouble(m.sourced.value))
  }

  predicate WritableTracker(c: Codec, t: Tracker) {
    && c.isText(t.trackerId)
    && (t.position.has ==> FiniteVector(c, t.position.value))
    && (t.rotation.has ==> Turns(c, t.rotation.value))
    && (t.confidence.Some? ==> c.finite(t.confidence.value))
  }

  function TrackerId(): Tracker -> string {
    (t: Tracker) => t.trackerId
  }

  function ActorName(): Actor -> string {
    (a: Actor) => a.name
  }

  predicate WritablePose(c: Codec, p: Pose)
    requires ShapedPose(c, p)
  {
    && c.finiteDouble(p.timestamp) && WritableRoot(c, p.root) && WritableLimbs(c, p.limbs)
    && (p.confidence.Some? ==> WritableConfidence(c, p.limbs.carried, p.confidence.value))
    && (p.contacts.Some? ==> WritableContacts(p.contacts.value))
    && (p.lookAt.Some? ==> FiniteVector(c, p.lookAt.value))
    && WritableChannels(c, p.channels) && WritableMetadata(c, p.metadata)
  }

  /** The fixed arrays of a pose have an entry a joint. */
  predicate ShapedPose(c: Codec, p: Pose) {
    Limbed(c, p.limbs) && (p.confidence.Some? ==> |p.confidence.value| == |c.joints|)
  }

  predicate ShapedActor(c: Codec, a: Actor) {
    a.pose.Some? ==> ShapedPose(c, a.pose.value)
  }

  predicate WritableActor(c: Codec, a: Actor)
    requires ShapedActor(c, a)
  {
    && c.isText(a.name) && (a.pose.Some? ==> WritablePose(c, a.pose.value))
    && DistinctIds(a.trackers, TrackerId())
    && forall i :: 0 <= i < |a.trackers| ==> WritableTracker(c, a.trackers[i])
  }

  predicate Shaped(c: Codec, f: Frame) {
    forall i :: 0 <= i < |f.actors| ==> ShapedActor(c, f.actors[i])
  }

  /** The frames the writer does not refuse. */
  predicate Writable(c: Codec, f: Frame)
    requires Shaped(c, f)
  {
    && c.isText(f.profile) && WritableTiming(c, f.timing)
    && DistinctIds(f.actors, ActorName())
    && forall i :: 0 <= i < |f.actors| ==> WritableActor(c, f.actors[i])
  }

  // ---- What a frame is written as ----

  function Maybe<T>(o: Option<T>, tree: T -> Value): Option<Value> {
    if o.None? then None else Some(tree(o.value))
  }

  function If<T>(h: Held<T>, tree: T -> Value): Option<Value> {
    if h.has then Some(tree(h.value)) else None
  }

  function CountTree(n: Count): Value {
    Str(T.Decimal(n))
  }

  function FloatTree(c: Codec): Float -> Value {
    (x: Float) => Number(c.writeFloat(x))
  }

  function DoubleTree(c: Codec): Double -> Value {
    (x: Double) => Number(c.writeDouble(x))
  }

  function VectorTree(c: Codec): Vector -> Value {
    (v: Vector) => Arr([FloatTree(c)(v.x), FloatTree(c)(v.y), FloatTree(c)(v.z)])
  }

  function RotationTree(c: Codec): Rotation -> Value {
    (q: Rotation) => Arr([FloatTree(c)(q.w), FloatTree(c)(q.x), FloatTree(c)(q.y), FloatTree(c)(q.z)])
  }

  function WordTree(words: seq<string>, i: nat): Value {
    Str(if i < |words| then words[i] else "")
  }

  function TimingTree(c: Codec, t: Timing): Value {
    Obj(Build(TIMING, [Maybe(t.sourced, DoubleTree(c)), Some(DoubleTree(c)(t.received)), Maybe(t.sequence, CountTree),
                       Some(WordTree(CLOCKS, t.clock))]))
  }

  function RootTree(c: Codec, r: Root): Value {
    Obj(Build(ROOT, [If(r.position, VectorTree(c)), If(r.orientation, RotationTree(c)), If(r.linear, VectorTree(c)),
                     If(r.angular, VectorTree(c))]))
  }

  function LimbValues(c: Codec, l: Limbs): (values: seq<Option<Value>>)
    requires Limbed(c, l)
    ensures |values| == |c.joints|
  {
    seq(|c.joints|, j requires 0 <= j < |c.joints| => if l.carried[j] then Some(RotationTree(c)(l.rotations[j])) else None)
  }

  function LimbsTree(c: Codec, l: Limbs): Value
    requires Limbed(c, l)
  {
    Obj(Build(c.joints, LimbValues(c, l)))
  }

  /** The joints' names in name order. */
  function Names(c: Codec): (names: seq<string>)
    requires JointsInOrder(c)
    ensures |names| == |c.byName|
  {
    seq(|c.byName|, k requires 0 <= k < |c.byName| => c.joints[c.byName[k]])
  }

  function ConfidenceValues(c: Codec, carried: seq<bool>, confidence: seq<Float>): (values: seq<Option<Value>>)
    requires |confidence| == |carried| == |c.joints| && JointsInOrder(c)
    ensures |values| == |c.byName|
  {
    seq(|c.byName|, k requires 0 <= k < |c.byName| =>
      if carried[c.byName[k]] then Some(FloatTree(c)(confidence[c.byName[k]])) else None)
  }

  function ConfidenceTree(c: Codec, carried: seq<bool>, confidence: seq<Float>): Value
    requires |confidence| == |carried| == |c.joints| && JointsInOrder(c)
  {
    Obj(Build(Names(c), ConfidenceValues(c, carried, confidence)))
  }

  function ContactsTree(f: Contacts): Value {
    Obj(Build(CONTACTS, [Some(WordTree(FEET, f.left)), Some(WordTree(FEET, f.right))]))
  }

  function ChannelNames(channels: seq<Channel<Float>>): (names: seq<string>)
    ensures |names| == |channels|
  {
    seq(|channels|, i requires 0 <= i < |channels| => channels[i].name)
  }

  function ChannelValues(c: Codec, channels: seq<Channel<Float>>): (values: seq<Option<Value>>)
    ensures |values| == |channels|
  {
    seq(|channels|, i requires 0 <= i < |channels| => Some(FloatTree(c)(channels[i].weight)))
  }

  function ChannelsTree(c: Codec, channels: seq<Channel<Float>>): Value {
    var sorted := Sorted(channels);
    Obj(Build(ChannelNames(sorted), ChannelValues(c, sorted)))
  }

  function MetadataTree(c: Codec, m: Metadata): Value {
    Obj(Build(METADATA, [Some(WordTree(KINDS, m.kind)), Some(Str(m.provider)), Some(Str(m.protocol)), Some(Str(m.sourceId)),
                         Maybe(m.sourced, DoubleTree(c)), Maybe(m.sequence, CountTree)]))
  }

  function PoseValues(c: Codec, p: Pose): (values: seq<Option<Value>>)
    requires ShapedPose(c, p) && JointsInOrder(c)
    ensures |values| == |POSE|
  {
    [Some(DoubleTree(c)(p.timestamp)), Some(RootTree(c, p.root)), Some(LimbsTree(c, p.limbs)),
     if p.confidence.None? then None else Some(ConfidenceTree(c, p.limbs.carried, p.confidence.value)),
     Maybe(p.contacts, ContactsTree), Maybe(p.lookAt, VectorTree(c)), Some(ChannelsTree(c, p.channels)),
     Some(MetadataTree(c, p.metadata))]
  }

  function PoseTree(c: Codec, p: Pose): Value
    requires ShapedPose(c, p) && JointsInOrder(c)
  {
    Obj(Build(POSE, PoseValues(c, p)))
  }

  function TrackerTree(c: Codec, t: Tracker): Value {
    Obj(Build(TRACKER, [Some(Str(t.trackerId)), If(t.position, VectorTree(c)), If(t.rotation, RotationTree(c)),
                        Maybe(t.confidence, FloatTree(c))]))
  }

  function TrackerTrees(c: Codec, trackers: seq<Tracker>): (elements: seq<Value>)
    ensures |elements| == |trackers|
  {
    seq(|trackers|, i requires 0 <= i < |trackers| => TrackerTree(c, trackers[i]))
  }

  function ActorTree(c: Codec, a: Actor): Value
    requires ShapedActor(c, a) && JointsInOrder(c)
  {
    Obj(Build(ACTOR, [Some(Str(a.name)), if a.pose.None? then None else Some(PoseTree(c, a.pose.value)),
                      Some(Arr(TrackerTrees(c, a.trackers)))]))
  }

  function ActorTrees(c: Codec, actors: seq<Actor>): (elements: seq<Value>)
    requires JointsInOrder(c) && forall i :: 0 <= i < |actors| ==> ShapedActor(c, actors[i])
    ensures |elements| == |actors|
  {
    seq(|actors|, i requires 0 <= i < |actors| => ActorTree(c, actors[i]))
  }

  /** The message a frame is written as. */
  function FrameTree(c: Codec, f: Frame): Value
    requires Shaped(c, f) && JointsInOrder(c)
  {
    Obj(Build(FRAME, [Some(Str(FORMAT)), Some(CountTree(f.number)), Some(Str(f.profile)), Some(TimingTree(c, f.timing)),
                      Some(Arr(ActorTrees(c, f.actors)))]))
  }

  // ---- Reading ----

  function ReadText(v: Value): Option<string> {
    if v.Str? then Some(v.text) else None
  }

  function ReadFloat(c: Codec): Value -> Option<Float> {
    (v: Value) => if v.Number? then c.readFloat(v.text) else None
  }

  function ReadDouble(c: Codec): Value -> Option<Double> {
    (v: Value) => if v.Number? then c.readDouble(v.text) else None
  }

  function ReadCount(v: Value): Option<Count> {
    if v.Str? then ReadCounter(v.text) else None
  }

  function ReadVector(c: Codec): Value -> Option<Vector> {
    (v: Value) =>
      if !v.Arr? || |v.elements| != 3 then None
      else
        var x :- ReadFloat(c)(v.elements[0]);
        var y :- ReadFloat(c)(v.elements[1]);
        var z :- ReadFloat(c)(v.elements[2]);
        Some(Vector(x, y, z))
  }

  function ReadRotation(c: Codec): Value -> Option<Rotation> {
    (v: Value) =>
      if !v.Arr? || |v.elements| != 4 then None
      else
        var w :- ReadFloat(c)(v.elements[0]);
        var x :- ReadFloat(c)(v.elements[1]);
        var y :- ReadFloat(c)(v.elements[2]);
        var z :- ReadFloat(c)(v.elements[3]);
        if c.isUnit(Rotation(w, x, y, z)) then Some(Rotation(w, x, y, z)) else None
  }

  function ReadWord(words: seq<string>, v: Value): Option<nat> {
    if v.Str? then FindWord(words, v.text) else None
  }

  /** A field that may be left out: refused only when it is there and does not read. */
  function May<T>(field: Option<Value>, read: Value -> Option<T>): Option<Option<T>> {
    match field
    case None => Some(None)
    case Some(v) =>
      var x :- read(v);
      Some(Some(x))
  }

  function Hold<T>(field: Option<Value>, read: Value -> Option<T>, unset: T): Option<Held<T>> {
    var x :- May(field, read);
    Some(if x.None? then Held(false, unset) else Held(true, x.value))
  }

  function ReadTiming(c: Codec, v: Value): Option<Timing> {
    if !v.Obj? || !KeysFit(v.members, TIMING, TIMING_NEEDS) then None
    else
      var sourced :- May(Find(v.members, TIMING[0]), ReadDouble(c));
      var received :- ReadDouble(c)(Find(v.members, TIMING[1]).value);
      var sequence :- May(Find(v.members, TIMING[2]), ReadCount);
      var clock :- ReadWord(CLOCKS, Find(v.members, TIMING[3]).value);
      Some(Timing(sourced, received, sequence, clock))
  }

  function ReadRoot(c: Codec, v: Value): Option<Root> {
    if !v.Obj? || !KeysFit(v.members, ROOT, ROOT_NEEDS) then None
    else
      var position :- Hold(Find(v.members, ROOT[0]), ReadVector(c), c.origin);
      var orientation :- Hold(Find(v.members, ROOT[1]), ReadRotation(c), c.rest);
      var linear :- Hold(Find(v.members, ROOT[2]), ReadVector(c), c.origin);
      var angular :- Hold(Find(v.members, ROOT[3]), ReadVector(c), c.origin);
      Some(Root(position, orientation, linear, angular))
  }

  /** A pose's rotations before any joint is read. */
  function Still(c: Codec): (l: Limbs)
    ensures Limbed(c, l)
  {
    Limbs(seq(|c.joints|, _ => c.rest), seq(|c.joints|, _ => false))
  }

  function ReadLimbs(c: Codec, members: seq<Member>, l: Limbs): (r: Option<Limbs>)
    requires Limbed(c, l)
    ensures r.Some? ==> Limbed(c, r.value)
  {
    if members == [] then Some(l)
    else
      var j :- FindWord(c.joints, members[0].key);
      var q :- ReadRotation(c)(members[0].value);
      ReadLimbs(c, members[1..], Limbs(l.rotations[j := q], l.carried[j := true]))
  }

  /** Confidences read so far, and the joints they are for. */
  datatype Confidences = Confidences(values: seq<Float>, present: seq<bool>)

  function NoConfidence(c: Codec): Confidences {
    Confidences(seq(|c.joints|, _ => 0), seq(|c.joints|, _ => false))
  }

  function GatherConfidence(c: Codec, members: seq<Member>, carried: seq<bool>, a: Confidences): (r: Option<Confidences>)
    requires |carried| == |a.values| == |a.present| == |c.joints|
    ensures r.Some? ==> |r.value.values| == |r.value.present| == |c.joints|
  {
    if members == [] then Some(a)
    else
      var j :- FindWord(c.joints, members[0].key);
      if !carried[j] then None
      else
        var x :- ReadFloat(c)(members[0].value);
        GatherConfidence(c, members[1..], carried, Confidences(a.values[j := x], a.present[j := true]))
  }

  /** Confidences for exactly the joints carried, or none. */
  function ReadConfidence(c: Codec, v: Value, carried: seq<bool>): (r: Option<seq<Float>>)
    requires |carried| == |c.joints|
    ensures r.Some? ==> |r.value| == |c.joints|
  {
    if !v.Obj? then None
    else
      var a :- GatherConfidence(c, v.members, carried, NoConfidence(c));
      if forall j :: 0 <= j < |carried| && carried[j] ==> a.present[j] then Some(a.values) else None
  }

  function ReadContacts(v: Value): Option<Contacts> {
    if !v.Obj? || !KeysFit(v.members, CONTACTS, CONTACTS_NEEDS) then None
    else
      var left :- ReadWord(FEET, Find(v.members, CONTACTS[0]).value);
      var right :- ReadWord(FEET, Find(v.members, CONTACTS[1]).value);
      Some(Contacts(left, right))
  }

  function ReadChannels(c: Codec, members: seq<Member>, channels: seq<Channel<Float>>): Option<seq<Channel<Float>>> {
    if members == [] then Some(channels)
    else
      var weight :- ReadFloat(c)(members[0].value);
      ReadChannels(c, members[1..], Put(channels, Channel(members[0].key, weight)))
  }

  function ReadMetadata(c: Codec, v: Value): Option<Metadata> {
    if !v.Obj? || !KeysFit(v.members, METADATA, METADATA_NEEDS) then None
    else
      var kind :- ReadWord(KINDS, Find(v.members, METADATA[0]).value);
      var provider :- ReadText(Find(v.members, METADATA[1]).value);
      var protocol :- ReadText(Find(v.members, METADATA[2]).value);
      var sourceId :- ReadText(Find(v.members, METADATA[3]).value);
      var sourced :- May(Find(v.members, METADATA[4]), ReadDouble(c));
      var sequence :- May(Find(v.members, METADATA[5]), ReadCount);
      Some(Metadata(kind, provider, protocol, sourceId, sourced, sequence))
  }

  function Members(v: Value): Option<seq<Member>> {
    if v.Obj? then Some(v.members) else None
  }

  function MayConfidence(c: Codec, field: Option<Value>, carried: seq<bool>): (r: Option<Option<seq<Float>>>)
    requires |carried| == |c.joints|
    ensures r.Some? && r.value.Some? ==> |r.value.value| == |c.joints|
  {
    match field
    case None => Some(None)
    case Some(v) =>
      var x :- ReadConfidence(c, v, carried);
      Some(Some(x))
  }

  /** A pose from the values of its keys, in the order of the key table. */
  function PoseFrom(c: Codec, fields: seq<Option<Value>>): (r: Option<Pose>)
    requires |fields| == |POSE| && forall i :: 0 <= i < |POSE| && POSE_NEEDS[i] ==> fields[i].Some?
    ensures r.Some? ==> ShapedPose(c, r.value)
  {
    var timestamp :- ReadDouble(c)(fields[0].value);
    var root :- ReadRoot(c, fields[1].value);
    var joints :- Members(fields[2].value);
    var limbs :- ReadLimbs(c, joints, Still(c));
    var confidence :- MayConfidence(c, fields[3], limbs.carried);
    var contacts :- May(fields[4], ReadContacts);
    var lookAt :- May(fields[5], ReadVector(c));
    var weights :- Members(fields[6].value);
    var channels :- ReadChannels(c, weights, []);
    var metadata :- ReadMetadata(c, fields[7].value);
    Some(Pose(timestamp, root, limbs, confidence, contacts, lookAt, channels, metadata))
  }

  /** What an object holds under each key of a table. */
  function Fields(members: seq<Member>, keys: seq<string>): (fields: seq<Option<Value>>)
    ensures |fields| == |keys|
  {
    seq(|keys|, i requires 0 <= i < |keys| => Find(members, keys[i]))
  }

  function ReadPose(c: Codec, v: Value): (r: Option<Pose>)
    ensures r.Some? ==> ShapedPose(c, r.value)
  {
    if !v.Obj? || !KeysFit(v.members, POSE, POSE_NEEDS) then None else PoseFrom(c, Fields(v.members, POSE))
  }

  function ReadTracker(c: Codec): Value -> Option<Tracker> {
    (v: Value) =>
      if !v.Obj? || !KeysFit(v.members, TRACKER, TRACKER_NEEDS) then None
      else
        var trackerId :- ReadText(Find(v.members, TRACKER[0]).value);
        var position :- Hold(Find(v.members, TRACKER[1]), ReadVector(c), c.origin);
        var rotation :- Hold(Find(v.members, TRACKER[2]), ReadRotation(c), c.rest);
        var confidence :- May(Find(v.members, TRACKER[3]), ReadFloat(c));
        Some(Tracker(trackerId, position, rotation, confidence))
  }

  function PoseReader(c: Codec): Value -> Option<Pose> {
    (v: Value) => ReadPose(c, v)
  }

  function ReadTrackers(c: Codec, v: Value): Option<seq<Tracker>> {
    if v.Arr? then ReadListed(v.elements, ReadTracker(c), TrackerId(), {}) else None
  }

  function ReadActor(c: Codec): Value -> Option<Actor> {
    (v: Value) =>
      if !v.Obj? || !KeysFit(v.members, ACTOR, ACTOR_NEEDS) then None
      else
        var name :- ReadText(Find(v.members, ACTOR[0]).value);
        var pose :- May(Find(v.members, ACTOR[1]), PoseReader(c));
        var trackers :- ReadTrackers(c, Find(v.members, ACTOR[2]).value);
        Some(Actor(name, pose, trackers))
  }

  /** A frame, or a refusal: the format is looked at first, and every key at every depth must be known. */
  function ReadFrame(c: Codec, v: Value): Option<Frame> {
    if !v.Obj? || Find(v.members, FRAME[0]) != Some(Str(FORMAT)) || !KeysFit(v.members, FRAME, FRAME_NEEDS) then None
    else
      var number :- ReadCount(Find(v.members, FRAME[1]).value);
      var profile :- ReadText(Find(v.members, FRAME[2]).value);
      var timing :- ReadTiming(c, Find(v.members, FRAME[3]).value);
      var actors :- ReadActors(c, Find(v.members, FRAME[4]).value);
      Some(Frame(number, profile, timing, actors))
  }

  function ReadActors(c: Codec, v: Value): Option<seq<Actor>> {
    if v.Arr? then ReadListed(v.elements, ReadActor(c), ActorName(), {}) else None
  }

  // ---- Normal form ----

  function NormalHeld<T>(h: Held<T>, unset: T): Held<T> {
    if h.has then h else Held(false, unset)
  }

  function NormalRoot(c: Codec, r: Root): Root {
    Root(NormalHeld(r.position, c.origin), NormalHeld(r.orientation, c.rest), NormalHeld(r.linear, c.origin),
         NormalHeld(r.angular, c.origin))
  }

  function NormalLimbs(c: Codec, l: Limbs): (n: Limbs)
    requires Limbed(c, l)
    ensures Limbed(c, n) && n.carried == l.carried
  {
    Limbs(seq(|c.joints|, j requires 0 <= j < |c.joints| => if l.carried[j] then l.rotations[j] else c.rest), l.carried)
  }

  function NormalConfidence(carried: seq<bool>, confidence: seq<Float>): (n: seq<Float>)
    requires |carried| == |confidence|
    ensures |n| == |carried|
  {
    seq(|carried|, j requires 0 <= j < |carried| => if carried[j] then confidence[j] else 0)
  }

  function NormalPose(c: Codec, p: Pose): (n: Pose)
    requires ShapedPose(c, p)
    ensures ShapedPose(c, n)
  {
    p.(root := NormalRoot(c, p.root), limbs := NormalLimbs(c, p.limbs), channels := Sorted(p.channels),
       confidence := if p.confidence.None? then None else Some(NormalConfidence(p.limbs.carried, p.confidence.value)))
  }

  function NormalTracker(c: Codec, t: Tracker): Tracker {
    t.(position := NormalHeld(t.position, c.origin), rotation := NormalHeld(t.rotation, c.rest))
  }

  function NormalTrackers(c: Codec, trackers: seq<Tracker>): (n: seq<Tracker>)
    ensures |n| == |trackers|
  {
    seq(|trackers|, i requires 0 <= i < |trackers| => NormalTracker(c, trackers[i]))
  }

  function NormalActor(c: Codec, a: Actor): (n: Actor)
    requires ShapedActor(c, a)
    ensures ShapedActor(c, n)
  {
    a.(pose := if a.pose.None? then None else Some(NormalPose(c, a.pose.value)),
       trackers := NormalTrackers(c, a.trackers))
  }

  /** What a reader makes of a written frame: unset fields as a frame starts with them, channels in name order. */
  function Normal(c: Codec, f: Frame): (n: Frame)
    requires Shaped(c, f)
    ensures Shaped(c, n)
  {
    f.(actors := seq(|f.actors|, i requires 0 <= i < |f.actors| => NormalActor(c, f.actors[i])))
  }
}
