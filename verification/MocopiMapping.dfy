/**
 The map a skeleton packet yields and the bones a frame yields through it, with the two promises of
 the collapse: the rest pose and every frame stand where the device's own joints stand.
 */
module MocopiMapping {
  import opened Bytes
  import opened Kinematics
  import opened MocopiSkeleton

  /** A decoded transform: whether it names an orientation, and if so its normalised rotation and its offset. */
  datatype Transform<+G, +V> = Transform(orients: bool, rotation: G, offset: V)

  datatype BoneDefinition<+G, +V> = BoneDefinition(boneId: nat, parentBoneId: int, rest: Transform<G, V>)

  datatype BoneRecord<+G, +V> = BoneRecord(boneId: nat, transform: Transform<G, V>)

  datatype Code = UnsupportedJoint | NonFiniteTransform

  datatype Diagnostic = Diagnostic(code: Code, subject: nat, refusal: bool)

  /** `present` and the rest lists are by humanoid bone, `jointRests` by joint. */
  datatype SkeletonMap<+G, +V> = SkeletonMap(
    present: set<nat>,
    restRotations: seq<G>,
    restOffsets: seq<V>,
    jointCount: nat,
    jointRests: seq<V>)

  // ---- From a skeleton packet ----

  /** The joint in position `i` is the rig's: its id, its parent, and a rest that names an orientation. */
  predicate Fits<G, V>(r: Rig, skeleton: seq<BoneDefinition<G, V>>, i: nat)
    requires i < |skeleton| && i < |r.parents|
  {
    skeleton[i].boneId == i && skeleton[i].parentBoneId == r.parents[i] && skeleton[i].rest.orients
  }

  predicate LeadingFits<G, V>(r: Rig, skeleton: seq<BoneDefinition<G, V>>, n: nat)
    requires n <= |skeleton| && n <= |r.parents|
  {
    forall i :: 0 <= i < n ==> Fits(r, skeleton, i)
  }

  /** A joint beyond the rig's own must not claim an id inside it. */
  predicate TrailingFits<G, V>(r: Rig, skeleton: seq<BoneDefinition<G, V>>, n: nat)
    requires |r.parents| <= n <= |skeleton|
  {
    forall i :: |r.parents| <= i < n ==> skeleton[i].boneId >= |r.parents|
  }

  predicate Readable<G, V>(r: Rig, skeleton: seq<BoneDefinition<G, V>>) {
    |r.parents| <= |skeleton| && LeadingFits(r, skeleton, |r.parents|) && TrailingFits(r, skeleton, |skeleton|)
  }

  /** One notice for each joint beyond the rig. */
  function Beyond<G, V>(joints: seq<BoneDefinition<G, V>>): (notices: seq<Diagnostic>)
    ensures |notices| == |joints|
  {
    seq(|joints|, i requires 0 <= i < |joints| => Diagnostic(UnsupportedJoint, joints[i].boneId, false))
  }

  /** The diagnostics of a refused rig: the last names the first joint that disagrees. */
  ghost predicate Blames<G, V>(r: Rig, skeleton: seq<BoneDefinition<G, V>>, notices: seq<Diagnostic>) {
    var n := |r.parents|;
    if |skeleton| < n then notices == [Diagnostic(UnsupportedJoint, |skeleton|, true)]
    else if !LeadingFits(r, skeleton, n) then
      exists i :: 0 <= i < n && LeadingFits(r, skeleton, i) && !Fits(r, skeleton, i)
        && notices == [Diagnostic(FaultCode(r, skeleton, i), skeleton[i].boneId, true)]
    else
      exists i :: n <= i < |skeleton| && TrailingFits(r, skeleton, i) && skeleton[i].boneId < n
        && notices == Beyond(skeleton[n..i]) + [Diagnostic(UnsupportedJoint, skeleton[i].boneId, true)]
  }

  function FaultCode<G, V>(r: Rig, skeleton: seq<BoneDefinition<G, V>>, i: nat): Code
    requires i < |skeleton| && i < |r.parents|
  {
    if skeleton[i].boneId == i && skeleton[i].parentBoneId == r.parents[i] then NonFiniteTransform
    else UnsupportedJoint
  }

  function RestOf<G(!new), V(!new)>(s: Space<G, V>, skeleton: seq<BoneDefinition<G, V>>): nat -> Rigid<G, V> {
    (j: nat) => if j < |skeleton| then Rigid(skeleton[j].rest.rotation, skeleton[j].rest.offset) else Motions(s).one
  }

  /** The humanoid bones carried by the rig's first `n` joints. */
  function Carried(r: Rig, n: nat): set<nat>
    requires n <= |r.bones|
  {
    set j | 0 <= j < n && r.bones[j].Some? :: r.bones[j].value
  }

  /** What the map holds for the rig's first `n` joints, and for no other. */
  ghost predicate RestsUpTo<G(!new), V(!new)>(s: Space<G, V>, r: Rig, skeleton: seq<BoneDefinition<G, V>>,
                                              rotations: seq<G>, offsets: seq<V>, present: set<nat>, n: nat)
    requires IsRig(r) && n <= |r.parents|
  {
    && |rotations| == |offsets| == r.slots
    && present == Carried(r, n)
    && (forall j :: 0 <= j < n && Binds(r, j) ==>
          Rigid(rotations[r.bones[j].value], offsets[r.bones[j].value])
          == Product(Motions(s), Along(RestOf(s, skeleton), Path(r, j))))
    && forall slot :: 0 <= slot < r.slots && slot !in present ==>
         Rigid(rotations[slot], offsets[slot]) == Motions(s).one
  }

  ghost predicate IsMapOf<G(!new), V(!new)>(s: Space<G, V>, r: Rig, skeleton: seq<BoneDefinition<G, V>>,
                                            m: SkeletonMap<G, V>)
    requires IsRig(r)
  {
    && m.jointCount == |skeleton| >= |r.parents| == |m.jointRests|
    && (forall j :: 0 <= j < |r.parents| ==> m.jointRests[j] == skeleton[j].rest.offset)
    && RestsUpTo(s, r, skeleton, m.restRotations, m.restOffsets, m.present, |r.parents|)
  }

  /** The rest transforms along one path, composed as the offsets and the rotations are met. */
  method ComposeRest<G(!new), V(!new)>(s: Space<G, V>, r: Rig, skeleton: seq<BoneDefinition<G, V>>, path: seq<nat>)
    returns (rotation: G, offset: V)
    requires IsRig(r) && |r.parents| <= |skeleton| && Within(path, |r.parents|)
    ensures Rigid(rotation, offset) == Product(Motions(s), Along(RestOf(s, skeleton), path))
  {
    rotation, offset := s.rotations.one, s.offsets.one;
    for step := 0 to |path|
      invariant Rigid(rotation, offset) == Product(Motions(s), Along(RestOf(s, skeleton), path[..step]))
    {
      var rest := skeleton[path[step]].rest;
      offset := s.offsets.mul(offset, s.turn(rotation, rest.offset));
      rotation := s.rotations.mul(rotation, rest.rotation);
      var along := Along(RestOf(s, skeleton), path[..step + 1]);
      assert along[..step] == Along(RestOf(s, skeleton), path[..step]);
    }
    assert path[..|path|] == path;
  }

  method MakeSkeletonMap<G(!new), V(!new)>(s: Space<G, V>, r: Rig, paths: seq<seq<nat>>,
                                           skeleton: seq<BoneDefinition<G, V>>)
    returns (out: Option<SkeletonMap<G, V>>, diagnostics: seq<Diagnostic>)
    requires IsRig(r) && |paths| == |r.parents|
    requires forall j :: 0 <= j < |paths| ==> paths[j] == Path(r, j)
    ensures out.Some? <==> Readable(r, skeleton)
    ensures out.Some? ==> IsMapOf(s, r, skeleton, out.value) && diagnostics == Beyond(skeleton[|r.parents|..])
    ensures out.None? ==> Blames(r, skeleton, diagnostics)
  {
    var n := |r.parents|;
    diagnostics := [];
    if |skeleton| < n {
      return None, [Diagnostic(UnsupportedJoint, |skeleton|, true)];
    }
    for index := 0 to n
      invariant LeadingFits(r, skeleton, index)
    {
      var joint := skeleton[index];
      assert Fits(r, skeleton, index)
        <==> (joint.boneId == index && joint.parentBoneId == r.parents[index] && joint.rest.orients);
      if joint.boneId != index || joint.parentBoneId != r.parents[index] {
        return None, [Diagnostic(UnsupportedJoint, joint.boneId, true)];
      }
      if !joint.rest.orients {
        return None, [Diagnostic(NonFiniteTransform, joint.boneId, true)];
      }
    }
    for index := n to |skeleton|
      invariant TrailingFits(r, skeleton, index) && diagnostics == Beyond(skeleton[n..index])
    {
      var joint := skeleton[index];
      if joint.boneId < n {
        diagnostics := diagnostics + [Diagnostic(UnsupportedJoint, joint.boneId, true)];
        return None, diagnostics;
      }
      diagnostics := diagnostics + [Diagnostic(UnsupportedJoint, joint.boneId, false)];
      assert skeleton[n..index + 1] == skeleton[n..index] + [joint];
    }
    assert skeleton[n..] == skeleton[n..|skeleton|];
    var jointRests := seq(n, j requires 0 <= j < n => skeleton[j].rest.offset);
    var rotations, offsets, present := RestPose(s, r, paths, skeleton);
    out := Some(SkeletonMap(present, rotations, offsets, |skeleton|, jointRests));
  }

  lemma OneMoreRest<G(!new), V(!new)>(s: Space<G, V>, r: Rig, skeleton: seq<BoneDefinition<G, V>>,
                                      rotations: seq<G>, offsets: seq<V>, present: set<nat>, j: nat)
    requires IsRig(r) && j < |r.parents| <= |skeleton| && RestsUpTo(s, r, skeleton, rotations, offsets, present, j)
    ensures |rotations| == |offsets| == r.slots
    ensures Binds(r, j) ==>
              var slot, rest := r.bones[j].value, Product(Motions(s), Along(RestOf(s, skeleton), Path(r, j)));
              RestsUpTo(s, r, skeleton, rotations[slot := rest.rotation], offsets[slot := rest.offset], present + {slot}, j + 1)
    ensures !Binds(r, j) ==> RestsUpTo(s, r, skeleton, rotations, offsets, present, j + 1)
  {
    hide Product, Along, Path, RestOf, Motions;
    if Binds(r, j) {
      assert forall i :: 0 <= i < j && Binds(r, i) ==> r.bones[i].value != r.bones[j].value;
    }
  }

  method RestPose<G(!new), V(!new)>(s: Space<G, V>, r: Rig, paths: seq<seq<nat>>, skeleton: seq<BoneDefinition<G, V>>)
    returns (rotations: seq<G>, offsets: seq<V>, present: set<nat>)
    requires IsRig(r) && |paths| == |r.parents| <= |skeleton|
    requires forall j :: 0 <= j < |paths| ==> paths[j] == Path(r, j)
    ensures RestsUpTo(s, r, skeleton, rotations, offsets, present, |r.parents|)
  {
    hide Product, Along, Path, RestOf;
    var restRotations := new G[r.slots](_ => s.rotations.one);
    var restOffsets := new V[r.slots](_ => s.offsets.one);
    present := {};
    assert RestsUpTo(s, r, skeleton, restRotations[..], restOffsets[..], present, 0);
    hide RestsUpTo;
    for jointId := 0 to |r.parents|
      invariant RestsUpTo(s, r, skeleton, restRotations[..], restOffsets[..], present, jointId)
    {
      OneMoreRest(s, r, skeleton, restRotations[..], restOffsets[..], present, jointId);
      if Binds(r, jointId) {
        var rotation, offset := ComposeRest(s, r, skeleton, paths[jointId]);
        var slot := r.bones[jointId].value;
        ghost var before, beforeOffsets := restRotations[..], restOffsets[..];
        present := present + {slot};
        restRotations[slot] := rotation;
        restOffsets[slot] := offset;
        assert restRotations[..] == before[slot := rotation] && restOffsets[..] == beforeOffsets[slot := offset];
      }
    }
    rotations, offsets := restRotations[..], restOffsets[..];
  }

  /**
   The rest pose survives the collapse: down to every bound joint, the humanoid's rest transforms
   compose to what the device's own rest transforms compose to.
   */
  lemma RestIsPreserved<G(!new), V(!new)>(s: Space<G, V>, r: Rig, skeleton: seq<BoneDefinition<G, V>>,
                                          m: SkeletonMap<G, V>, j: nat)
    requires IsSpace(s) && IsRig(r) && IsMapOf(s, r, skeleton, m) && j < |r.parents| && Binds(r, j)
    ensures Product(Motions(s), Along(HumanoidRest(s, r, m), Bound(r, Chain(r.parents, j))))
         == Product(Motions(s), Along(RestOf(s, skeleton), Chain(r.parents, j)))
  {
    hide IsSpace, IsMonoid, Product, Along, Path, Bound, Motions;
    MotionsCompose(s);
    CollapseKeepsTheWorld(Motions(s), r, j, RestOf(s, skeleton), HumanoidRest(s, r, m));
  }

  /** The map's rest transform of the bone a joint carries. */
  function HumanoidRest<G(!new), V(!new)>(s: Space<G, V>, r: Rig, m: SkeletonMap<G, V>): nat -> Rigid<G, V> {
    (j: nat) =>
         if j < |r.bones| && r.bones[j].Some? && r.bones[j].value < |m.restRotations| && r.bones[j].value < |m.restOffsets|
         then Rigid(m.restRotations[r.bones[j].value], m.restOffsets[r.bones[j].value])
         else Motions(s).one
  }

  // ---- From a frame ----

  /** The first record of joint `id` that names an orientation: the one record a frame is read through. */
  function RecordOf<G, V>(frame: seq<BoneRecord<G, V>>, id: nat): (t: Option<Transform<G, V>>)
    ensures t.Some? ==> t.value.orients
  {
    if frame == [] then None
    else
      var before, last := RecordOf(frame[..|frame| - 1], id), frame[|frame| - 1];
      if before.Some? || last.boneId != id || !last.transform.orients then before else Some(last.transform)
  }

  lemma {:induction false} FirstUsableRecordIsRead<G, V>(frame: seq<BoneRecord<G, V>>, id: nat, i: nat)
    requires i < |frame| && frame[i].boneId == id && frame[i].transform.orients
    requires forall k :: 0 <= k < i ==> frame[k].boneId != id || !frame[k].transform.orients
    ensures RecordOf(frame, id) == Some(frame[i].transform)
  {
    var front := frame[..|frame| - 1];
    if i < |front| {
      FirstUsableRecordIsRead(front, id, i);
    } else {
      NoUsableRecord(front, id);
    }
  }

  lemma {:induction false} NoUsableRecord<G, V>(frame: seq<BoneRecord<G, V>>, id: nat)
    requires forall k :: 0 <= k < |frame| ==> frame[k].boneId != id || !frame[k].transform.orients
    ensures RecordOf(frame, id).None?
  {
    if frame != [] {
      NoUsableRecord(frame[..|frame| - 1], id);
    }
  }

  /** A joint of the rig that the session's skeleton packet declared. */
  predicate Declared(r: Rig, jointCount: nat, id: nat) {
    id < |r.parents| && id < jointCount
  }

  /** What becomes of a frame's last record. */
  datatype Fate = Unused | Unoriented | Read

  function FateOfLast<G, V>(r: Rig, jointCount: nat, frame: seq<BoneRecord<G, V>>): Fate
    requires frame != []
  {
    var last := frame[|frame| - 1];
    if !Declared(r, jointCount, last.boneId) || RecordOf(frame[..|frame| - 1], last.boneId).Some? then Unused
    else if !last.transform.orients then Unoriented
    else Read
  }

  function FateCount<G, V>(r: Rig, jointCount: nat, frame: seq<BoneRecord<G, V>>, fate: Fate): nat {
    if frame == [] then 0
    else FateCount(r, jointCount, frame[..|frame| - 1], fate) + if FateOfLast(r, jointCount, frame) == fate then 1 else 0
  }

  /** Every record of a frame is read, unused or refused. */
  lemma {:induction false} EveryRecordHasAFate<G, V>(r: Rig, jointCount: nat, frame: seq<BoneRecord<G, V>>)
    ensures FateCount(r, jointCount, frame, Read) + FateCount(r, jointCount, frame, Unused)
          + FateCount(r, jointCount, frame, Unoriented) == |frame|
  {
    if frame != [] {
      EveryRecordHasAFate(r, jointCount, frame[..|frame| - 1]);
    }
  }

  function RecordsOf<G, V>(r: Rig, jointCount: nat, frame: seq<BoneRecord<G, V>>): (records: seq<Option<Transform<G, V>>>)
    ensures |records| == |r.parents|
  {
    seq(|r.parents|, j requires 0 <= j < |r.parents| =>
      if Declared(r, jointCount, j) then RecordOf(frame, j) else None)
  }

  /** A path is as present as its joints. */
  predicate Arrived<T>(records: seq<Option<T>>, joints: seq<nat>) {
    forall i :: 0 <= i < |joints| ==> joints[i] < |records| && records[joints[i]].Some?
  }

  function RotationOf<G(!new), V>(one: G, records: seq<Option<Transform<G, V>>>): nat -> G {
    (j: nat) => if j < |records| && records[j].Some? then records[j].value.rotation else one
  }

  datatype BoneSample<+G> = BoneSample(bone: nat, rotation: G)

  datatype Mapping<+G, +V> = Mapping(
    bones: seq<BoneSample<G>>,
    present: set<nat>,
    hips: Option<V>,
    unusedJoints: nat,
    droppedTranslations: nat,
    missingJoints: nat)

  /** How many of joints 1..n say their offset left its rest. */
  function Dropped<G, V(==)>(rests: seq<V>, records: seq<Option<Transform<G, V>>>, n: nat): nat
    requires n <= |records| && |rests| == |records|
  {
    if n <= 1 then 0
    else
      var left := records[n - 1].Some? && records[n - 1].value.offset != rests[n - 1];
      Dropped(rests, records, n - 1) + if left then 1 else 0
  }

  /** How many of the first `n` joints carry a bone that did not arrive. */
  function Missing<G, V>(r: Rig, jointCount: nat, records: seq<Option<Transform<G, V>>>, n: nat): nat
    requires IsRig(r) && n <= |r.parents|
  {
    if n == 0 then 0
    else
      var lost := Binds(r, n - 1) && n - 1 < jointCount && !Arrived(records, Path(r, n - 1));
      Missing(r, jointCount, records, n - 1) + if lost then 1 else 0
  }

  /** The bones whose whole paths arrived, among the first `n` joints. */
  function Formed<G, V>(r: Rig, jointCount: nat, records: seq<Option<Transform<G, V>>>, n: nat): set<nat>
    requires IsRig(r) && n <= |r.parents|
  {
    set j | 0 <= j < n && j < jointCount && Binds(r, j) && Arrived(records, Path(r, j)) :: r.bones[j].value
  }

  /** The rotations composed so far, by bone. */
  ghost predicate ComposedUpTo<G(!new), V(!new)>(rotations: Monoid<G>, r: Rig, jointCount: nat,
                                                 records: seq<Option<Transform<G, V>>>, composed: seq<G>, n: nat)
    requires IsRig(r) && n <= |r.parents|
  {
    && |composed| == r.slots
    && forall j :: 0 <= j < n && j < jointCount && Binds(r, j) && Arrived(records, Path(r, j)) ==>
         composed[r.bones[j].value] == Product(rotations, Along(RotationOf(rotations.one, records), Path(r, j)))
  }

  /** Samples in bone order, one for each present bone. */
  ghost predicate Sampled<G(!new)>(samples: seq<BoneSample<G>>, present: set<nat>, composed: seq<G>, slots: nat)
    requires slots <= |composed|
  {
    && (forall i :: 0 <= i < |samples| ==>
          samples[i].bone < slots && samples[i].bone in present && samples[i].rotation == composed[samples[i].bone])
    && (forall i, k :: 0 <= i < k < |samples| ==> samples[i].bone < samples[k].bone)
    && forall slot :: 0 <= slot < slots && slot in present ==> exists i :: 0 <= i < |samples| && samples[i].bone == slot
  }

  ghost predicate IsMappingOf<G(!new), V(!new)>(rotations: Monoid<G>, r: Rig, m: SkeletonMap<G, V>,
                                                frame: seq<BoneRecord<G, V>>, mapping: Mapping<G, V>)
    requires IsRig(r) && |m.jointRests| == |r.parents|
  {
    var records := RecordsOf(r, m.jointCount, frame);
    && mapping.hips == (if records[0].Some? then Some(records[0].value.offset) else None)
    && mapping.unusedJoints == FateCount(r, m.jointCount, frame, Unused)
    && mapping.droppedTranslations == Dropped(m.jointRests, records, |records|)
    && mapping.missingJoints == Missing(r, m.jointCount, records, |r.parents|)
    && mapping.present == Formed(r, m.jointCount, records, |r.parents|)
    && exists composed ::
         ComposedUpTo(rotations, r, m.jointCount, records, composed, |r.parents|)
         && Sampled(mapping.bones, mapping.present, composed, r.slots)
  }

  lemma NothingFormed<G(!new), V(!new)>(rotations: Monoid<G>, r: Rig, jointCount: nat, records: seq<Option<Transform<G, V>>>)
    requires IsRig(r)
    ensures Formed(r, jointCount, records, 0) == {}
    ensures forall composed: seq<G> :: |composed| == r.slots ==> ComposedUpTo(rotations, r, jointCount, records, composed, 0)
  {
  }

  /** One more joint: its bone is formed, with the rotation composed along its path, or nothing changes. */
  lemma OneMoreJoint<G(!new), V(!new)>(rotations: Monoid<G>, r: Rig, jointCount: nat, records: seq<Option<Transform<G, V>>>,
                                       composed: seq<G>, n: nat)
    requires IsRig(r) && n < |r.parents| && ComposedUpTo(rotations, r, jointCount, records, composed, n)
    ensures var forms := n < jointCount && Binds(r, n) && Arrived(records, Path(r, n));
            if forms then
              && r.bones[n].value < r.slots
              && Formed(r, jointCount, records, n + 1) == Formed(r, jointCount, records, n) + {r.bones[n].value}
              && ComposedUpTo(rotations, r, jointCount, records,
                              composed[r.bones[n].value :=
                                Product(rotations, Along(RotationOf(rotations.one, records), Path(r, n)))], n + 1)
            else
              && Formed(r, jointCount, records, n + 1) == Formed(r, jointCount, records, n)
              && ComposedUpTo(rotations, r, jointCount, records, composed, n + 1)
  {
    hide Product, Along, Path, RotationOf, Arrived;
  }

  method ReadRecords<G, V>(r: Rig, jointCount: nat, frame: seq<BoneRecord<G, V>>)
    returns (records: seq<Option<Transform<G, V>>>, unused: nat, refused: seq<Diagnostic>)
    ensures records == RecordsOf(r, jointCount, frame)
    ensures unused == FateCount(r, jointCount, frame, Unused)
    ensures |refused| == FateCount(r, jointCount, frame, Unoriented)
  {
    var slots := new Option<Transform<G, V>>[|r.parents|](_ => None);
    unused, refused := 0, [];
    for i := 0 to |frame|
      invariant slots[..] == RecordsOf(r, jointCount, frame[..i])
      invariant unused == FateCount(r, jointCount, frame[..i], Unused)
      invariant |refused| == FateCount(r, jointCount, frame[..i], Unoriented)
    {
      var bone := frame[i];
      assert frame[..i + 1][..i] == frame[..i];
      if !Declared(r, jointCount, bone.boneId) {
        unused := unused + 1;
      } else if slots[bone.boneId].Some? {
        unused := unused + 1;
      } else if !bone.transform.orients {
        refused := refused + [Diagnostic(NonFiniteTransform, bone.boneId, false)];
      } else {
        slots[bone.boneId] := Some(bone.transform);
      }
    }
    assert frame[..|frame|] == frame;
    records := slots[..];
  }

  /** The rotations along a path, from the root down, unless one of its joints is missing. */
  method ComposePath<G(!new), V(!new)>(rotations: Monoid<G>, records: seq<Option<Transform<G, V>>>, path: seq<nat>)
    returns (complete: bool, rotation: G)
    requires Within(path, |records|)
    ensures complete <==> Arrived(records, path)
    ensures complete ==> rotation == Product(rotations, Along(RotationOf(rotations.one, records), path))
  {
    rotation := rotations.one;
    for step := 0 to |path|
      invariant Arrived(records, path[..step])
      invariant rotation == Product(rotations, Along(RotationOf(rotations.one, records), path[..step]))
    {
      var record := records[path[step]];
      if record.None? {
        return false, rotation;
      }
      rotation := rotations.mul(rotation, record.value.rotation);
      var along := Along(RotationOf(rotations.one, records), path[..step + 1]);
      assert along[..step] == Along(RotationOf(rotations.one, records), path[..step]);
    }
    assert path[..|path|] == path;
    complete := true;
  }

  method MapMotionFrame<G(!new), V(!new, ==)>(rotations: Monoid<G>, r: Rig, paths: seq<seq<nat>>, m: SkeletonMap<G, V>,
                                              frame: seq<BoneRecord<G, V>>)
    returns (mapped: bool, mapping: Mapping<G, V>, refused: seq<Diagnostic>)
    requires IsRig(r) && |paths| == |r.parents| == |m.jointRests|
    requires forall j :: 0 <= j < |paths| ==> paths[j] == Path(r, j)
    ensures IsMappingOf(rotations, r, m, frame, mapping)
    ensures mapped <==> mapping.bones != []
    ensures |refused| == FateCount(r, m.jointCount, frame, Unoriented)
  {
    hide Product, Along, Path, RotationOf, Arrived, RecordsOf, FateCount, Formed, ComposedUpTo, Sampled, IsRig;
    RigIsOrdered(r);
    NothingFormed(rotations, r, m.jointCount, RecordsOf(r, m.jointCount, frame));
    var records, unused, notices := ReadRecords(r, m.jointCount, frame);
    refused := notices;
    var hips := if records[0].Some? then Some(records[0].value.offset) else None;
    var dropped := 0;
    for jointId := 1 to |r.parents|
      invariant dropped == Dropped(m.jointRests, records, jointId)
    {
      if records[jointId].Some? && records[jointId].value.offset != m.jointRests[jointId] {
        dropped := dropped + 1;
      }
    }
    var composed := new G[r.slots](_ => rotations.one);
    var present, missing := {}, 0;
    for jointId := 0 to |r.parents|
      invariant ComposedUpTo(rotations, r, m.jointCount, records, composed[..], jointId)
      invariant present == Formed(r, m.jointCount, records, jointId)
      invariant missing == Missing(r, m.jointCount, records, jointId)
    {
      OneMoreJoint(rotations, r, m.jointCount, records, composed[..], jointId);
      if Binds(r, jointId) && jointId < m.jointCount {
        var complete, rotation := ComposePath(rotations, records, paths[jointId]);
        if complete {
          var slot := r.bones[jointId].value;
          composed[slot] := rotation;
          present := present + {slot};
        } else {
          missing := missing + 1;
        }
      }
    }
    var bones := Emit(present, composed[..], r.slots);
    mapping := Mapping(bones, present, hips, unused, dropped, missing);
    mapped := bones != [];
  }

  lemma OneMoreSample<G(!new)>(bones: seq<BoneSample<G>>, present: set<nat>, composed: seq<G>, slot: nat)
    requires slot < |composed| && Sampled(bones, present, composed, slot)
    ensures slot in present ==> Sampled(bones + [BoneSample(slot, composed[slot])], present, composed, slot + 1)
    ensures slot !in present ==> Sampled(bones, present, composed, slot + 1)
  {
    if slot in present {
      var more := bones + [BoneSample(slot, composed[slot])];
      assert more[|bones|].bone == slot;
      forall other | 0 <= other < slot && other in present
        ensures exists i :: 0 <= i < |more| && more[i].bone == other
      {
        var i :| 0 <= i < |bones| && bones[i].bone == other;
        assert more[i].bone == other;
      }
    }
  }

  method Emit<G(!new)>(present: set<nat>, composed: seq<G>, slots: nat) returns (bones: seq<BoneSample<G>>)
    requires slots == |composed|
    ensures Sampled(bones, present, composed, slots)
  {
    bones := [];
    assert Sampled(bones, present, composed, 0);
    hide Sampled;
    for slot := 0 to slots
      invariant Sampled(bones, present, composed, slot)
    {
      OneMoreSample(bones, present, composed, slot);
      if slot in present {
        bones := bones + [BoneSample(slot, composed[slot])];
      }
    }
  }

  // ---- What a frame promises ----

  lemma FormedStep<G, V>(r: Rig, jointCount: nat, records: seq<Option<Transform<G, V>>>, j: nat)
    requires IsRig(r) && j < |r.parents|
    ensures var forms := j < jointCount && Binds(r, j) && Arrived(records, Path(r, j));
            Formed(r, jointCount, records, j + 1)
            == Formed(r, jointCount, records, j) + if forms then {r.bones[j].value} else {}
    ensures Binds(r, j) ==> r.bones[j].value !in Formed(r, jointCount, records, j)
  {
    hide Path, Arrived;
  }

  lemma CarriedStep(r: Rig, j: nat)
    requires IsRig(r) && j < |r.parents|
    ensures Carried(r, j + 1) == Carried(r, j) + if Binds(r, j) then {r.bones[j].value} else {}
    ensures Binds(r, j) ==> r.bones[j].value !in Carried(r, j)
  {
  }

  lemma FormedCount<G, V>(r: Rig, jointCount: nat, records: seq<Option<Transform<G, V>>>, j: nat)
    requires IsRig(r) && j < |r.parents|
    ensures |Formed(r, jointCount, records, j + 1)|
         == |Formed(r, jointCount, records, j)| + if j < jointCount && Binds(r, j) && Arrived(records, Path(r, j)) then 1 else 0
  {
    hide Path, Arrived, Formed;
    FormedStep(r, jointCount, records, j);
  }

  lemma CarriedCount(r: Rig, j: nat)
    requires IsRig(r) && j < |r.parents|
    ensures |Carried(r, j + 1)| == |Carried(r, j)| + if Binds(r, j) then 1 else 0
  {
    hide Carried;
    CarriedStep(r, j);
  }

  /** Every bone the rig carries and the session declared is formed or counted missing. */
  lemma {:induction false} FormedOrMissing<G, V>(r: Rig, jointCount: nat, records: seq<Option<Transform<G, V>>>, n: nat)
    requires IsRig(r) && n <= |r.parents|
    ensures |Formed(r, jointCount, records, n)| + Missing(r, jointCount, records, n)
         == |Carried(r, if n < jointCount then n else jointCount)|
  {
    hide Path, Arrived, Formed, Carried, IsRig;
    if n > 0 {
      FormedOrMissing(r, jointCount, records, n - 1);
      FormedCount(r, jointCount, records, n - 1);
      if n - 1 < jointCount {
        CarriedCount(r, n - 1);
      }
    } else {
      NoneFormed(r, jointCount, records);
    }
  }

  lemma NoneFormed<G, V>(r: Rig, jointCount: nat, records: seq<Option<Transform<G, V>>>)
    requires IsRig(r)
    ensures Formed(r, jointCount, records, 0) == {} == Carried(r, 0)
  {
  }

  function SampleOf<G>(samples: seq<BoneSample<G>>, bone: nat): Option<G> {
    if samples == [] then None
    else if samples[0].bone == bone then Some(samples[0].rotation)
    else SampleOf(samples[1..], bone)
  }

  lemma {:induction false} SampleFound<G>(samples: seq<BoneSample<G>>, i: nat)
    requires i < |samples|
    requires forall k, l :: 0 <= k < l < |samples| ==> samples[k].bone < samples[l].bone
    ensures SampleOf(samples, samples[i].bone) == Some(samples[i].rotation)
  {
    if i > 0 {
      SampleFound(samples[1..], i - 1);
    }
  }

  /** The rotation a mapping gives the bone that a joint carries. */
  function MappedRotation<G(!new), V>(one: G, r: Rig, mapping: Mapping<G, V>): nat -> G {
    (j: nat) =>
      if j < |r.bones| && r.bones[j].Some? && SampleOf(mapping.bones, r.bones[j].value).Some?
      then SampleOf(mapping.bones, r.bones[j].value).value
      else one
  }

  /** The chain of a joint on a chain is the beginning of that chain. */
  lemma {:induction false} ChainsNest(parents: seq<int>, j: nat, k: nat)
    requires Ordered(parents) && j < |parents| && k in Chain(parents, j)
    ensures k < |parents| && Chain(parents, k) <= Chain(parents, j)
  {
    if k != j {
      assert k in Above(parents, j);
      ChainsNest(parents, parents[j], k);
    }
  }

  /** When a joint's chain arrived, so did the path of every bound joint on it. */
  lemma ChainCarriesPaths<T>(r: Rig, records: seq<Option<T>>, j: nat, k: nat)
    requires IsRig(r) && j < |r.parents| && k in Chain(r.parents, j)
    requires Arrived(records, Chain(r.parents, j))
    ensures k < |r.parents| && Arrived(records, Path(r, k))
  {
    hide Above, Bound, Paths;
    ChainsNest(r.parents, j, k);
    PathsReach(r, k);
    var before := Concat(Paths(r, Bound(r, Above(r.parents, k))));
    forall i | 0 <= i < |Path(r, k)|
      ensures Path(r, k)[i] < |records| && records[Path(r, k)[i]].Some?
    {
      assert Path(r, k)[i] == Chain(r.parents, k)[|before| + i] == Chain(r.parents, j)[|before| + i];
    }
  }

  lemma MappedIsComposed<G(!new), V(!new)>(rotations: Monoid<G>, r: Rig, m: SkeletonMap<G, V>,
                                           frame: seq<BoneRecord<G, V>>, mapping: Mapping<G, V>, k: nat)
    requires IsRig(r) && |m.jointRests| == |r.parents| && IsMappingOf(rotations, r, m, frame, mapping)
    requires k < |r.parents| && k < m.jointCount && Binds(r, k)
    requires Arrived(RecordsOf(r, m.jointCount, frame), Path(r, k))
    ensures r.bones[k].value in mapping.present
    ensures MappedRotation(rotations.one, r, mapping)(k)
         == Product(rotations, Along(RotationOf(rotations.one, RecordsOf(r, m.jointCount, frame)), Path(r, k)))
  {
    hide Product, Along, Path, RotationOf, Arrived, RecordsOf, FateCount, Missing, Dropped;
    var records := RecordsOf(r, m.jointCount, frame);
    var slot := r.bones[k].value;
    var composed :|
      ComposedUpTo(rotations, r, m.jointCount, records, composed, |r.parents|)
      && Sampled(mapping.bones, mapping.present, composed, r.slots);
    assert slot in Formed(r, m.jointCount, records, |r.parents|);
    assert slot < r.slots;
    var i :| 0 <= i < |mapping.bones| && mapping.bones[i].bone == slot;
    SampleFound(mapping.bones, i);
  }

  /**
   Every frame survives the collapse: down to every bound joint whose chain arrived, the humanoid's
   rotations compose to the world rotation that the device's own joints compose to.
   */
  lemma FrameIsPreserved<G(!new), V(!new)>(rotations: Monoid<G>, r: Rig, m: SkeletonMap<G, V>,
                                           frame: seq<BoneRecord<G, V>>, mapping: Mapping<G, V>, j: nat)
    requires IsMonoid(rotations) && IsRig(r) && |m.jointRests| == |r.parents|
    requires IsMappingOf(rotations, r, m, frame, mapping)
    requires j < |r.parents| && Binds(r, j) && Arrived(RecordsOf(r, m.jointCount, frame), Chain(r.parents, j))
    ensures forall k :: k in Bound(r, Chain(r.parents, j)) ==> (k < |r.parents| && r.bones[k].value in mapping.present)
    ensures Product(rotations, Along(MappedRotation(rotations.one, r, mapping), Bound(r, Chain(r.parents, j))))
         == Product(rotations, Along(RotationOf(rotations.one, RecordsOf(r, m.jointCount, frame)), Chain(r.parents, j)))
  {
    var records := RecordsOf(r, m.jointCount, frame);
    var source, collapsed := RotationOf(rotations.one, records), MappedRotation(rotations.one, r, mapping);
    forall k | k in Bound(r, Chain(r.parents, j))
      ensures k < |r.parents| && r.bones[k].value in mapping.present
      ensures collapsed(k) == Product(rotations, Along(source, Path(r, k)))
    {
      hide Product, Along, Path, Bound, Chain, RotationOf, MappedRotation, IsMappingOf;
      ChainCarriesPaths(r, records, j, k);
      assert Path(r, k)[|Path(r, k)| - 1] == k;
      assert k < m.jointCount;
      MappedIsComposed(rotations, r, m, frame, mapping, k);
    }
    hide Product, Along, Path, Bound, Chain, RotationOf, MappedRotation, IsMappingOf;
    CollapseKeepsTheWorld(rotations, r, j, source, collapsed);
  }

  // ---- The rig that was measured ----

  datatype HumanJoint =
    | Hips | Spine | Chest | UpperChest | Neck | Head
    | LeftShoulder | LeftUpperArm | LeftLowerArm | LeftHand
    | RightShoulder | RightUpperArm | RightLowerArm | RightHand
    | LeftUpperLeg | LeftLowerLeg | LeftFoot | LeftToes
    | RightUpperLeg | RightLowerLeg | RightFoot | RightToes

  const MEASURED_PARENTS: seq<int> :=
    [-1, 0, 1, 2, 3, 4, 5, 6, 7, 8, 9, 7, 11, 12, 13, 7, 15, 16, 17, 0, 19, 20, 21, 0, 23, 24, 25]

  const MEASURED_BONES: seq<Option<HumanJoint>> := [
    Some(Hips), None, Some(Spine), None, Some(Chest), None, None, Some(UpperChest), Some(Neck), None, Some(Head),
    Some(LeftShoulder), Some(LeftUpperArm), Some(LeftLowerArm), Some(LeftHand),
    Some(RightShoulder), Some(RightUpperArm), Some(RightLowerArm), Some(RightHand),
    Some(LeftUpperLeg), Some(LeftLowerLeg), Some(LeftFoot), Some(LeftToes),
    Some(RightUpperLeg), Some(RightLowerLeg), Some(RightFoot), Some(RightToes)]

  /** The measured rig, for whatever numbers the humanoid vocabulary gives its bones. */
  function Measured(number: HumanJoint -> nat, slots: nat): Rig {
    Rig(MEASURED_PARENTS,
        seq(|MEASURED_BONES|, j requires 0 <= j < |MEASURED_BONES| =>
          if MEASURED_BONES[j].Some? then Some(number(MEASURED_BONES[j].value)) else None),
        slots)
  }

  /** Where in the measured rig a bone stands. */
  function PlaceOf(bone: HumanJoint): nat {
    match bone
    case Hips => 0
    case Spine => 2
    case Chest => 4
    case UpperChest => 7
    case Neck => 8
    case Head => 10
    case LeftShoulder => 11
    case LeftUpperArm => 12
    case LeftLowerArm => 13
    case LeftHand => 14
    case RightShoulder => 15
    case RightUpperArm => 16
    case RightLowerArm => 17
    case RightHand => 18
    case LeftUpperLeg => 19
    case LeftLowerLeg => 20
    case LeftFoot => 21
    case LeftToes => 22
    case RightUpperLeg => 23
    case RightLowerLeg => 24
    case RightFoot => 25
    case RightToes => 26
  }

  lemma EachInItsPlace()
    ensures forall i :: 0 <= i < |MEASURED_BONES| && MEASURED_BONES[i].Some? ==> PlaceOf(MEASURED_BONES[i].value) == i
  {
  }

  lemma MeasuredIsOrdered()
    ensures Ordered(MEASURED_PARENTS) && |MEASURED_PARENTS| == |MEASURED_BONES| == 27
  {
  }

  lemma NumbersAreDistinct(number: HumanJoint -> nat, bones: seq<Option<HumanJoint>>, numbered: seq<Option<nat>>)
    requires forall a, b :: a != b ==> number(a) != number(b)
    requires forall i :: 0 <= i < |bones| && bones[i].Some? ==> PlaceOf(bones[i].value) == i
    requires |numbered| == |bones|
    requires forall i :: 0 <= i < |bones| ==>
               numbered[i] == if bones[i].Some? then Some(number(bones[i].value)) else None
    ensures forall i, j :: 0 <= i < j < |numbered| && numbered[i].Some? ==> numbered[i] != numbered[j]
  {
    hide PlaceOf;
  }

  lemma MeasuredIsARig(number: HumanJoint -> nat, slots: nat)
    requires forall a, b :: a != b ==> number(a) != number(b)
    requires forall a :: number(a) < slots
    ensures IsRig(Measured(number, slots))
  {
    hide PlaceOf, Ordered;
    EachInItsPlace();
    MeasuredIsOrdered();
    NumbersAreDistinct(number, MEASURED_BONES, Measured(number, slots).bones);
  }

  /** The bone a bone hangs from. */
  function ParentBone(bone: HumanJoint): Option<HumanJoint> {
    match bone
    case Hips => None
    case Spine => Some(Hips)
    case Chest => Some(Spine)
    case UpperChest => Some(Chest)
    case Neck => Some(UpperChest)
    case Head => Some(Neck)
    case LeftShoulder => Some(UpperChest)
    case LeftUpperArm => Some(LeftShoulder)
    case LeftLowerArm => Some(LeftUpperArm)
    case LeftHand => Some(LeftLowerArm)
    case RightShoulder => Some(UpperChest)
    case RightUpperArm => Some(RightShoulder)
    case RightLowerArm => Some(RightUpperArm)
    case RightHand => Some(RightLowerArm)
    case LeftUpperLeg => Some(Hips)
    case LeftLowerLeg => Some(LeftUpperLeg)
    case LeftFoot => Some(LeftLowerLeg)
    case LeftToes => Some(LeftFoot)
    case RightUpperLeg => Some(Hips)
    case RightLowerLeg => Some(RightUpperLeg)
    case RightFoot => Some(RightLowerLeg)
    case RightToes => Some(RightFoot)
  }

  /** A joint whose parent is bound, or that has none, is the whole of its path; another's goes on upwards. */
  lemma PathStep(r: Rig, j: nat)
    requires IsRig(r) && j < |r.parents|
    ensures r.parents[j] < 0 ==> Path(r, j) == [j]
    ensures r.parents[j] >= 0 && Binds(r, r.parents[j]) ==> Path(r, j) == [j]
    ensures r.parents[j] >= 0 && !Binds(r, r.parents[j]) ==> Path(r, j) == Path(r, r.parents[j]) + [j]
  {
  }

  predicate BearsNone(j: nat) {
    j == 1 || j == 3 || j == 5 || j == 6 || j == 9
  }

  /** Above the shoulders and the legs the measured joints hang from one another in order. */
  function Above27(j: nat): int {
    if j == 11 || j == 15 then 7 else if j == 19 || j == 23 then 0 else j - 1
  }

  lemma MeasuredStands(number: HumanJoint -> nat, slots: nat, j: nat)
    requires j < 27
    ensures var r := Measured(number, slots);
            |r.parents| == |r.bones| == 27 && r.parents[j] == Above27(j) && (Binds(r, j) <==> !BearsNone(j))
  {
  }

  lemma BoneInPlace(number: HumanJoint -> nat, slots: nat, bone: HumanJoint)
    ensures PlaceOf(bone) < 27 == |Measured(number, slots).bones|
    ensures Measured(number, slots).bones[PlaceOf(bone)] == Some(number(bone))
  {
    assert MEASURED_BONES[PlaceOf(bone)] == Some(bone);
  }

  /** Where a path starts. */
  function TopOf(j: nat): nat {
    if j == 2 || j == 4 || j == 10 then j - 1 else if j == 7 then 5 else j
  }

  lemma MeasuredTop(number: HumanJoint -> nat, slots: nat, j: nat)
    requires IsRig(Measured(number, slots)) && j < 27 && !BearsNone(j)
    ensures |Measured(number, slots).parents| == 27 && Path(Measured(number, slots), j)[0] == TopOf(j)
  {
    hide Path, Measured, Binds, IsRig;
    var r := Measured(number, slots);
    MeasuredStands(number, slots, j);
    PathStep(r, j);
    if j > 0 {
      var above: nat := Above27(j);
      MeasuredStands(number, slots, above);
      if BearsNone(above) {
        PathStep(r, above);
        MeasuredStands(number, slots, above - 1);
        if j == 7 {
          PathStep(r, 5);
          MeasuredStands(number, slots, 4);
        }
      }
    }
  }

  lemma TopsHangRight(bone: HumanJoint)
    ensures PlaceOf(bone) < 27 && !BearsNone(PlaceOf(bone)) && TopOf(PlaceOf(bone)) < 27
    ensures Above27(TopOf(PlaceOf(bone))) == if ParentBone(bone).None? then -1 else PlaceOf(ParentBone(bone).value)
  {
  }

  /** Collapsed, the measured rig hangs together as a body does: each bone's path starts just below its parent bone. */
  lemma MeasuredIsHuman(number: HumanJoint -> nat, slots: nat, bone: HumanJoint)
    requires IsRig(Measured(number, slots))
    ensures var r, j := Measured(number, slots), PlaceOf(bone);
            && |r.parents| == |r.bones| == 27 && j < 27 && r.bones[j] == Some(number(bone)) && Path(r, j)[0] < 27
            && r.parents[Path(r, j)[0]] == if ParentBone(bone).None? then -1 else PlaceOf(ParentBone(bone).value)
  {
    hide Path, Measured, IsRig, PlaceOf, ParentBone, TopOf, Above27, BearsNone;
    TopsHangRight(bone);
    BoneInPlace(number, slots, bone);
    MeasuredTop(number, slots, PlaceOf(bone));
    MeasuredStands(number, slots, TopOf(PlaceOf(bone)));
  }
}
