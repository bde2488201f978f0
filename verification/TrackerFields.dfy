/**
 What a solve does, said by the humanoid's own joints and the trackers bound to them: which bones it
 turns and where they point, which regions it leaves and why, and where the root stands.
 */
module TrackerFields {
  import opened Bytes
  import opened Kinematics
  import opened TrackerAssignment
  import opened TrackerSolve

  /** The seven regions that are a bone, each with its joint. */
  ghost function Bones(h: Humanoid): (bones: seq<(Region, nat)>)
    ensures |bones| == 7
  {
    [(Head, h.head), (Chest, h.chest), (Hips, h.hips), (LeftHand, h.leftHand), (RightHand, h.rightHand),
     (LeftFoot, h.leftFoot), (RightFoot, h.rightFoot)]
  }

  /** The four that lie between two bones. */
  ghost predicate LiesBetween(r: Region) {
    r == LeftElbow || r == RightElbow || r == LeftKnee || r == RightKnee
  }

  /** The region's tracker is here and reports a rotation. */
  ghost predicate IsTold<G(!new), V(!new)>(a: Assignment, observed: seq<Observation<G, V>>, r: Region)
    requires InRange(a.bound, |observed|)
  {
    exists b :: b in a.bound && b.region == r && observed[b.observedIndex].hasRotation
  }

  /** The region is stated, whether or not its tracker is here. */
  ghost predicate IsStated(a: Assignment, r: Region) {
    r in a.absent || exists b :: b in a.bound && b.region == r
  }

  /** Some bone above joint `j` is stated and not told. */
  ghost predicate HangsLoose<G(!new), V(!new)>(h: Humanoid, a: Assignment, observed: seq<Observation<G, V>>, j: nat)
    requires InRange(a.bound, |observed|) && Ordered(h.parents) && j < |h.parents|
  {
    exists i :: 0 <= i < 7 && IsStated(a, Bones(h)[i].0) && !IsTold(a, observed, Bones(h)[i].0)
                && Bones(h)[i].1 in Above(h.parents, j)
  }

  /** Different joints of an ordered table, the hips at its root. */
  ghost predicate IsTable(h: Humanoid) {
    && Ordered(h.parents)
    && (forall i :: 0 <= i < 7 ==> Bones(h)[i].1 < |h.parents|)
    && (forall i, k :: 0 <= i < k < 7 ==> Bones(h)[i].1 != Bones(h)[k].1)
    && h.hips < |h.parents| && h.parents[h.hips] < 0
  }

  /** The program's table of joints is that one. */
  lemma JointsAreTheirs(h: Humanoid, r: Region)
    ensures JointOf(h, r).None? <==> LiesBetween(r) || r.NoRegion?
    ensures JointOf(h, r).Some? ==> exists i :: 0 <= i < 7 && Bones(h)[i] == (r, JointOf(h, r).value)
    ensures forall i :: 0 <= i < 7 && Bones(h)[i].0 == r ==> JointOf(h, r) == Some(Bones(h)[i].1)
  {
    var bones := Bones(h);
    assert bones[0].0 == Head && bones[1].0 == Chest && bones[2].0 == Hips && bones[3].0 == LeftHand;
    assert bones[4].0 == RightHand && bones[5].0 == LeftFoot && bones[6].0 == RightFoot;
  }

  lemma AllJointsAreTheirs(h: Humanoid)
    ensures forall r :: JointOf(h, r).None? <==> LiesBetween(r) || r.NoRegion?
    ensures forall r :: JointOf(h, r).Some? ==> exists i :: 0 <= i < 7 && Bones(h)[i] == (r, JointOf(h, r).value)
    ensures forall i :: 0 <= i < 7 ==> JointOf(h, Bones(h)[i].0) == Some(Bones(h)[i].1)
  {
    forall r
      ensures JointOf(h, r).None? <==> LiesBetween(r) || r.NoRegion?
      ensures JointOf(h, r).Some? ==> exists i :: 0 <= i < 7 && Bones(h)[i] == (r, JointOf(h, r).value)
      ensures forall i :: 0 <= i < 7 && Bones(h)[i].0 == r ==> JointOf(h, r) == Some(Bones(h)[i].1)
    {
      JointsAreTheirs(h, r);
    }
  }

  lemma RegionsDiffer(h: Humanoid)
    ensures forall i, k :: 0 <= i < k < 7 ==> Bones(h)[i].0 != Bones(h)[k].0
  {
    var bones := Bones(h);
    assert bones[0].0 == Head && bones[1].0 == Chest && bones[2].0 == Hips && bones[3].0 == LeftHand;
    assert bones[4].0 == RightHand && bones[5].0 == LeftFoot && bones[6].0 == RightFoot;
  }

  lemma TableIsHumanoid(h: Humanoid)
    requires IsTable(h)
    ensures IsHumanoid(h)
  {
    hide JointOf, Bones, LiesBetween;
    AllJointsAreTheirs(h);
    forall r, q | JointOf(h, r).Some? && JointOf(h, r) == JointOf(h, q)
      ensures r == q
    {
      var i :| 0 <= i < 7 && Bones(h)[i] == (r, JointOf(h, r).value);
      var k :| 0 <= k < 7 && Bones(h)[k] == (q, JointOf(h, q).value);
      assert i == k;
    }
  }

  lemma NamedIsStated(h: Humanoid, a: Assignment, i: nat)
    requires i < 7 && IsTable(h)
    ensures Bones(h)[i].1 in Named(h, a) <==> IsStated(a, Bones(h)[i].0)
  {
    hide JointOf, Bones, LiesBetween;
    AllJointsAreTheirs(h);
    TableIsHumanoid(h);
  }

  lemma OrientedIsTold<G(!new), V(!new)>(h: Humanoid, a: Assignment, observed: seq<Observation<G, V>>, i: nat)
    requires i < 7 && IsTable(h) && InRange(a.bound, |observed|)
    ensures Bones(h)[i].1 in Oriented(h, a.bound, observed) <==> IsTold(a, observed, Bones(h)[i].0)
  {
    hide JointOf, Bones, LiesBetween;
    AllJointsAreTheirs(h);
    TableIsHumanoid(h);
  }

  lemma SilenceIsLoose<G(!new), V(!new)>(h: Humanoid, a: Assignment, observed: seq<Observation<G, V>>, j: nat)
    requires IsTable(h) && InRange(a.bound, |observed|) && j < |h.parents|
    ensures FellSilent(h.parents, j, Named(h, a), Oriented(h, a.bound, observed)) <==> HangsLoose(h, a, observed, j)
  {
    hide JointOf, Bones, LiesBetween, Oriented, IsTold, IsStated;
    AllJointsAreTheirs(h);
    forall i | 0 <= i < 7
      ensures Bones(h)[i].1 in Named(h, a) <==> IsStated(a, Bones(h)[i].0)
      ensures Bones(h)[i].1 in Oriented(h, a.bound, observed) <==> IsTold(a, observed, Bones(h)[i].0)
    {
      NamedIsStated(h, a, i);
      OrientedIsTold(h, a, observed, i);
    }
    var named, oriented := Named(h, a), Oriented(h, a.bound, observed);
    if k :| k in Above(h.parents, j) && k in named && k !in oriented {
      var i :| 0 <= i < 7 && Bones(h)[i].1 == k;
    }
  }

  /** What becomes of a bound region, by its own tracker and those of the bones above. */
  lemma ClassIsTold<G(!new), V(!new)>(h: Humanoid, a: Assignment, observed: seq<Observation<G, V>>, b: Binding)
    requires IsTable(h) && IsHumanoid(h) && InRange(a.bound, |observed|) && b in a.bound && !b.region.NoRegion?
    ensures ClassOf(h, a, observed, b).Unsolved? <==> LiesBetween(b.region)
    ensures ClassOf(h, a, observed, b).WithoutRotation? <==>
            !LiesBetween(b.region) && !observed[b.observedIndex].hasRotation
    ensures forall i :: 0 <= i < 7 && Bones(h)[i].0 == b.region && observed[b.observedIndex].hasRotation ==>
              if HangsLoose(h, a, observed, Bones(h)[i].1) then ClassOf(h, a, observed, b).Withheld?
              else ClassOf(h, a, observed, b).Placed?
  {
    hide JointOf, Bones, LiesBetween, HangsLoose, FellSilent, Named, Oriented;
    JointsAreTheirs(h, b.region);
    if JointOf(h, b.region).Some? {
      SilenceIsLoose(h, a, observed, JointOf(h, b.region).value);
    }
  }

  // ---- The lists ----

  /** Regions in the order of their bindings: those at some positions, ever further on. */
  ghost predicate AreAt(regions: seq<Region>, bound: seq<Binding>, at: seq<nat>) {
    && |at| == |regions|
    && (forall i :: 0 <= i < |at| ==> at[i] < |bound| && bound[at[i]].region == regions[i])
    && forall i, k :: 0 <= i < k < |at| ==> at[i] < at[k]
  }

  lemma {:induction false} ListIsInOrder<G(!new), V(!new)>(h: Humanoid, a: Assignment, observed: seq<Observation<G, V>>,
                                                           class_: Class, n: nat) returns (at: seq<nat>)
    requires IsHumanoid(h) && InRange(a.bound, |observed|) && n <= |a.bound|
    ensures AreAt(RegionsOf(h, a, observed, class_, n), a.bound[..n], at)
    ensures forall k :: 0 <= k < n ==> (k in at <==> ClassOf(h, a, observed, a.bound[k]) == class_)
  {
    hide ClassOf;
    at := [];
    if n > 0 {
      at := ListIsInOrder(h, a, observed, class_, n - 1);
      if ClassOf(h, a, observed, a.bound[n - 1]) == class_ {
        at := at + [n - 1];
      }
    }
  }

  lemma {:induction false} UnusedIsInOrder<G(!new), V(!new)>(h: Humanoid, bound: seq<Binding>, observed: seq<Observation<G, V>>,
                                                             authorRootMotion: bool, n: nat) returns (at: seq<nat>)
    requires IsTable(h) && InRange(bound, |observed|) && n <= |bound|
    ensures AreAt(PositionsUnused(h, bound, observed, authorRootMotion, n), bound[..n], at)
    ensures forall k :: 0 <= k < n ==>
              (k in at <==> observed[bound[k].observedIndex].hasPosition && !(bound[k].region == Hips && authorRootMotion))
  {
    hide JointOf, ConsumesPosition, IsTable;
    at := [];
    if n > 0 {
      at := UnusedIsInOrder(h, bound, observed, authorRootMotion, n - 1);
      var b := bound[n - 1];
      HipsConsume(h, observed, authorRootMotion, b);
      if observed[b.observedIndex].hasPosition && !(b.region == Hips && authorRootMotion) {
        at := at + [n - 1];
      }
    }
  }

  /** The one position consumed is that of the tracker at the hips, where the caller trusts it. */
  lemma HipsConsume<G(!new), V(!new)>(h: Humanoid, observed: seq<Observation<G, V>>, authorRootMotion: bool, b: Binding)
    requires IsTable(h) && b.observedIndex < |observed|
    ensures ConsumesPosition(h, observed, authorRootMotion, b) <==>
            b.region == Hips && authorRootMotion && observed[b.observedIndex].hasPosition
  {
    hide JointOf, Bones, LiesBetween;
    TableIsHumanoid(h);
    JointsAreTheirs(h, b.region);
    JointsAreTheirs(h, Hips);
    BonesAreNamed(h);
  }

  lemma BonesAreNamed(h: Humanoid)
    ensures Bones(h)[2] == (Hips, h.hips)
  {
  }

  /** A value is unusable where it is consumed: a rotation of one of the seven, the hips' position where it is trusted. */
  lemma SoundByField<G(!new), V(!new)>(h: Humanoid, observed: seq<Observation<G, V>>, authorRootMotion: bool, b: Binding)
    requires IsTable(h) && b.observedIndex < |observed| && !b.region.NoRegion?
    ensures IsSound(h, observed, authorRootMotion, b) <==>
            var o := observed[b.observedIndex];
            && (b.region == Hips && authorRootMotion && o.hasPosition ==> o.position.Some?)
            && (!LiesBetween(b.region) && o.hasRotation ==> o.rotation.Names?)
  {
    hide JointOf, ConsumesPosition, LiesBetween;
    HipsConsume(h, observed, authorRootMotion, b);
    JointsAreTheirs(h, b.region);
  }

  // ---- The pose ----

  /** The bone of a bound region is turned exactly when its tracker says where and none above hangs loose, and then points there. */
  ghost predicate IsTurnedRight<G(!new), V(!new)>(m: Monoid<G>, h: Humanoid, a: Assignment, observed: seq<Observation<G, V>>,
                                                  rotations: map<nat, G>, b: Binding, j: nat)
    requires IsTable(h) && InRange(a.bound, |observed|) && b in a.bound && j < |h.parents|
  {
    && (j in rotations <==> observed[b.observedIndex].hasRotation && !HangsLoose(h, a, observed, j))
    && (j in rotations ==> observed[b.observedIndex].rotation == Names(WorldOf(m, h.parents, rotations, j)))
  }

  lemma OneOfASeven<G(!new), V(!new)>(m: Monoid<G>, h: Humanoid, a: Assignment, observed: seq<Observation<G, V>>,
                                      rotations: map<nat, G>, b: Binding, i: nat)
    requires IsTable(h) && IsHumanoid(h) && InRange(a.bound, |observed|) && b in a.bound && !b.region.NoRegion?
    requires BindingsApply(a.bound, |a.bound|, |observed|)
    requires TurnsRight(m, h, a, observed, a.bound, rotations) && i < 7 && Bones(h)[i].0 == b.region
    ensures IsTurnedRight(m, h, a, observed, rotations, b, Bones(h)[i].1)
  {
    hide JointOf, Bones, LiesBetween, HangsLoose, WorldOf, ClassOf;
    var j := Bones(h)[i].1;
    JointsAreTheirs(h, b.region);
    ClassIsTold(h, a, observed, b);
    if j in rotations {
      var d :| d in a.bound && PlacesAt(h, a, observed, d, j);
      assert d.region == b.region;
      var p :| 0 <= p < |a.bound| && a.bound[p] == d;
      var q :| 0 <= q < |a.bound| && a.bound[q] == b;
      assert p == q;
    }
    if observed[b.observedIndex].hasRotation && !HangsLoose(h, a, observed, j) {
      assert PlacesAt(h, a, observed, b, j);
    }
  }

  /**
   A pose that a solve gives, by the humanoid's own joints: each of the seven bound regions is turned
   right, nothing else is turned, and the root has the position and the orientation of the tracker at
   the hips, where that is trusted and where it is placed.
   */
  lemma PoseIsByField<G(!new), V(!new)>(m: Monoid<G>, h: Humanoid, a: Assignment, observed: seq<Observation<G, V>>,
                                        authorRootMotion: bool, pose: Pose<G, V>)
    requires IsTable(h) && IsHumanoid(h) && InRange(a.bound, |observed|) && BindingsApply(a.bound, |a.bound|, |observed|)
    requires Reproduces(m, h, a, observed, authorRootMotion, pose)
    ensures forall b, i :: b in a.bound && 0 <= i < 7 && Bones(h)[i].0 == b.region ==>
              IsTurnedRight(m, h, a, observed, pose.rotations, b, Bones(h)[i].1)
    ensures forall j :: j in pose.rotations ==> exists i :: 0 <= i < 7 && Bones(h)[i].1 == j && IsTold(a, observed, Bones(h)[i].0)
    ensures pose.rootPosition.Some? <==>
            authorRootMotion && exists b :: b in a.bound && b.region == Hips && observed[b.observedIndex].hasPosition
    ensures forall b :: b in a.bound && b.region == Hips ==>
              && (authorRootMotion && observed[b.observedIndex].hasPosition ==> pose.rootPosition == observed[b.observedIndex].position)
              && (h.hips in pose.rotations ==>
                    pose.rootOrientation.Some? && observed[b.observedIndex].rotation == Names(pose.rootOrientation.value))
    ensures pose.rootOrientation.Some? <==> h.hips in pose.rotations
  {
    hide JointOf, Bones, LiesBetween, HangsLoose, WorldOf, ClassOf, ConsumesPosition, IsTurnedRight, IsTold;
    assert forall b :: b in a.bound ==> !b.region.NoRegion?;
    forall b, i | b in a.bound && 0 <= i < 7 && Bones(h)[i].0 == b.region
      ensures IsTurnedRight(m, h, a, observed, pose.rotations, b, Bones(h)[i].1)
    {
      OneOfASeven(m, h, a, observed, pose.rotations, b, i);
    }
    forall j | j in pose.rotations
      ensures exists i :: 0 <= i < 7 && Bones(h)[i].1 == j && IsTold(a, observed, Bones(h)[i].0)
    {
      TurnedIsTold(m, h, a, observed, pose.rotations, j);
    }
    forall b | b in a.bound
      ensures ConsumesPosition(h, observed, authorRootMotion, b) <==>
              b.region == Hips && authorRootMotion && observed[b.observedIndex].hasPosition
    {
      HipsConsume(h, observed, authorRootMotion, b);
    }
    BonesAreNamed(h);
    forall b | b in a.bound && b.region == Hips && h.hips in pose.rotations
      ensures observed[b.observedIndex].rotation == Names(WorldOf(m, h.parents, pose.rotations, h.hips))
    {
      assert IsTurnedRight(m, h, a, observed, pose.rotations, b, Bones(h)[2].1);
      TurnedPointsThere(m, h, a, observed, pose.rotations, b, h.hips);
    }
  }

  lemma TurnedPointsThere<G(!new), V(!new)>(m: Monoid<G>, h: Humanoid, a: Assignment, observed: seq<Observation<G, V>>,
                                            rotations: map<nat, G>, b: Binding, j: nat)
    requires IsTable(h) && InRange(a.bound, |observed|) && b in a.bound && j < |h.parents| && j in rotations
    requires IsTurnedRight(m, h, a, observed, rotations, b, j)
    ensures observed[b.observedIndex].rotation == Names(WorldOf(m, h.parents, rotations, j))
  {
    hide WorldOf, HangsLoose;
  }

  lemma TurnedIsTold<G(!new), V(!new)>(m: Monoid<G>, h: Humanoid, a: Assignment, observed: seq<Observation<G, V>>,
                                       rotations: map<nat, G>, j: nat)
    requires IsTable(h) && IsHumanoid(h) && InRange(a.bound, |observed|) && BindingsApply(a.bound, |a.bound|, |observed|)
    requires TurnsRight(m, h, a, observed, a.bound, rotations) && j in rotations
    ensures exists i :: 0 <= i < 7 && Bones(h)[i].1 == j && IsTold(a, observed, Bones(h)[i].0)
  {
    hide JointOf, Bones, LiesBetween, HangsLoose, WorldOf, ClassOf;
    var b :| b in a.bound && PlacesAt(h, a, observed, b, j);
    JointsAreTheirs(h, b.region);
    ClassIsTold(h, a, observed, b);
    var i :| 0 <= i < 7 && Bones(h)[i] == (b.region, j);
    assert IsTold(a, observed, b.region);
  }

  /** The lists a solve gives, by the regions themselves. */
  lemma ListsAreByField<G(!new), V(!new)>(h: Humanoid, a: Assignment, observed: seq<Observation<G, V>>, authorRootMotion: bool,
                                          s: Solve<G, V>)
    returns (placed: seq<nat>, unsolved: seq<nat>, withoutRotation: seq<nat>, withheld: seq<nat>, unused: seq<nat>)
    requires IsTable(h) && IsHumanoid(h) && InRange(a.bound, |observed|) && BindingsApply(a.bound, |a.bound|, |observed|)
    requires Classified(h, a, observed, authorRootMotion, s)
    ensures AreAt(s.placed, a.bound, placed) && AreAt(s.unsolved, a.bound, unsolved) && AreAt(s.withheld, a.bound, withheld)
    ensures AreAt(s.withoutRotation, a.bound, withoutRotation) && AreAt(s.positionsUnused, a.bound, unused)
    ensures forall k :: 0 <= k < |a.bound| ==>
              var r, o := a.bound[k].region, observed[a.bound[k].observedIndex];
              && (k in unsolved <==> LiesBetween(r))
              && (k in withoutRotation <==> !LiesBetween(r) && !o.hasRotation)
              && (k in unused <==> o.hasPosition && !(r == Hips && authorRootMotion))
    ensures forall k, i :: 0 <= k < |a.bound| && 0 <= i < 7 && Bones(h)[i].0 == a.bound[k].region ==>
              var told := observed[a.bound[k].observedIndex].hasRotation;
              && (k in withheld <==> told && HangsLoose(h, a, observed, Bones(h)[i].1))
              && (k in placed <==> told && !HangsLoose(h, a, observed, Bones(h)[i].1))
  {
    hide JointOf, Bones, LiesBetween, HangsLoose, ClassOf, RegionsOf, PositionsUnused;
    placed := ListIsInOrder(h, a, observed, Class.Placed, |a.bound|);
    unsolved := ListIsInOrder(h, a, observed, Unsolved, |a.bound|);
    withoutRotation := ListIsInOrder(h, a, observed, WithoutRotation, |a.bound|);
    withheld := ListIsInOrder(h, a, observed, Withheld, |a.bound|);
    unused := UnusedIsInOrder(h, a.bound, observed, authorRootMotion, |a.bound|);
    assert a.bound[..|a.bound|] == a.bound;
    forall k | 0 <= k < |a.bound|
      ensures ClassOf(h, a, observed, a.bound[k]).Unsolved? <==> LiesBetween(a.bound[k].region)
      ensures ClassOf(h, a, observed, a.bound[k]).WithoutRotation? <==>
              !LiesBetween(a.bound[k].region) && !observed[a.bound[k].observedIndex].hasRotation
      ensures forall i :: 0 <= i < 7 && Bones(h)[i].0 == a.bound[k].region && observed[a.bound[k].observedIndex].hasRotation ==>
                if HangsLoose(h, a, observed, Bones(h)[i].1) then ClassOf(h, a, observed, a.bound[k]).Withheld?
                else ClassOf(h, a, observed, a.bound[k]).Placed?
    {
      ClassIsTold(h, a, observed, a.bound[k]);
    }
    SevenLieNowhereBetween(h);
  }

  lemma SevenLieNowhereBetween(h: Humanoid)
    ensures forall i :: 0 <= i < 7 ==> !LiesBetween(Bones(h)[i].0)
  {
    var bones := Bones(h);
    assert bones[0].0 == Head && bones[1].0 == Chest && bones[2].0 == Hips && bones[3].0 == LeftHand;
    assert bones[4].0 == RightHand && bones[5].0 == LeftFoot && bones[6].0 == RightFoot;
  }
}
