/**
 An assigned observation solved into local rotations, as TrackerSolve.cpp does it: each placed bone's
 rotation is what its tracker reported, seen from the bones already placed above it.
 */
module TrackerSolve {
  import opened Bytes
  import opened Kinematics
  import opened TrackerAssignment

  /** What an observed rotation amounts to once it is read: a direction only if it is finite and long enough. */
  datatype Reading<+G> = NotFinite | TooShort | Names(rotation: G)

  /** `position` is None when it is not finite; each value counts only under its flag. */
  datatype Observation<+G, +V> = Observation(
    tracker: string,
    hasPosition: bool,
    position: Option<V>,
    hasRotation: bool,
    rotation: Reading<G>)

  /** The humanoid's joints, by number, and the ones this solve places. */
  datatype Humanoid = Humanoid(
    parents: seq<int>,
    head: nat,
    chest: nat,
    hips: nat,
    leftHand: nat,
    rightHand: nat,
    leftFoot: nat,
    rightFoot: nat)

  function JointOf(h: Humanoid, region: Region): Option<nat> {
    match region
    case Head => Some(h.head)
    case Chest => Some(h.chest)
    case Hips => Some(h.hips)
    case LeftHand => Some(h.leftHand)
    case RightHand => Some(h.rightHand)
    case LeftFoot => Some(h.leftFoot)
    case RightFoot => Some(h.rightFoot)
    case _ => None
  }

  /** The joints placed are different joints of an ordered table, the hips at its root. */
  ghost predicate IsHumanoid(h: Humanoid) {
    && Ordered(h.parents)
    && (forall r :: JointOf(h, r).Some? ==> JointOf(h, r).value < |h.parents|)
    && (forall r, q :: JointOf(h, r).Some? && JointOf(h, r) == JointOf(h, q) ==> r == q)
    && h.hips < |h.parents| && h.parents[h.hips] < 0
  }

  datatype SolveRefusal = Solved | AssignmentRefused | AssignmentUnusable | ObservationInvalid | NothingSolved

  /** `rotations` holds the local rotation of each bone the pose carries. */
  datatype Pose<G, V> = Pose(rotations: map<nat, G>, rootPosition: Option<V>, rootOrientation: Option<G>)

  datatype Solve<G, V> = Solve(
    refusal: SolveRefusal,
    pose: Pose<G, V>,
    placed: seq<Region>,
    unsolved: seq<Region>,
    withoutRotation: seq<Region>,
    withheld: seq<Region>,
    positionsUnused: seq<Region>)

  function NoPose<G, V>(): Pose<G, V> {
    Pose(map[], None, None)
  }

  // ---- What a frame can orient ----

  function Identities<G, V>(observed: seq<Observation<G, V>>): (names: seq<string>)
    ensures |names| == |observed|
  {
    seq(|observed|, i requires 0 <= i < |observed| => observed[i].tracker)
  }

  /** Every binding reads an observation there is. */
  predicate InRange(bound: seq<Binding>, count: nat) {
    forall b :: b in bound ==> b.observedIndex < count
  }

  /** The bones the assignment names, whether or not their tracker is here. */
  function Named(h: Humanoid, a: Assignment): set<nat> {
    (set r | r in a.absent && JointOf(h, r).Some? :: JointOf(h, r).value)
    + (set b | b in a.bound && JointOf(h, b.region).Some? :: JointOf(h, b.region).value)
  }

  /** The bones whose tracker reports a rotation in this frame. */
  function Oriented<G, V>(h: Humanoid, bound: seq<Binding>, observed: seq<Observation<G, V>>): set<nat>
    requires InRange(bound, |observed|)
  {
    set b | b in bound && JointOf(h, b.region).Some? && observed[b.observedIndex].hasRotation :: JointOf(h, b.region).value
  }

  /** Some bone above `j` is named and could not be oriented. */
  predicate FellSilent(parents: seq<int>, j: nat, named: set<nat>, oriented: set<nat>)
    requires Ordered(parents) && j < |parents|
  {
    exists k :: k in Above(parents, j) && k in named && k !in oriented
  }

  method AncestorFellSilent(parents: seq<int>, j: nat, named: set<nat>, oriented: set<nat>) returns (silent: bool)
    requires Ordered(parents) && j < |parents|
    ensures silent <==> FellSilent(parents, j, named, oriented)
  {
    var walker := j;
    while parents[walker] >= 0
      invariant 0 <= walker < |parents|
      invariant FellSilent(parents, j, named, oriented) <==> FellSilent(parents, walker, named, oriented)
      decreases walker
    {
      var parent := parents[walker];
      if parent in named && parent !in oriented {
        assert parent in Above(parents, walker);
        return true;
      }
      walker := parent;
    }
    silent := false;
  }

  // ---- Rotations composed down the table ----

  /** A bone's rotation, or rest for a bone the pose does not carry. */
  function LocalOf<G(!new)>(m: Monoid<G>, rotations: map<nat, G>): nat -> G {
    (j: nat) => if j in rotations then rotations[j] else m.one
  }

  function WorldOf<G(!new)>(m: Monoid<G>, parents: seq<int>, rotations: map<nat, G>, j: nat): G
    requires Ordered(parents) && j < |parents|
  {
    Product(m, Along(LocalOf(m, rotations), Chain(parents, j)))
  }

  function WorldAbove<G(!new)>(m: Monoid<G>, parents: seq<int>, rotations: map<nat, G>, j: nat): G
    requires Ordered(parents) && j < |parents|
  {
    Product(m, Along(LocalOf(m, rotations), Above(parents, j)))
  }

  /** The chain above `j` gathered towards the root, then composed from the root down. */
  method ParentWorldRotation<G(!new)>(m: Monoid<G>, parents: seq<int>, j: nat, authored: map<nat, G>) returns (world: G)
    requires IsMonoid(m) && Ordered(parents) && j < |parents|
    ensures world == WorldAbove(m, parents, authored, j)
  {
    hide IsMonoid, Product;
    var chain: seq<nat> := [];
    var walker: nat := j;
    while parents[walker] >= 0
      invariant walker < |parents|
      invariant Above(parents, j) == Above(parents, walker) + Turned(chain)
      decreases walker
    {
      chain := chain + [parents[walker]];
      walker := parents[walker];
    }
    world := m.one;
    NoProduct(m);
    var i := |chain|;
    while i > 0
      invariant 0 <= i <= |chain|
      invariant world == Product(m, Along(LocalOf(m, authored), Turned(chain[i..])))
    {
      i := i - 1;
      assert chain[i..] == [chain[i]] + chain[i + 1..];
      TurnedCons(chain[i], chain[i + 1..]);
      AlongAppend(LocalOf(m, authored), Turned(chain[i + 1..]), [chain[i]]);
      ProductSnoc(m, Along(LocalOf(m, authored), Turned(chain[i + 1..])), LocalOf(m, authored)(chain[i]));
      assert Along(LocalOf(m, authored), [chain[i]]) == [LocalOf(m, authored)(chain[i])];
      Rests(m, world);
      if chain[i] in authored {
        world := m.mul(world, authored[chain[i]]);
      }
    }
    assert chain[0..] == chain;
    assert [] + Turned(chain) == Turned(chain);
  }

  lemma NoProduct<G(!new)>(m: Monoid<G>)
    ensures Product(m, []) == m.one
  {
  }

  lemma Rests<G(!new)>(m: Monoid<G>, x: G)
    requires IsMonoid(m)
    ensures m.mul(x, m.one) == x
  {
  }

  lemma ProductSnoc<G(!new)>(m: Monoid<G>, xs: seq<G>, x: G)
    ensures Product(m, xs + [x]) == m.mul(Product(m, xs), x)
  {
    assert (xs + [x])[..|xs|] == xs;
  }

  function Turned(chain: seq<nat>): (turned: seq<nat>)
    ensures |turned| == |chain|
  {
    if chain == [] then [] else [chain[|chain| - 1]] + Turned(chain[..|chain| - 1])
  }

  lemma {:induction false} TurnedCons(first: nat, rest: seq<nat>)
    ensures Turned([first] + rest) == Turned(rest) + [first]
  {
    var whole := [first] + rest;
    if rest == [] {
      assert whole[..0] == [];
    } else {
      assert whole[..|whole| - 1] == [first] + rest[..|rest| - 1];
      TurnedCons(first, rest[..|rest| - 1]);
    }
  }

  // ---- What becomes of each binding ----

  datatype Class = Placed | Unsolved | WithoutRotation | Withheld

  function ClassOf<G, V>(h: Humanoid, a: Assignment, observed: seq<Observation<G, V>>, b: Binding): Class
    requires IsHumanoid(h) && InRange(a.bound, |observed|) && b in a.bound
  {
    var joint := JointOf(h, b.region);
    if joint.None? then Unsolved
    else if !observed[b.observedIndex].hasRotation then WithoutRotation
    else if FellSilent(h.parents, joint.value, Named(h, a), Oriented(h, a.bound, observed)) then Withheld
    else Placed
  }

  /** The regions of a class, in binding order, among the first `n` bindings. */
  function RegionsOf<G, V>(h: Humanoid, a: Assignment, observed: seq<Observation<G, V>>, class_: Class, n: nat): seq<Region>
    requires IsHumanoid(h) && InRange(a.bound, |observed|) && n <= |a.bound|
  {
    if n == 0 then []
    else
      RegionsOf(h, a, observed, class_, n - 1)
      + if ClassOf(h, a, observed, a.bound[n - 1]) == class_ then [a.bound[n - 1].region] else []
  }

  /** The hips' position, when the caller trusts it, is the one position this solve consumes. */
  predicate ConsumesPosition<G, V>(h: Humanoid, observed: seq<Observation<G, V>>, authorRootMotion: bool, b: Binding)
    requires b.observedIndex < |observed|
  {
    JointOf(h, b.region) == Some(h.hips) && authorRootMotion && observed[b.observedIndex].hasPosition
  }

  function PositionsUnused<G, V>(h: Humanoid, bound: seq<Binding>, observed: seq<Observation<G, V>>,
                                 authorRootMotion: bool, n: nat): seq<Region>
    requires InRange(bound, |observed|) && n <= |bound|
  {
    if n == 0 then []
    else
      var b := bound[n - 1];
      PositionsUnused(h, bound, observed, authorRootMotion, n - 1)
      + if observed[b.observedIndex].hasPosition && !ConsumesPosition(h, observed, authorRootMotion, b) then [b.region]
        else []
  }

  /** A binding none of whose consumed values is unusable. */
  predicate IsSound<G, V>(h: Humanoid, observed: seq<Observation<G, V>>, authorRootMotion: bool, b: Binding)
    requires b.observedIndex < |observed|
  {
    var o := observed[b.observedIndex];
    && (ConsumesPosition(h, observed, authorRootMotion, b) ==> o.position.Some?)
    && (JointOf(h, b.region).Some? && o.hasRotation ==> o.rotation.Names?)
  }

  /** The class lists and the unused positions, filled before any value is judged. */
  ghost predicate Classified<G, V>(h: Humanoid, a: Assignment, observed: seq<Observation<G, V>>, authorRootMotion: bool,
                                   s: Solve<G, V>)
    requires IsHumanoid(h) && InRange(a.bound, |observed|)
  {
    && s.placed == RegionsOf(h, a, observed, Placed, |a.bound|)
    && s.unsolved == RegionsOf(h, a, observed, Unsolved, |a.bound|)
    && s.withoutRotation == RegionsOf(h, a, observed, WithoutRotation, |a.bound|)
    && s.withheld == RegionsOf(h, a, observed, Withheld, |a.bound|)
    && s.positionsUnused == PositionsUnused(h, a.bound, observed, authorRootMotion, |a.bound|)
  }

  // ---- Parent first ----

  /** A region's place in the order bones are placed: its joint's number, or after them all. */
  function Rank(h: Humanoid, region: Region): nat {
    var joint := JointOf(h, region);
    if joint.Some? then joint.value else |h.parents|
  }

  predicate ByRank(h: Humanoid, bindings: seq<Binding>) {
    forall i, k :: 0 <= i < k < |bindings| ==> Rank(h, bindings[i].region) <= Rank(h, bindings[k].region)
  }

  /** `b` put after every binding that does not come later than it. */
  function Inserted(h: Humanoid, bindings: seq<Binding>, b: Binding): (r: seq<Binding>)
    ensures forall x :: x in r <==> x in bindings || x == b
    ensures |r| == |bindings| + 1
  {
    if bindings == [] then [b]
    else
      var front, last := bindings[..|bindings| - 1], bindings[|bindings| - 1];
      if Rank(h, last.region) <= Rank(h, b.region) then bindings + [b] else Inserted(h, front, b) + [last]
  }

  lemma {:induction false} InsertedInOrder(h: Humanoid, bindings: seq<Binding>, b: Binding)
    requires ByRank(h, bindings)
    ensures ByRank(h, Inserted(h, bindings, b))
    ensures multiset(Inserted(h, bindings, b)) == multiset(bindings) + multiset{b}
  {
    hide Rank;
    if bindings != [] {
      var front, last := bindings[..|bindings| - 1], bindings[|bindings| - 1];
      assert bindings == front + [last];
      InsertedInOrder(h, front, b);
      var r := Inserted(h, front, b);
      forall i | 0 <= i < |r|
        ensures Rank(h, r[i].region) <= Rank(h, last.region) || Rank(h, last.region) <= Rank(h, b.region)
      {
        assert r[i] in r;
      }
    }
  }

  /** The bindings sorted by joint, ties in their given order. */
  function ParentFirst(h: Humanoid, bindings: seq<Binding>): (r: seq<Binding>)
    ensures forall x :: x in r <==> x in bindings
  {
    if bindings == [] then []
    else Inserted(h, ParentFirst(h, bindings[..|bindings| - 1]), bindings[|bindings| - 1])
  }

  lemma {:induction false} ParentFirstSorts(h: Humanoid, bindings: seq<Binding>)
    ensures ByRank(h, ParentFirst(h, bindings)) && multiset(ParentFirst(h, bindings)) == multiset(bindings)
  {
    hide Rank, Inserted;
    if bindings != [] {
      var front, last := bindings[..|bindings| - 1], bindings[|bindings| - 1];
      assert bindings == front + [last];
      ParentFirstSorts(h, front);
      InsertedInOrder(h, ParentFirst(h, front), last);
    }
  }

  // ---- The solution ----

  /** Whether some binding of the list places joint `j` in this frame. */
  ghost predicate Places<G, V>(h: Humanoid, a: Assignment, observed: seq<Observation<G, V>>, bindings: seq<Binding>, j: nat)
    requires IsHumanoid(h) && InRange(a.bound, |observed|)
  {
    exists b :: b in bindings && PlacesAt(h, a, observed, b, j)
  }

  predicate PlacesAt<G, V>(h: Humanoid, a: Assignment, observed: seq<Observation<G, V>>, b: Binding, j: nat)
    requires IsHumanoid(h) && InRange(a.bound, |observed|)
  {
    b in a.bound && JointOf(h, b.region) == Some(j) && ClassOf(h, a, observed, b).Placed?
  }

  /** A rotation for each bone the list places and for no other, composing from the root to what its tracker reported. */
  ghost predicate TurnsRight<G(!new), V(!new)>(m: Monoid<G>, h: Humanoid, a: Assignment, observed: seq<Observation<G, V>>,
                                               bindings: seq<Binding>, rotations: map<nat, G>)
    requires IsHumanoid(h) && InRange(a.bound, |observed|)
  {
    && (forall j :: j in rotations <==> Places(h, a, observed, bindings, j))
    && forall b, j :: b in bindings && PlacesAt(h, a, observed, b, j) ==>
         observed[b.observedIndex].rotation == Names(WorldOf(m, h.parents, rotations, j))
  }

  /** The root stands where the consumed position says, if there is one. */
  ghost predicate StandsRight<G(!new), V(!new)>(h: Humanoid, observed: seq<Observation<G, V>>, authorRootMotion: bool,
                                                bindings: seq<Binding>, position: Option<V>)
    requires InRange(bindings, |observed|)
  {
    && (position.Some? <==> exists b :: b in bindings && ConsumesPosition(h, observed, authorRootMotion, b))
    && forall b :: b in bindings && ConsumesPosition(h, observed, authorRootMotion, b) ==>
         position == observed[b.observedIndex].position
  }

  /** What a solved pose is: every placed bone and the root where the trackers said. */
  ghost predicate Reproduces<G(!new), V(!new)>(m: Monoid<G>, h: Humanoid, a: Assignment, observed: seq<Observation<G, V>>,
                                               authorRootMotion: bool, pose: Pose<G, V>)
    requires IsHumanoid(h) && InRange(a.bound, |observed|)
  {
    && TurnsRight(m, h, a, observed, a.bound, pose.rotations)
    && StandsRight(h, observed, authorRootMotion, a.bound, pose.rootPosition)
    && pose.rootOrientation ==
         if h.hips in pose.rotations then Some(WorldOf(m, h.parents, pose.rotations, h.hips)) else None
  }

  /** Turning a bone leaves every bone of a smaller number where it was. */
  lemma EarlierWorldsStay<G(!new)>(m: Monoid<G>, parents: seq<int>, rotations: map<nat, G>, k: nat, j: nat, x: G)
    requires Ordered(parents) && k < j < |parents|
    ensures WorldOf(m, parents, rotations[j := x], k) == WorldOf(m, parents, rotations, k)
  {
    hide Product, Chain;
    AlongAgrees(LocalOf(m, rotations[j := x]), LocalOf(m, rotations), Chain(parents, k));
  }

  lemma WorldSplits<G(!new)>(m: Monoid<G>, parents: seq<int>, rotations: map<nat, G>, j: nat)
    requires Ordered(parents) && j < |parents|
    ensures WorldOf(m, parents, rotations, j) == m.mul(WorldAbove(m, parents, rotations, j), LocalOf(m, rotations)(j))
  {
    AlongAppend(LocalOf(m, rotations), Above(parents, j), [j]);
    assert Along(LocalOf(m, rotations), [j]) == [LocalOf(m, rotations)(j)];
    ProductSnoc(m, Along(LocalOf(m, rotations), Above(parents, j)), LocalOf(m, rotations)(j));
  }

  /** Turning a bone leaves what is above it where it was. */
  lemma AboveStays<G(!new)>(m: Monoid<G>, parents: seq<int>, rotations: map<nat, G>, j: nat, x: G)
    requires Ordered(parents) && j < |parents|
    ensures WorldAbove(m, parents, rotations[j := x], j) == WorldAbove(m, parents, rotations, j)
  {
    hide Product;
    AlongAgrees(LocalOf(m, rotations[j := x]), LocalOf(m, rotations), Above(parents, j));
  }

  /** The local rotation a bone is given composes back to the world rotation it was given for. */
  lemma BoneIsTurned<G(!new)>(g: Group<G>, parents: seq<int>, rotations: map<nat, G>, j: nat, world: G)
    requires IsGroup(g) && Ordered(parents) && j < |parents|
    ensures var local := g.times.mul(g.inverse(WorldAbove(g.times, parents, rotations, j)), world);
            WorldOf(g.times, parents, rotations[j := local], j) == world
  {
    hide IsGroup, Product, Along, Above, WorldOf, WorldAbove;
    var m := g.times;
    var above := WorldAbove(m, parents, rotations, j);
    var local := m.mul(g.inverse(above), world);
    WorldSplits(m, parents, rotations[j := local], j);
    AboveStays(m, parents, rotations, j, local);
    Cancels(g, above, world);
  }

  lemma Cancels<G(!new)>(g: Group<G>, x: G, y: G)
    requires IsGroup(g)
    ensures g.times.mul(x, g.times.mul(g.inverse(x), y)) == y
  {
    Associates(g.times, x, g.inverse(x), y);
  }

  /** One more bone takes its turn: it is turned right, and those before it stay so. */
  lemma BoneJoins<G(!new), V(!new)>(g: Group<G>, h: Humanoid, a: Assignment, observed: seq<Observation<G, V>>,
                                    done: seq<Binding>, b: Binding, j: nat, rotations: map<nat, G>, world: G)
    requires IsGroup(g) && IsHumanoid(h) && InRange(a.bound, |observed|)
    requires TurnsRight(g.times, h, a, observed, done, rotations)
    requires PlacesAt(h, a, observed, b, j) && observed[b.observedIndex].rotation == Names(world)
    requires forall d, k: nat :: d in done && PlacesAt(h, a, observed, d, k) ==> k < j
    ensures var local := g.times.mul(g.inverse(WorldAbove(g.times, h.parents, rotations, j)), world);
            TurnsRight(g.times, h, a, observed, done + [b], rotations[j := local])
            && WorldOf(g.times, h.parents, rotations[j := local], j) == world
  {
    hide IsGroup, WorldOf, WorldAbove, ClassOf;
    var m := g.times;
    var local := m.mul(g.inverse(WorldAbove(m, h.parents, rotations, j)), world);
    var rotations' := rotations[j := local];
    BoneIsTurned(g, h.parents, rotations, j, world);
    forall k
      ensures k in rotations' <==> Places(h, a, observed, done + [b], k)
    {
      assert b in done + [b];
      if d :| d in done + [b] && PlacesAt(h, a, observed, d, k) && d !in done {
        assert d == b && k == j;
      }
      if k in rotations {
        var d :| d in done && PlacesAt(h, a, observed, d, k);
        assert d in done + [b];
      }
    }
    forall d, k | d in done + [b] && PlacesAt(h, a, observed, d, k)
      ensures observed[d.observedIndex].rotation == Names(WorldOf(m, h.parents, rotations', k))
    {
      if d in done {
        EarlierWorldsStay(m, h.parents, rotations, k, j, local);
      } else {
        assert d == b && k == j;
      }
    }
  }

  // ---- The solve ----

  /** Each binding to a joint comes after bindings to smaller joints only. */
  predicate InTurn(h: Humanoid, bindings: seq<Binding>) {
    forall i, k :: 0 <= i < k < |bindings| && JointOf(h, bindings[k].region).Some? ==>
      Rank(h, bindings[i].region) < JointOf(h, bindings[k].region).value
  }

  /** The bindings of an applicable assignment, in the order they are placed, come to different joints. */
  lemma PlacedOnce(h: Humanoid, bound: seq<Binding>, count: nat)
    requires IsHumanoid(h) && BindingsApply(bound, |bound|, count)
    ensures InTurn(h, ParentFirst(h, bound))
  {
    var ordered := ParentFirst(h, bound);
    ParentFirstSorts(h, bound);
    CountsOfDistinct(bound);
    hide ParentFirst;
    forall i, k | 0 <= i < k < |ordered| && JointOf(h, ordered[k].region).Some?
      ensures Rank(h, ordered[i].region) < JointOf(h, ordered[k].region).value
    {
      if Rank(h, ordered[i].region) == Rank(h, ordered[k].region) {
        assert JointOf(h, ordered[i].region) == JointOf(h, ordered[k].region);
        assert ordered[i] in bound && ordered[k] in bound;
        assert ordered[i] == ordered[k];
        Repeated(ordered, i, k);
      }
    }
  }

  lemma {:induction false} CountsOfDistinct(bound: seq<Binding>)
    requires forall i, k :: 0 <= i < k < |bound| ==> bound[i].region != bound[k].region
    ensures forall b :: multiset(bound)[b] <= 1
  {
    if bound != [] {
      var front, last := bound[..|bound| - 1], bound[|bound| - 1];
      CountsOfDistinct(front);
      assert bound == front + [last];
      assert last !in front;
    }
  }

  lemma Repeated(bindings: seq<Binding>, i: nat, k: nat)
    requires i < k < |bindings| && bindings[i] == bindings[k]
    ensures multiset(bindings)[bindings[i]] >= 2
  {
    assert bindings == bindings[..k] + bindings[k..];
    assert bindings[i] in bindings[..k] && bindings[k] in bindings[k..];
  }

  method NameBones<G, V>(h: Humanoid, a: Assignment, observed: seq<Observation<G, V>>)
    returns (named: set<nat>, oriented: set<nat>)
    requires InRange(a.bound, |observed|)
    ensures named == Named(h, a) && oriented == Oriented(h, a.bound, observed)
  {
    named, oriented := {}, {};
    for i := 0 to |a.absent|
      invariant named == set r | r in a.absent[..i] && JointOf(h, r).Some? :: JointOf(h, r).value
    {
      if JointOf(h, a.absent[i]).Some? {
        named := named + {JointOf(h, a.absent[i]).value};
      }
    }
    assert a.absent[..|a.absent|] == a.absent;
    ghost var absent := named;
    for i := 0 to |a.bound|
      invariant named == absent + set b | b in a.bound[..i] && JointOf(h, b.region).Some? :: JointOf(h, b.region).value
      invariant oriented == set b | b in a.bound[..i] && JointOf(h, b.region).Some?
                                    && observed[b.observedIndex].hasRotation :: JointOf(h, b.region).value
    {
      var b := a.bound[i];
      if JointOf(h, b.region).Some? {
        named := named + {JointOf(h, b.region).value};
        if observed[b.observedIndex].hasRotation {
          oriented := oriented + {JointOf(h, b.region).value};
        }
      }
    }
    assert a.bound[..|a.bound|] == a.bound;
  }

  method Classify<G, V>(h: Humanoid, a: Assignment, observed: seq<Observation<G, V>>, authorRootMotion: bool)
    returns (placed: seq<Region>, unsolved: seq<Region>, withoutRotation: seq<Region>, withheld: seq<Region>,
             positionsUnused: seq<Region>)
    requires IsHumanoid(h) && InRange(a.bound, |observed|)
    ensures Classified(h, a, observed, authorRootMotion,
                       Solve(NothingSolved, NoPose(), placed, unsolved, withoutRotation, withheld, positionsUnused))
  {
    hide FellSilent, Named, Oriented;
    placed, unsolved, withoutRotation, withheld, positionsUnused := [], [], [], [], [];
    var named, oriented := NameBones(h, a, observed);
    for i := 0 to |a.bound|
      invariant placed == RegionsOf(h, a, observed, Placed, i)
      invariant unsolved == RegionsOf(h, a, observed, Unsolved, i)
      invariant withoutRotation == RegionsOf(h, a, observed, WithoutRotation, i)
      invariant withheld == RegionsOf(h, a, observed, Withheld, i)
      invariant positionsUnused == PositionsUnused(h, a.bound, observed, authorRootMotion, i)
    {
      var b := a.bound[i];
      var o, joint := observed[b.observedIndex], JointOf(h, b.region);
      if joint.None? {
        unsolved := unsolved + [b.region];
      } else if !o.hasRotation {
        withoutRotation := withoutRotation + [b.region];
      } else {
        var silent := AncestorFellSilent(h.parents, joint.value, named, oriented);
        if silent {
          withheld := withheld + [b.region];
        } else {
          placed := placed + [b.region];
        }
      }
      if o.hasPosition && !ConsumesPosition(h, observed, authorRootMotion, b) {
        positionsUnused := positionsUnused + [b.region];
      }
    }
  }

  method CheckValues<G, V>(h: Humanoid, bound: seq<Binding>, observed: seq<Observation<G, V>>, authorRootMotion: bool)
    returns (sound: bool)
    requires InRange(bound, |observed|)
    ensures sound <==> forall b :: b in bound ==> IsSound(h, observed, authorRootMotion, b)
  {
    for i := 0 to |bound|
      invariant forall k :: 0 <= k < i ==> IsSound(h, observed, authorRootMotion, bound[k])
    {
      var b := bound[i];
      var o := observed[b.observedIndex];
      if JointOf(h, b.region).None? {
        continue;
      }
      if ConsumesPosition(h, observed, authorRootMotion, b) && o.position.None? {
        assert !IsSound(h, observed, authorRootMotion, b);
        return false;
      }
      if o.hasRotation && !o.rotation.Names? {
        assert !IsSound(h, observed, authorRootMotion, b);
        return false;
      }
    }
    sound := true;
  }

  method PlaceBones<G(!new), V(!new)>(g: Group<G>, h: Humanoid, a: Assignment, observed: seq<Observation<G, V>>,
                                      authorRootMotion: bool)
    returns (pose: Pose<G, V>)
    requires IsGroup(g) && IsHumanoid(h) && BindingsApply(a.bound, |a.bound|, |observed|) && InRange(a.bound, |observed|)
    requires forall b :: b in a.bound ==> IsSound(h, observed, authorRootMotion, b)
    ensures Reproduces(g.times, h, a, observed, authorRootMotion, pose)
  {
    hide FellSilent, Named, Oriented, WorldOf, WorldAbove, ParentFirst, IsGroup;
    var named, oriented := NameBones(h, a, observed);
    var ordered := ParentFirst(h, a.bound);
    PlacedOnce(h, a.bound, |observed|);
    pose := NoPose();
    for i := 0 to |ordered|
      invariant TurnsRight(g.times, h, a, observed, ordered[..i], pose.rotations)
      invariant StandsRight(h, observed, authorRootMotion, ordered[..i], pose.rootPosition)
      invariant pose.rootOrientation ==
        if h.hips in pose.rotations then Some(WorldOf(g.times, h.parents, pose.rotations, h.hips)) else None
    {
      var b := ordered[i];
      assert ordered[..i + 1] == ordered[..i] + [b];
      forall d | d in ordered[..i] && JointOf(h, b.region).Some?
        ensures Rank(h, d.region) < JointOf(h, b.region).value
      {
        var k :| 0 <= k < i && ordered[k] == d;
        assert 0 <= k < i < |ordered| && JointOf(h, ordered[i].region).Some?;
      }
      pose := PlaceBone(g, h, a, observed, authorRootMotion, named, oriented, ordered[..i], b, pose);
    }
    assert ordered[..|ordered|] == ordered;
  }

  /** One binding's turn in the placing loop. */
  method PlaceBone<G(!new), V(!new)>(g: Group<G>, h: Humanoid, a: Assignment, observed: seq<Observation<G, V>>,
                                     authorRootMotion: bool, named: set<nat>, oriented: set<nat>,
                                     ghost done: seq<Binding>, b: Binding, before: Pose<G, V>)
    returns (pose: Pose<G, V>)
    requires IsGroup(g) && IsHumanoid(h) && InRange(a.bound, |observed|) && InRange(done, |observed|)
    requires b in a.bound && IsSound(h, observed, authorRootMotion, b)
    requires named == Named(h, a) && oriented == Oriented(h, a.bound, observed)
    requires TurnsRight(g.times, h, a, observed, done, before.rotations)
    requires StandsRight(h, observed, authorRootMotion, done, before.rootPosition)
    requires before.rootOrientation ==
      if h.hips in before.rotations then Some(WorldOf(g.times, h.parents, before.rotations, h.hips)) else None
    requires forall d :: d in done && JointOf(h, b.region).Some? ==> Rank(h, d.region) < JointOf(h, b.region).value
    ensures TurnsRight(g.times, h, a, observed, done + [b], pose.rotations)
    ensures StandsRight(h, observed, authorRootMotion, done + [b], pose.rootPosition)
    ensures pose.rootOrientation ==
      if h.hips in pose.rotations then Some(WorldOf(g.times, h.parents, pose.rotations, h.hips)) else None
  {
    hide FellSilent, Named, Oriented, WorldOf, WorldAbove, IsGroup;
    pose := before;
    var o, joint := observed[b.observedIndex], JointOf(h, b.region);
    if joint.None? {
      SkippedStays(g.times, h, a, observed, done, b, pose.rotations);
      StandsOn(h, observed, authorRootMotion, done, b, pose.rootPosition);
      return;
    }
    if joint.value == h.hips && authorRootMotion && o.hasPosition {
      pose := pose.(rootPosition := o.position);
    }
    StandsOn(h, observed, authorRootMotion, done, b, before.rootPosition);
    if !o.hasRotation {
      SkippedStays(g.times, h, a, observed, done, b, pose.rotations);
      return;
    }
    var silent := AncestorFellSilent(h.parents, joint.value, named, oriented);
    if silent {
      SkippedStays(g.times, h, a, observed, done, b, pose.rotations);
      return;
    }
    var world := o.rotation.rotation;
    if joint.value == h.hips {
      pose := pose.(rootOrientation := Some(world));
    }
    assert IsMonoid(g.times) by { GroupIsMonoid(g); }
    var parentWorld := ParentWorldRotation(g.times, h.parents, joint.value, before.rotations);
    var local := g.times.mul(g.inverse(parentWorld), world);
    pose := pose.(rotations := pose.rotations[joint.value := local]);
    BoneJoins(g, h, a, observed, done, b, joint.value, before.rotations, world);
    if joint.value != h.hips && h.hips in before.rotations {
      HipsStay(g.times, h, a, observed, done, joint.value, before.rotations, local);
    }
  }

  lemma GroupIsMonoid<G(!new)>(g: Group<G>)
    requires IsGroup(g)
    ensures IsMonoid(g.times)
  {
  }

  lemma HipsStay<G(!new), V(!new)>(m: Monoid<G>, h: Humanoid, a: Assignment, observed: seq<Observation<G, V>>,
                                   done: seq<Binding>, j: nat, rotations: map<nat, G>, local: G)
    requires IsHumanoid(h) && InRange(a.bound, |observed|) && j < |h.parents|
    requires TurnsRight(m, h, a, observed, done, rotations) && h.hips in rotations
    requires forall d :: d in done ==> Rank(h, d.region) < j
    ensures WorldOf(m, h.parents, rotations[j := local], h.hips) == WorldOf(m, h.parents, rotations, h.hips)
  {
    hide WorldOf, ClassOf;
    assert Places(h, a, observed, done, h.hips);
    EarlierWorldsStay(m, h.parents, rotations, h.hips, j, local);
  }

  lemma SkippedStays<G(!new), V(!new)>(m: Monoid<G>, h: Humanoid, a: Assignment, observed: seq<Observation<G, V>>,
                                       done: seq<Binding>, b: Binding, rotations: map<nat, G>)
    requires IsHumanoid(h) && InRange(a.bound, |observed|) && b in a.bound
    requires TurnsRight(m, h, a, observed, done, rotations) && !ClassOf(h, a, observed, b).Placed?
    ensures TurnsRight(m, h, a, observed, done + [b], rotations)
  {
    hide WorldOf, ClassOf;
    forall j
      ensures Places(h, a, observed, done + [b], j) <==> Places(h, a, observed, done, j)
    {
      if Places(h, a, observed, done, j) {
        var d :| d in done && PlacesAt(h, a, observed, d, j);
        assert d in done + [b];
      }
    }
  }

  lemma StandsOn<G(!new), V(!new)>(h: Humanoid, observed: seq<Observation<G, V>>, authorRootMotion: bool,
                                   done: seq<Binding>, b: Binding, position: Option<V>)
    requires IsHumanoid(h) && InRange(done, |observed|) && b.observedIndex < |observed|
    requires StandsRight(h, observed, authorRootMotion, done, position) && IsSound(h, observed, authorRootMotion, b)
    requires forall d :: d in done && JointOf(h, b.region).Some? ==> Rank(h, d.region) < JointOf(h, b.region).value
    ensures StandsRight(h, observed, authorRootMotion, done + [b],
                        if ConsumesPosition(h, observed, authorRootMotion, b) then observed[b.observedIndex].position else position)
  {
    assert b in done + [b];
    assert forall d :: d in done ==> d in done + [b];
  }

  method SolveTrackerPose<G(!new), V(!new)>(g: Group<G>, h: Humanoid, a: Assignment, observed: seq<Observation<G, V>>,
                                            authorRootMotion: bool)
    returns (solve: Solve<G, V>)
    requires IsGroup(g) && IsHumanoid(h)
    ensures solve.refusal.AssignmentRefused? <==> !TrackerAssignment.Placed(a)
    ensures solve.refusal.AssignmentUnusable? <==> TrackerAssignment.Placed(a) && !Applies(a, Identities(observed))
    ensures !Applies(a, Identities(observed)) ==>
              solve == Solve(solve.refusal, NoPose(), [], [], [], [], [])
    ensures Applies(a, Identities(observed)) ==>
              && InRange(a.bound, |observed|) && Classified(h, a, observed, authorRootMotion, solve)
              && (solve.refusal.ObservationInvalid? <==>
                    exists b :: b in a.bound && !IsSound(h, observed, authorRootMotion, b))
              && (solve.refusal.ObservationInvalid? ==> solve.pose == NoPose())
              && (!solve.refusal.ObservationInvalid? ==>
                    Reproduces(g.times, h, a, observed, authorRootMotion, solve.pose))
              && (solve.refusal.NothingSolved? <==> (!solve.refusal.ObservationInvalid? && solve.pose == NoPose()))
  {
    hide Classified, Reproduces, IsGroup, IsHumanoid;
    solve := Solve(AssignmentRefused, NoPose(), [], [], [], [], []);
    if !TrackerAssignment.Placed(a) {
      return;
    }
    var applies := ValidateTrackerAssignmentObservation(a, Identities(observed));
    if !applies {
      solve := solve.(refusal := AssignmentUnusable);
      return;
    }
    assert InRange(a.bound, |observed|) by { BoundIsInRange(a, observed); }
    var placed, unsolved, withoutRotation, withheld, unused := Classify(h, a, observed, authorRootMotion);
    solve := Solve(NothingSolved, NoPose(), placed, unsolved, withoutRotation, withheld, unused);
    assert Classified(h, a, observed, authorRootMotion, solve);
    var sound := CheckValues(h, a.bound, observed, authorRootMotion);
    if !sound {
      ClassesStand(h, a, observed, authorRootMotion, solve, SolveRefusal.ObservationInvalid, NoPose());
      solve := solve.(refusal := SolveRefusal.ObservationInvalid);
      return;
    }
    var pose := PlaceBones(g, h, a, observed, authorRootMotion);
    RootOnlyWithBones(g.times, h, a, observed, authorRootMotion, pose);
    var refusal :=
      if pose.rotations.Keys == {} && pose.rootPosition.None? && pose.rootOrientation.None? then NothingSolved else Solved;
    ClassesStand(h, a, observed, authorRootMotion, solve, refusal, pose);
    solve := solve.(refusal := refusal, pose := pose);
  }

  lemma BoundIsInRange<G, V>(a: Assignment, observed: seq<Observation<G, V>>)
    requires Applies(a, Identities(observed))
    ensures InRange(a.bound, |observed|)
  {
  }

  lemma ClassesStand<G(!new), V(!new)>(h: Humanoid, a: Assignment, observed: seq<Observation<G, V>>, authorRootMotion: bool,
                                       s: Solve<G, V>, refusal: SolveRefusal, pose: Pose<G, V>)
    requires IsHumanoid(h) && InRange(a.bound, |observed|) && Classified(h, a, observed, authorRootMotion, s)
    ensures Classified(h, a, observed, authorRootMotion, s.(refusal := refusal, pose := pose))
  {
  }

  lemma RootOnlyWithBones<G(!new), V(!new)>(m: Monoid<G>, h: Humanoid, a: Assignment, observed: seq<Observation<G, V>>,
                                            authorRootMotion: bool, pose: Pose<G, V>)
    requires IsHumanoid(h) && InRange(a.bound, |observed|) && Reproduces(m, h, a, observed, authorRootMotion, pose)
    ensures pose.rotations.Keys == {} ==> pose.rotations == map[] && pose.rootOrientation.None?
  {
  }

  // ---- What a solve promises ----

  /** The bound regions split exactly into the four classes, each in binding order. */
  lemma {:induction false} BoundRegionsSplit<G, V>(h: Humanoid, a: Assignment, observed: seq<Observation<G, V>>, n: nat)
    requires IsHumanoid(h) && InRange(a.bound, |observed|) && n <= |a.bound|
    ensures multiset(RegionsOf(h, a, observed, Placed, n)) + multiset(RegionsOf(h, a, observed, Unsolved, n))
          + multiset(RegionsOf(h, a, observed, WithoutRotation, n)) + multiset(RegionsOf(h, a, observed, Withheld, n))
         == multiset(RegionsBound(a.bound[..n]))
  {
    hide ClassOf, RegionsOf, RegionsBound, IsHumanoid, InRange, Share;
    if n > 0 {
      BoundRegionsSplit(h, a, observed, n - 1);
      var b := a.bound[n - 1];
      BoundRegionsAppend(a.bound[..n - 1], b);
      assert a.bound[..n] == a.bound[..n - 1] + [b];
      RegionJoins(h, a, observed, Placed, n);
      RegionJoins(h, a, observed, Unsolved, n);
      RegionJoins(h, a, observed, WithoutRotation, n);
      RegionJoins(h, a, observed, Withheld, n);
      var class_ := ClassOf(h, a, observed, b);
      SplitBySum(class_, b.region);
      SumsAdd(multiset(RegionsOf(h, a, observed, Placed, n - 1)), multiset(RegionsOf(h, a, observed, Unsolved, n - 1)),
              multiset(RegionsOf(h, a, observed, WithoutRotation, n - 1)), multiset(RegionsOf(h, a, observed, Withheld, n - 1)),
              Share(class_, Placed, b.region), Share(class_, Unsolved, b.region),
              Share(class_, WithoutRotation, b.region), Share(class_, Withheld, b.region));
    } else {
      NoRegions(h, a, observed);
    }
  }

  lemma NoRegions<G, V>(h: Humanoid, a: Assignment, observed: seq<Observation<G, V>>)
    requires IsHumanoid(h) && InRange(a.bound, |observed|)
    ensures forall c :: RegionsOf(h, a, observed, c, 0) == []
    ensures RegionsBound(a.bound[..0]) == []
  {
  }

  lemma SumsAdd(a: multiset<Region>, b: multiset<Region>, c: multiset<Region>, d: multiset<Region>,
                w: multiset<Region>, x: multiset<Region>, y: multiset<Region>, z: multiset<Region>)
    ensures (a + w) + (b + x) + (c + y) + (d + z) == (a + b + c + d) + (w + x + y + z)
  {
  }

  function Share(class_: Class, mine: Class, region: Region): multiset<Region> {
    if class_ == mine then multiset{region} else multiset{}
  }

  lemma SplitBySum(class_: Class, region: Region)
    ensures Share(class_, Placed, region) + Share(class_, Unsolved, region) + Share(class_, WithoutRotation, region)
          + Share(class_, Withheld, region) == multiset{region}
  {
  }

  lemma RegionJoins<G, V>(h: Humanoid, a: Assignment, observed: seq<Observation<G, V>>, class_: Class, n: nat)
    requires IsHumanoid(h) && InRange(a.bound, |observed|) && 0 < n <= |a.bound|
    ensures multiset(RegionsOf(h, a, observed, class_, n)) == multiset(RegionsOf(h, a, observed, class_, n - 1))
      + Share(ClassOf(h, a, observed, a.bound[n - 1]), class_, a.bound[n - 1].region)
  {
    hide ClassOf;
  }

  /** What lies above a bone above `j` lies above `j`. */
  lemma {:induction false} AboveNests(parents: seq<int>, j: nat, k: nat, l: nat)
    requires Ordered(parents) && j < |parents| && k in Above(parents, j) && l < |parents| && l in Above(parents, k)
    ensures l in Above(parents, j)
  {
    if k != parents[j] {
      AboveNests(parents, parents[j], k, l);
    }
  }

  /** Every named bone above a placed one is itself placed: the placed set is closed upwards. */
  lemma PlacedSetIsClosed<G(!new), V(!new)>(m: Monoid<G>, h: Humanoid, a: Assignment, observed: seq<Observation<G, V>>,
                                            authorRootMotion: bool, pose: Pose<G, V>, j: nat, k: nat)
    requires IsHumanoid(h) && InRange(a.bound, |observed|)
    requires Reproduces(m, h, a, observed, authorRootMotion, pose)
    requires j in pose.rotations && j < |h.parents| && k in Above(h.parents, j) && k in Named(h, a)
    ensures k in pose.rotations
  {
    hide WorldOf;
    var b :| b in a.bound && PlacesAt(h, a, observed, b, j);
    var named, oriented := Named(h, a), Oriented(h, a.bound, observed);
    assert !FellSilent(h.parents, j, named, oriented);
    assert k in oriented;
    var c :| c in a.bound && JointOf(h, c.region) == Some(k) && observed[c.observedIndex].hasRotation;
    if FellSilent(h.parents, k, named, oriented) {
      var l :| l in Above(h.parents, k) && l in named && l !in oriented;
      AboveNests(h.parents, j, k, l);
    }
    assert PlacesAt(h, a, observed, c, k);
  }

  /** At most one pose reproduces an observation: the solve is the inverse of composing down the table. */
  lemma {:induction false} SolutionIsUnique<G(!new), V(!new)>(
      g: Group<G>, h: Humanoid, a: Assignment, observed: seq<Observation<G, V>>,
      one: map<nat, G>, other: map<nat, G>, j: nat)
    requires IsGroup(g) && IsHumanoid(h) && InRange(a.bound, |observed|)
    requires TurnsRight(g.times, h, a, observed, a.bound, one) && TurnsRight(g.times, h, a, observed, a.bound, other)
    requires j <= |h.parents|
    ensures forall k :: 0 <= k < j && k in one ==> k in other && one[k] == other[k]
  {
    hide IsGroup, Product, Along, ClassOf, TurnsRight, WorldOf, WorldAbove, Above;
    if j > 0 {
      SolutionIsUnique(g, h, a, observed, one, other, j - 1);
      var k := j - 1;
      if k in one {
        SameWorlds(g.times, h, a, observed, one, other, k);
        AgreeAbove(g.times, h.parents, one, other, k);
        WorldSplits(g.times, h.parents, one, k);
        WorldSplits(g.times, h.parents, other, k);
        LeftCancels(g, WorldAbove(g.times, h.parents, one, k), one[k], other[k]);
      }
    }
  }

  lemma SameWorlds<G(!new), V(!new)>(m: Monoid<G>, h: Humanoid, a: Assignment, observed: seq<Observation<G, V>>,
                                     one: map<nat, G>, other: map<nat, G>, k: nat)
    requires IsHumanoid(h) && InRange(a.bound, |observed|) && k < |h.parents| && k in one
    requires TurnsRight(m, h, a, observed, a.bound, one) && TurnsRight(m, h, a, observed, a.bound, other)
    ensures k in other && WorldOf(m, h.parents, one, k) == WorldOf(m, h.parents, other, k)
    ensures forall l :: l in one <==> l in other
  {
    hide WorldOf, ClassOf;
    var b :| b in a.bound && PlacesAt(h, a, observed, b, k);
  }

  lemma AgreeAbove<G(!new)>(m: Monoid<G>, parents: seq<int>, one: map<nat, G>, other: map<nat, G>, k: nat)
    requires Ordered(parents) && k < |parents|
    requires forall l :: l in one <==> l in other
    requires forall l :: 0 <= l < k && l in one ==> one[l] == other[l]
    ensures WorldAbove(m, parents, one, k) == WorldAbove(m, parents, other, k)
  {
    hide Product;
    AlongAgrees(LocalOf(m, one), LocalOf(m, other), Above(parents, k));
  }

  lemma LeftCancels<G(!new)>(g: Group<G>, x: G, y: G, z: G)
    requires IsGroup(g) && g.times.mul(x, y) == g.times.mul(x, z)
    ensures y == z
  {
    Associates(g.times, g.inverse(x), x, y);
    Associates(g.times, g.inverse(x), x, z);
  }

  /** A sound frame solves nothing exactly when no binding is placed and no root position is consumed. */
  lemma NothingSolvedIff<G(!new), V(!new)>(m: Monoid<G>, h: Humanoid, a: Assignment, observed: seq<Observation<G, V>>,
                                           authorRootMotion: bool, pose: Pose<G, V>)
    requires IsHumanoid(h) && InRange(a.bound, |observed|)
    requires Reproduces(m, h, a, observed, authorRootMotion, pose)
    ensures pose == NoPose() <==>
      forall b :: b in a.bound ==>
        !ClassOf(h, a, observed, b).Placed? && !ConsumesPosition(h, observed, authorRootMotion, b)
  {
    hide WorldOf, ClassOf;
    forall b | b in a.bound && ClassOf(h, a, observed, b).Placed?
      ensures JointOf(h, b.region).Some? && JointOf(h, b.region).value in pose.rotations
    {
      PlacedHasAJoint(h, a, observed, b);
      assert PlacesAt(h, a, observed, b, JointOf(h, b.region).value);
    }
    forall j | j in pose.rotations
      ensures exists b :: b in a.bound && ClassOf(h, a, observed, b).Placed?
    {
      var b :| b in a.bound && PlacesAt(h, a, observed, b, j);
    }
    assert pose.rotations == map[] <==> forall j :: j !in pose.rotations;
  }

  lemma PlacedHasAJoint<G, V>(h: Humanoid, a: Assignment, observed: seq<Observation<G, V>>, b: Binding)
    requires IsHumanoid(h) && InRange(a.bound, |observed|) && b in a.bound && ClassOf(h, a, observed, b).Placed?
    ensures JointOf(h, b.region).Some?
  {
  }
}
