/**
 A device rig collapsed onto a sparser humanoid, as SkeletonMap.cpp does it: each bound joint takes
 the composition of the joints from just below its nearest bound ancestor down to itself.
 */
module MocopiSkeleton {
  import opened Bytes
  import opened Kinematics

  /**
   A rig: each joint's parent, and the humanoid bone it carries, by that bone's number, if any;
   `slots` counts the humanoid bones there are.
   */
  datatype Rig = Rig(parents: seq<int>, bones: seq<Option<nat>>, slots: nat)

  predicate IsRig(r: Rig) {
    && |r.parents| == |r.bones| > 0 && Ordered(r.parents)
    && (forall j :: 0 <= j < |r.bones| && r.bones[j].Some? ==> r.bones[j].value < r.slots)
    && forall i, j :: 0 <= i < j < |r.bones| && r.bones[i].Some? ==> r.bones[i] != r.bones[j]
  }

  predicate Binds(r: Rig, j: nat)
    requires j < |r.bones|
  {
    r.bones[j].Some?
  }

  // ---- Paths ----

  /** The joints from just below `j`'s nearest bound ancestor down to `j`, root first. */
  function Path(r: Rig, j: nat): (path: seq<nat>)
    requires IsRig(r) && j < |r.parents|
    ensures path != [] && path[|path| - 1] == j && |path| <= j + 1
    ensures Within(path, j + 1)
  {
    (if r.parents[j] < 0 || Binds(r, r.parents[j]) then [] else Path(r, r.parents[j])) + [j]
  }

  /** The bound joints among `joints`, in order. */
  function Bound(r: Rig, joints: seq<nat>): (bound: seq<nat>)
    requires IsRig(r) && Within(joints, |r.parents|)
    ensures Within(bound, |r.parents|) && forall j :: j in bound ==> j in joints && Binds(r, j)
  {
    if joints == [] then []
    else
      var last := joints[|joints| - 1];
      Bound(r, joints[..|joints| - 1]) + if Binds(r, last) then [last] else []
  }

  function Paths(r: Rig, joints: seq<nat>): (paths: seq<seq<nat>>)
    requires IsRig(r) && Within(joints, |r.parents|)
    ensures |paths| == |joints|
  {
    seq(|joints|, i requires 0 <= i < |joints| => Path(r, joints[i]))
  }

  lemma BoundAppend(r: Rig, joints: seq<nat>, j: nat)
    requires IsRig(r) && Within(joints, |r.parents|) && j < |r.parents|
    ensures Bound(r, joints + [j]) == Bound(r, joints) + if Binds(r, j) then [j] else []
  {
    assert (joints + [j])[..|joints|] == joints;
  }

  lemma PathsAppend(r: Rig, joints: seq<nat>, j: nat)
    requires IsRig(r) && Within(joints, |r.parents|) && j < |r.parents|
    ensures Concat(Paths(r, joints + [j])) == Concat(Paths(r, joints)) + Path(r, j)
  {
    hide Path;
    assert Paths(r, joints + [j]) == Paths(r, joints) + [Path(r, j)];
    ConcatAppend(Paths(r, joints), [Path(r, j)]);
    assert [Path(r, j)][1..] == [];
  }

  /** A joint's chain is the paths of the bound joints above it, end to end, and then its own path. */
  lemma {:induction false} PathsReach(r: Rig, j: nat)
    requires IsRig(r) && j < |r.parents|
    ensures Concat(Paths(r, Bound(r, Above(r.parents, j)))) + Path(r, j) == Chain(r.parents, j)
  {
    hide Bound, Concat, Paths;
    if r.parents[j] >= 0 {
      var p: nat := r.parents[j];
      PathsReach(r, p);
      var above := Above(r.parents, p);
      BoundAppend(r, above, p);
      if Binds(r, p) {
        PathsAppend(r, Bound(r, above), p);
      } else {
        assert Bound(r, above) + [] == Bound(r, above);
      }
    } else {
      NothingBound(r);
    }
  }

  lemma NothingBound(r: Rig)
    requires IsRig(r)
    ensures Concat(Paths(r, Bound(r, []))) == []
  {
  }

  /** The paths of the bound joints from the root to a bound joint, end to end, are its whole chain. */
  lemma PathsCoverTheChain(r: Rig, j: nat)
    requires IsRig(r) && j < |r.parents| && Binds(r, j)
    ensures Concat(Paths(r, Bound(r, Chain(r.parents, j)))) == Chain(r.parents, j)
  {
    hide Bound, Concat, Paths;
    PathsReach(r, j);
    BoundAppend(r, Above(r.parents, j), j);
    PathsAppend(r, Bound(r, Above(r.parents, j)), j);
  }

  /**
   Whatever is composed joint by joint, giving each bound joint the composition along its path gives
   every bound joint the composition along its whole chain.
   */
  lemma CollapseKeepsTheWorld<M(!new)>(m: Monoid<M>, r: Rig, j: nat, source: nat -> M, collapsed: nat -> M)
    requires IsMonoid(m) && IsRig(r) && j < |r.parents| && Binds(r, j)
    requires forall k :: k in Bound(r, Chain(r.parents, j)) ==> (k < |r.parents| && collapsed(k) == Product(m, Along(source, Path(r, k))))
    ensures Product(m, Along(collapsed, Bound(r, Chain(r.parents, j)))) == Product(m, Along(source, Chain(r.parents, j)))
  {
    var bound := Bound(r, Chain(r.parents, j));
    var pieces := seq(|bound|, i requires 0 <= i < |bound| => Along(source, Path(r, bound[i])));
    assert Along(collapsed, bound) == Products(m, pieces);
    ProductOfPieces(m, pieces);
    AlongPieces(source, Paths(r, bound), pieces);
    PathsCoverTheChain(r, j);
  }

  lemma {:induction false} AlongPieces<M>(source: nat -> M, paths: seq<seq<nat>>, pieces: seq<seq<M>>)
    requires |paths| == |pieces| && forall i :: 0 <= i < |paths| ==> pieces[i] == Along(source, paths[i])
    ensures Along(source, Concat(paths)) == Concat(pieces)
  {
    if paths != [] {
      AlongPieces(source, paths[1..], pieces[1..]);
      AlongAppend(source, paths[0], Concat(paths[1..]));
    }
  }

  lemma RigIsOrdered(r: Rig)
    requires IsRig(r)
    ensures |r.parents| == |r.bones| > 0 && Ordered(r.parents)
  {
  }

  /** The path walk: joints towards the root into an array, then turned over in place. */
  lemma PathStarts(r: Rig, j: nat)
    requires IsRig(r) && j < |r.parents|
    ensures Path(r, j) == Path(r, j) + Reversed([])
  {
    assert Path(r, j) + [] == Path(r, j);
  }

  /** One joint more of the walk, from the path's end. */
  lemma PathGrows(r: Rig, j: nat, walked: seq<nat>)
    requires IsRig(r) && j < |r.parents|
    ensures Path(r, j) + Reversed(walked) ==
            (if r.parents[j] < 0 || Binds(r, r.parents[j]) then [] else Path(r, r.parents[j])) + Reversed(walked + [j])
  {
    hide IsRig, Reversed;
    RigIsOrdered(r);
    ReversedGrows(walked, j);
    var front := if r.parents[j] < 0 || Binds(r, r.parents[j]) then [] else Path(r, r.parents[j]);
    assert Path(r, j) == front + [j];
    Reassociated(front, j, Reversed(walked));
  }

  lemma Reassociated(front: seq<nat>, j: nat, rest: seq<nat>)
    ensures (front + [j]) + rest == front + ([j] + rest)
  {
  }

  lemma ReversedGrows(s: seq<nat>, j: nat)
    ensures Reversed(s + [j]) == [j] + Reversed(s)
  {
    assert (s + [j])[..|s|] == s;
  }

  method PathFromNearestBoundAncestor(r: Rig, jointId: nat) returns (joints: array<nat>, size: nat)
    requires IsRig(r) && jointId < |r.parents|
    ensures joints.Length == |r.parents| && size <= joints.Length
    ensures joints[..size] == Path(r, jointId)
  {
    hide IsRig, Path, Reversed;
    RigIsOrdered(r);
    PathStarts(r, jointId);
    joints := new nat[|r.parents|](_ => 0);
    size := 0;
    var walker: nat := jointId;
    while true
      invariant walker <= jointId && size <= jointId - walker
      invariant 0 <= walker
      invariant Path(r, jointId) == Path(r, walker) + Reversed(joints[..size])
      decreases walker
    {
      PathGrows(r, walker, joints[..size]);
      joints[size] := walker;
      size := size + 1;
      assert joints[..size] == joints[..size - 1] + [walker];
      var parent := r.parents[walker];
      if parent < 0 || Binds(r, parent) {
        break;
      }
      walker := parent;
    }
    assert Path(r, jointId) == Reversed(joints[..size]);
    TurnOver(joints, size);
  }

  function Reversed(s: seq<nat>): (t: seq<nat>)
    ensures |t| == |s|
    ensures forall k :: 0 <= k < |s| ==> t[k] == s[|s| - 1 - k]
  {
    if s == [] then [] else [s[|s| - 1]] + Reversed(s[..|s| - 1])
  }

  method TurnOver(a: array<nat>, size: nat)
    requires 1 <= size <= a.Length
    modifies a
    ensures a[..size] == Reversed(old(a[..size])) && a[size..] == old(a[size..])
  {
    var front, back := 0, size - 1;
    while front < back
      invariant front + back == size - 1 && front <= back + 1
      invariant forall k :: 0 <= k < front ==> a[k] == old(a[size - 1 - k]) && a[size - 1 - k] == old(a[k])
      invariant forall k :: front <= k <= back ==> a[k] == old(a[k])
      invariant a[size..] == old(a[size..])
    {
      a[front], a[back] := a[back], a[front];
      front, back := front + 1, back - 1;
    }
  }

  method AllPaths(r: Rig) returns (paths: seq<seq<nat>>)
    requires IsRig(r)
    ensures |paths| == |r.parents|
    ensures forall j :: 0 <= j < |paths| ==> paths[j] == Path(r, j)
  {
    hide Path, IsRig;
    paths := [];
    for jointId := 0 to |r.parents|
      invariant |paths| == jointId
      invariant forall j :: 0 <= j < jointId ==> paths[j] == Path(r, j)
    {
      var joints, size := PathFromNearestBoundAncestor(r, jointId);
      paths := paths + [joints[..size]];
    }
  }
}
