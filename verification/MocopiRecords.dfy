/**
 A mocopi frame told record by record: which rigs are taken, which record of a frame is read, which goes
 unused and which is refused, and what the mapping counts, without the walk that counts it.
 */
module MocopiRecords {
  import opened Bytes
  import opened Kinematics
  import opened MocopiMapping
  import opened MocopiSkeleton

  // ---- The rigs that are taken ----

  /** The measured joints, each in its place under its own parent and with an orientation, then joints of other numbers. */
  ghost predicate IsRigAndMore<G(!new), V(!new)>(r: Rig, skeleton: seq<BoneDefinition<G, V>>) {
    exists own: seq<BoneDefinition<G, V>>, more: seq<BoneDefinition<G, V>> ::
      skeleton == own + more && AreOwn(r, own) && forall d :: d in more ==> d.boneId >= |r.parents|
  }

  predicate AreOwn<G, V>(r: Rig, own: seq<BoneDefinition<G, V>>) {
    && |own| == |r.parents|
    && forall i :: 0 <= i < |own| ==> own[i].boneId == i && own[i].parentBoneId == r.parents[i] && own[i].rest.orients
  }

  lemma ReadableIsRig<G(!new), V(!new)>(r: Rig, skeleton: seq<BoneDefinition<G, V>>)
    requires Readable(r, skeleton)
    ensures IsRigAndMore(r, skeleton)
  {
    var n := |r.parents|;
    var own, more := skeleton[..n], skeleton[n..];
    forall i | 0 <= i < n
      ensures own[i].boneId == i && own[i].parentBoneId == r.parents[i] && own[i].rest.orients
    {
      assert Fits(r, skeleton, i);
    }
    assert skeleton == own + more && AreOwn(r, own);
    forall d | d in more
      ensures d.boneId >= n
    {
      var i :| 0 <= i < |more| && more[i] == d;
      assert skeleton[n + i] == d;
    }
  }

  lemma RigIsReadable<G(!new), V(!new)>(r: Rig, own: seq<BoneDefinition<G, V>>, more: seq<BoneDefinition<G, V>>)
    requires AreOwn(r, own) && forall d :: d in more ==> d.boneId >= |r.parents|
    ensures Readable(r, own + more)
  {
    var skeleton, n := own + more, |r.parents|;
    forall i | 0 <= i < n
      ensures Fits(r, skeleton, i)
    {
      assert skeleton[i] == own[i];
    }
    forall i | n <= i < |skeleton|
      ensures skeleton[i].boneId >= n
    {
      assert skeleton[i] == more[i - n];
    }
  }

  /** A skeleton is taken exactly when it is the rig and possibly more. */
  lemma ReadableIff<G(!new), V(!new)>(r: Rig, skeleton: seq<BoneDefinition<G, V>>)
    ensures Readable(r, skeleton) <==> IsRigAndMore(r, skeleton)
  {
    hide Readable, AreOwn;
    if Readable(r, skeleton) {
      hide IsRigAndMore;
      ReadableIsRig(r, skeleton);
    } else if IsRigAndMore(r, skeleton) {
      var own: seq<BoneDefinition<G, V>>, more: seq<BoneDefinition<G, V>> :|
        skeleton == own + more && AreOwn(r, own) && forall d :: d in more ==> d.boneId >= |r.parents|;
      RigIsReadable(r, own, more);
    }
  }

  // ---- The fate of a record ----

  /** A record of a declared joint of the rig. */
  predicate IsOf<G, V>(r: Rig, declared: nat, b: BoneRecord<G, V>) {
    b.boneId < |r.parents| && b.boneId < declared
  }

  /** An earlier record of the same joint says how it turns. */
  predicate IsPreceded<G, V>(frame: seq<BoneRecord<G, V>>, k: nat)
    requires k < |frame|
  {
    exists i :: 0 <= i < k && frame[i].boneId == frame[k].boneId && frame[i].transform.orients
  }

  predicate IsUnused<G, V>(r: Rig, declared: nat, frame: seq<BoneRecord<G, V>>, k: int) {
    0 <= k < |frame| && (!IsOf(r, declared, frame[k]) || IsPreceded(frame, k))
  }

  predicate IsRefused<G, V>(r: Rig, declared: nat, frame: seq<BoneRecord<G, V>>, k: int) {
    0 <= k < |frame| && IsOf(r, declared, frame[k]) && !IsPreceded(frame, k) && !frame[k].transform.orients
  }

  predicate IsRead<G, V>(r: Rig, declared: nat, frame: seq<BoneRecord<G, V>>, k: int) {
    0 <= k < |frame| && IsOf(r, declared, frame[k]) && !IsPreceded(frame, k) && frame[k].transform.orients
  }

  ghost function UnusedOnes<G(!new), V(!new)>(r: Rig, declared: nat, frame: seq<BoneRecord<G, V>>): set<int> {
    set k | 0 <= k < |frame| && IsUnused(r, declared, frame, k)
  }

  ghost function RefusedOnes<G(!new), V(!new)>(r: Rig, declared: nat, frame: seq<BoneRecord<G, V>>): set<int> {
    set k | 0 <= k < |frame| && IsRefused(r, declared, frame, k)
  }

  /** Whether a joint's record was read, and which. */
  lemma {:induction false} RecordIff<G(!new), V(!new)>(frame: seq<BoneRecord<G, V>>, id: nat)
    ensures RecordOf(frame, id).Some? <==> exists k :: 0 <= k < |frame| && frame[k].boneId == id && frame[k].transform.orients
    ensures forall k :: 0 <= k < |frame| && frame[k].boneId == id && frame[k].transform.orients && !IsPreceded(frame, k) ==>
              RecordOf(frame, id) == Some(frame[k].transform)
  {
    if k :| 0 <= k < |frame| && frame[k].boneId == id && frame[k].transform.orients {
      var first := FirstOne(frame, id, k);
      FirstUsableRecordIsRead(frame, id, first);
      forall j | 0 <= j < |frame| && frame[j].boneId == id && frame[j].transform.orients && !IsPreceded(frame, j)
        ensures j == first
      {
      }
    } else {
      NoUsableRecord(frame, id);
    }
  }

  lemma {:induction false} FirstOne<G(!new), V(!new)>(frame: seq<BoneRecord<G, V>>, id: nat, k: nat) returns (first: nat)
    requires k < |frame| && frame[k].boneId == id && frame[k].transform.orients
    ensures first <= k && frame[first].boneId == id && frame[first].transform.orients
    ensures forall i :: 0 <= i < first ==> frame[i].boneId != id || !frame[i].transform.orients
    decreases k
  {
    first := k;
    if i :| 0 <= i < k && frame[i].boneId == id && frame[i].transform.orients {
      first := FirstOne(frame, id, i);
    }
  }

  lemma OneMore(before: set<int>, after: set<int>, n: int, more: bool)
    requires n !in before
    requires forall k :: k in after <==> (k in before || (k == n && more))
    ensures |after| == |before| + if more then 1 else 0
  {
    var joined := if more then before + {n} else before;
    assert forall k :: k in after <==> k in joined;
    assert after == joined;
  }

  lemma LastFate<G(!new), V(!new)>(r: Rig, declared: nat, frame: seq<BoneRecord<G, V>>)
    requires frame != []
    ensures var last := |frame| - 1;
            && (FateOfLast(r, declared, frame) == Fate.Unused <==> IsUnused(r, declared, frame, last))
            && (FateOfLast(r, declared, frame) == Fate.Unoriented <==> IsRefused(r, declared, frame, last))
  {
    var last := |frame| - 1;
    RecordIff(frame[..last], frame[last].boneId);
    assert forall i :: 0 <= i < last ==> frame[..last][i] == frame[i];
    assert IsPreceded(frame, last) <==> RecordOf(frame[..last], frame[last].boneId).Some? by {
      if k :| 0 <= k < last && frame[k].boneId == frame[last].boneId && frame[k].transform.orients {
        assert frame[..last][k].boneId == frame[last].boneId;
      }
    }
  }

  lemma FatesStay<G(!new), V(!new)>(r: Rig, declared: nat, frame: seq<BoneRecord<G, V>>, n: nat, k: int)
    requires n <= |frame| && k < n
    ensures IsUnused(r, declared, frame[..n], k) == IsUnused(r, declared, frame, k)
    ensures IsRefused(r, declared, frame[..n], k) == IsRefused(r, declared, frame, k)
  {
    if 0 <= k {
      assert forall i :: 0 <= i < n ==> frame[..n][i] == frame[i];
    }
  }

  /** The two counts of a frame's records are the numbers of those unused and of those refused. */
  lemma {:induction false} FatesAreCounted<G(!new), V(!new)>(r: Rig, declared: nat, frame: seq<BoneRecord<G, V>>)
    ensures FateCount(r, declared, frame, Fate.Unused) == |UnusedOnes(r, declared, frame)|
    ensures FateCount(r, declared, frame, Fate.Unoriented) == |RefusedOnes(r, declared, frame)|
  {
    hide IsUnused, IsRefused, FateOfLast;
    if frame == [] {
      assert UnusedOnes(r, declared, frame) == {} && RefusedOnes(r, declared, frame) == {};
    } else {
      var last := |frame| - 1;
      FatesAreCounted(r, declared, frame[..last]);
      LastFate(r, declared, frame);
      forall k | k < last
        ensures IsUnused(r, declared, frame[..last], k) == IsUnused(r, declared, frame, k)
        ensures IsRefused(r, declared, frame[..last], k) == IsRefused(r, declared, frame, k)
      {
        FatesStay(r, declared, frame, last, k);
      }
      OneMore(UnusedOnes(r, declared, frame[..last]), UnusedOnes(r, declared, frame), last, IsUnused(r, declared, frame, last));
      OneMore(RefusedOnes(r, declared, frame[..last]), RefusedOnes(r, declared, frame), last, IsRefused(r, declared, frame, last));
    }
  }

  // ---- What the mapping says ----

  /** What a frame says of a joint, by the record that is read. */
  predicate Says<G, V(==)>(r: Rig, declared: nat, frame: seq<BoneRecord<G, V>>, j: int, offset: V) {
    exists k :: 0 <= k < |frame| && IsRead(r, declared, frame, k) && frame[k].boneId == j && frame[k].transform.offset == offset
  }

  predicate IsSilent<G, V>(r: Rig, declared: nat, frame: seq<BoneRecord<G, V>>, j: int) {
    forall k :: 0 <= k < |frame| && IsRead(r, declared, frame, k) ==> frame[k].boneId != j
  }

  lemma JointIff<G(!new), V(!new)>(r: Rig, declared: nat, frame: seq<BoneRecord<G, V>>, j: nat)
    requires j < |r.parents|
    ensures var record := RecordsOf(r, declared, frame)[j];
            && (record.None? <==> IsSilent(r, declared, frame, j))
            && forall offset :: (record.Some? && record.value.offset == offset) <==> Says(r, declared, frame, j, offset)
  {
    var record := RecordsOf(r, declared, frame)[j];
    if j < declared {
      RecordIff(frame, j);
      if record.Some? {
        var k :| 0 <= k < |frame| && frame[k].boneId == j && frame[k].transform.orients;
        var first := FirstOne(frame, j, k);
        assert IsRead(r, declared, frame, first) && record == Some(frame[first].transform);
        forall k | 0 <= k < |frame| && IsRead(r, declared, frame, k) && frame[k].boneId == j
          ensures k == first
        {
        }
      }
    }
  }

  /** The joints past the root whose offset left its rest. */
  ghost function Strayed<G(!new), V(!new)>(r: Rig, declared: nat, rests: seq<V>, frame: seq<BoneRecord<G, V>>, n: nat): set<int>
    requires n <= |rests|
  {
    set j | 1 <= j < n && !IsSilent(r, declared, frame, j) && !Says(r, declared, frame, j, rests[j])
  }

  lemma {:induction false} StrayedAreCounted<G(!new), V(!new)>(r: Rig, declared: nat, rests: seq<V>, frame: seq<BoneRecord<G, V>>, n: nat)
    requires n <= |rests| == |r.parents|
    ensures Dropped(rests, RecordsOf(r, declared, frame), n) == |Strayed(r, declared, rests, frame, n)|
  {
    hide RecordsOf, IsSilent, Says;
    if n <= 1 {
      assert Strayed(r, declared, rests, frame, n) == {};
    } else {
      var j := n - 1;
      StrayedAreCounted(r, declared, rests, frame, j);
      JointIff(r, declared, frame, j);
      assert RecordsOf(r, declared, frame)[j].Some? && RecordsOf(r, declared, frame)[j].value.offset != rests[j] <==>
             !IsSilent(r, declared, frame, j) && !Says(r, declared, frame, j, rests[j]);
      OneMore(Strayed(r, declared, rests, frame, j), Strayed(r, declared, rests, frame, n), j,
              !IsSilent(r, declared, frame, j) && !Says(r, declared, frame, j, rests[j]));
    }
  }

  /** A declared joint that bears a bone and has a silent joint on its path. */
  predicate IsMissing<G, V>(r: Rig, declared: nat, frame: seq<BoneRecord<G, V>>, j: int)
    requires IsRig(r)
  {
    && 0 <= j < |r.parents| && j < declared && r.bones[j].Some?
    && exists i :: 0 <= i < |Path(r, j)| && IsSilent(r, declared, frame, Path(r, j)[i])
  }

  ghost function MissingOnes<G(!new), V(!new)>(r: Rig, declared: nat, frame: seq<BoneRecord<G, V>>, n: nat): set<int>
    requires IsRig(r)
  {
    set j | 0 <= j < n && IsMissing(r, declared, frame, j)
  }

  lemma ArrivedIff<G(!new), V(!new)>(r: Rig, declared: nat, frame: seq<BoneRecord<G, V>>, joints: seq<nat>)
    requires forall i :: 0 <= i < |joints| ==> joints[i] < |r.parents|
    ensures Arrived(RecordsOf(r, declared, frame), joints) <==>
            forall i :: 0 <= i < |joints| ==> !IsSilent(r, declared, frame, joints[i])
  {
    hide RecordsOf, IsSilent;
    forall i | 0 <= i < |joints|
      ensures RecordsOf(r, declared, frame)[joints[i]].Some? <==> !IsSilent(r, declared, frame, joints[i])
    {
      SilentIff(r, declared, frame, joints[i]);
    }
  }

  lemma SilentIff<G(!new), V(!new)>(r: Rig, declared: nat, frame: seq<BoneRecord<G, V>>, j: nat)
    requires j < |r.parents|
    ensures RecordsOf(r, declared, frame)[j].None? <==> IsSilent(r, declared, frame, j)
  {
    if j < declared {
      RecordIff(frame, j);
      if k :| 0 <= k < |frame| && frame[k].boneId == j && frame[k].transform.orients {
        var first := FirstOne(frame, j, k);
        assert IsRead(r, declared, frame, first);
      }
    }
  }

  lemma {:induction false} MissingAreCounted<G(!new), V(!new)>(r: Rig, declared: nat, frame: seq<BoneRecord<G, V>>, n: nat)
    requires IsRig(r) && n <= |r.parents|
    ensures Missing(r, declared, RecordsOf(r, declared, frame), n) == |MissingOnes(r, declared, frame, n)|
  {
    hide RecordsOf, IsSilent, Path, Arrived, IsRig;
    if n == 0 {
      assert MissingOnes(r, declared, frame, n) == {};
    } else {
      var j := n - 1;
      MissingAreCounted(r, declared, frame, j);
      ArrivedIff(r, declared, frame, Path(r, j));
      OneMore(MissingOnes(r, declared, frame, j), MissingOnes(r, declared, frame, n), j, IsMissing(r, declared, frame, j));
    }
  }

  /**
   A mapping told record by record: the hips' offset is that of the root's record, and the three counts
   are the numbers of the records unused, of the joints that strayed from their rest, and of the bones missing.
   */
  lemma MappingIsByRecord<G(!new), V(!new)>(rotations: Monoid<G>, r: Rig, m: SkeletonMap<G, V>,
                                               frame: seq<BoneRecord<G, V>>, mapping: Mapping<G, V>)
    requires IsRig(r) && |m.jointRests| == |r.parents| && IsMappingOf(rotations, r, m, frame, mapping)
    ensures mapping.hips.None? <==> IsSilent(r, m.jointCount, frame, 0)
    ensures mapping.hips.Some? ==> Says(r, m.jointCount, frame, 0, mapping.hips.value)
    ensures mapping.unusedJoints == |UnusedOnes(r, m.jointCount, frame)|
    ensures mapping.droppedTranslations == |Strayed(r, m.jointCount, m.jointRests, frame, |r.parents|)|
    ensures mapping.missingJoints == |MissingOnes(r, m.jointCount, frame, |r.parents|)|
  {
    hide RecordsOf, IsSilent, Says, ComposedUpTo, Sampled, Formed, Missing, Dropped, FateCount, UnusedOnes, Strayed, MissingOnes;
    JointIff(r, m.jointCount, frame, 0);
    FatesAreCounted(r, m.jointCount, frame);
    StrayedAreCounted(r, m.jointCount, m.jointRests, frame, |r.parents|);
    MissingAreCounted(r, m.jointCount, frame, |r.parents|);
  }
}
