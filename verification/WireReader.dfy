/**
 The loops of FrameWire.cpp's reader, each filling its part of a frame member by member and stopping at the
 first refusal, proved to compute what the reading functions say.
 */
module WireReader {
  import opened Bytes
  import opened WireTree
  import opened FrameWire

  method Joints(c: Codec, members: seq<Member>) returns (r: Option<Limbs>)
    ensures r == ReadLimbs(c, members, Still(c))
  {
    var rotations, carried := seq(|c.joints|, _ => c.rest), seq(|c.joints|, _ => false);
    assert Limbs(rotations, carried) == Still(c) && members[0..] == members;
    for i := 0 to |members|
      invariant |rotations| == |carried| == |c.joints|
      invariant ReadLimbs(c, members, Still(c)) == ReadLimbs(c, members[i..], Limbs(rotations, carried))
    {
      assert members[i..][0] == members[i] && members[i..][1..] == members[i + 1..];
      var joint := FindWord(c.joints, members[i].key);
      if joint.None? {
        return None;
      }
      var rotation := ReadRotation(c)(members[i].value);
      if rotation.None? {
        return None;
      }
      rotations := rotations[joint.value := rotation.value];
      carried := carried[joint.value := true];
    }
    r := Some(Limbs(rotations, carried));
  }

  /** Both directions are checked: no confidence for a joint not carried, and none missing. */
  method Confidence(c: Codec, v: Value, carried: seq<bool>) returns (r: Option<seq<Float>>)
    requires |carried| == |c.joints|
    ensures r == ReadConfidence(c, v, carried)
  {
    if !v.Obj? {
      return None;
    }
    var members := v.members;
    var values: seq<Float> := seq(|c.joints|, _ => 0);
    var present := seq(|c.joints|, _ => false);
    ghost var all := GatherConfidence(c, members, carried, NoConfidence(c));
    assert Confidences(values, present) == NoConfidence(c) && members[0..] == members;
    for i := 0 to |members|
      invariant |values| == |present| == |c.joints|
      invariant all == GatherConfidence(c, members[i..], carried, Confidences(values, present))
    {
      assert members[i..][0] == members[i] && members[i..][1..] == members[i + 1..];
      var joint := FindWord(c.joints, members[i].key);
      if joint.None? || !carried[joint.value] {
        return None;
      }
      var weight := ReadFloat(c)(members[i].value);
      if weight.None? {
        return None;
      }
      present := present[joint.value := true];
      values := values[joint.value := weight.value];
    }
    for j := 0 to |carried|
      invariant forall k :: 0 <= k < j && carried[k] ==> present[k]
    {
      if carried[j] && !present[j] {
        return None;
      }
    }
    r := Some(values);
  }

  method Channels(c: Codec, members: seq<Member>) returns (r: Option<seq<Channel<Float>>>)
    ensures r == ReadChannels(c, members, [])
  {
    var channels: seq<Channel<Float>> := [];
    assert members[0..] == members;
    for i := 0 to |members|
      invariant ReadChannels(c, members, []) == ReadChannels(c, members[i..], channels)
    {
      assert members[i..][0] == members[i] && members[i..][1..] == members[i + 1..];
      var weight := ReadFloat(c)(members[i].value);
      if weight.None? {
        return None;
      }
      channels := Put(channels, Channel(members[i].key, weight.value));
    }
    r := Some(channels);
  }

  method Trackers(c: Codec, v: Value) returns (r: Option<seq<Tracker>>)
    ensures r == ReadTrackers(c, v)
  {
    if !v.Arr? {
      return None;
    }
    r := Listed(v.elements, ReadTracker(c), TrackerId());
  }

  method Actors(c: Codec, v: Value) returns (r: Option<seq<Actor>>)
    ensures r == ReadActors(c, v)
  {
    if !v.Arr? {
      return None;
    }
    r := Listed(v.elements, ReadActor(c), ActorName());
  }
}
