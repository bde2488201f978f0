/**
 What a mocopi datagram means does not depend on how its containers are laid out: chunks of unknown tags
 may stand anywhere and chunks of different tags in any order. The datagrams that decode to one packet
 are exactly the rearrangements of it.
 */
module MotionVariants {
  import opened Bytes
  import opened PacketChunks
  import opened MotionPackets

  // ---- Rearrangement ----

  /** What the reader looks for in a payload: its bytes as they are, or the chunks of some tags. */
  datatype Shape = Leaf | Container(parts: seq<Part>)

  datatype Part = Part(tag: bytes, shape: Shape)

  function Flat(tags: seq<bytes>): Shape {
    Container(seq(|tags|, i requires 0 <= i < |tags| => Part(tags[i], Leaf)))
  }

  const BONE := Flat([BNID, TRAN])
  const JOINT := Flat([BNID, PBID, TRAN])
  const BONES := Container([Part(BTDT, BONE)])
  const JOINTS := Container([Part(BNDT, JOINT)])
  const FRAME := Container([Part(FNUM, Leaf), Part(TIME, Leaf), Part(UTTM, Leaf), Part(TMCD, Leaf), Part(BTRS, BONES)])
  const SKELETON := Container([Part(BONS, JOINTS)])
  const FORMAT_HEAD := Flat([FTYP, VRSN])
  const SENDER := Flat([IPAD, RCVP])
  const DATAGRAM :=
    Container([Part(HEAD, FORMAT_HEAD), Part(SNDF, SENDER), Part(FRAM, FRAME), Part(SKDF, SKELETON)])

  /** The payloads under one tag, in order. */
  function Under(chunks: seq<Chunk>, tag: bytes): seq<bytes> {
    if chunks == [] then []
    else (if chunks[0].tag == tag then [chunks[0].payload] else []) + Under(chunks[1..], tag)
  }

  /** Two payloads alike under a shape: under each tag it names, payloads alike one by one, at every depth. */
  ghost predicate Alike(s: Shape, p: bytes, q: bytes)
    decreases s, 0
  {
    match s
    case Leaf => p == q
    case Container(parts) =>
      match (Fields(p), Fields(q))
      case (None, None) => true
      case (Some(a), Some(b)) =>
        forall i :: 0 <= i < |parts| ==> Matched(parts[i].shape, Under(a, parts[i].tag), Under(b, parts[i].tag))
      case _ => false
  }

  ghost predicate Matched(s: Shape, ps: seq<bytes>, qs: seq<bytes>)
    decreases s, 1
  {
    |ps| == |qs| && forall i :: 0 <= i < |ps| ==> Alike(s, ps[i], qs[i])
  }

  /** Alike with the parts of a container that can be read. */
  ghost predicate AlikePart(part: Part, a: seq<Chunk>, b: seq<Chunk>) {
    Matched(part.shape, Under(a, part.tag), Under(b, part.tag))
  }

  lemma MatchedLeaves(ps: seq<bytes>, qs: seq<bytes>)
    ensures Matched(Leaf, ps, qs) <==> ps == qs
  {
    if Matched(Leaf, ps, qs) {
      forall i | 0 <= i < |ps|
        ensures ps[i] == qs[i]
      {
        assert Alike(Leaf, ps[i], qs[i]);
      }
    }
  }

  lemma FlatIsAlike(tags: seq<bytes>, p: bytes, q: bytes)
    ensures Alike(Flat(tags), p, q) <==>
      (Fields(p).None? && Fields(q).None?)
      || (Fields(p).Some? && Fields(q).Some?
          && forall i :: 0 <= i < |tags| ==> Under(Fields(p).value, tags[i]) == Under(Fields(q).value, tags[i]))
  {
    hide Fields, Under, Matched;
    if Fields(p).Some? && Fields(q).Some? {
      var a, b := Fields(p).value, Fields(q).value;
      forall i | 0 <= i < |tags|
        ensures Matched(Leaf, Under(a, tags[i]), Under(b, tags[i])) <==> Under(a, tags[i]) == Under(b, tags[i])
      {
        MatchedLeaves(Under(a, tags[i]), Under(b, tags[i]));
      }
      var parts := Flat(tags).parts;
      assert forall i :: 0 <= i < |tags| ==> parts[i] == Part(tags[i], Leaf);
    }
  }

  // ---- What a reader takes from under a tag ----

  /** How many chunks carry a tag and which is the first are told by the payloads under it. */
  lemma {:induction false} ReadFromUnder(chunks: seq<Chunk>, tag: bytes)
    ensures Count(chunks, tag) == |Under(chunks, tag)|
    ensures Under(chunks, tag) != [] ==> First(chunks, tag) == Under(chunks, tag)[0]
    ensures One(chunks, tag) == if |Under(chunks, tag)| == 1 then Some(Under(chunks, tag)[0]) else None
  {
    if chunks != [] {
      ReadFromUnder(chunks[1..], tag);
    }
  }

  lemma {:induction false} UnderGrows(chunks: seq<Chunk>, last: Chunk, tag: bytes)
    ensures Under(chunks + [last], tag) == if last.tag == tag then Under(chunks, tag) + [last.payload] else Under(chunks, tag)
  {
    if chunks == [] {
      assert chunks + [last] == [last];
    } else {
      assert (chunks + [last])[0] == chunks[0] && (chunks + [last])[1..] == chunks[1..] + [last];
      UnderGrows(chunks[1..], last, tag);
    }
  }

  /** A number of a fixed width comes from one payload only. */
  lemma NumberIsExact(p: Option<bytes>, q: Option<bytes>, width: nat)
    requires Number(p, width).Some? && Number(p, width) == Number(q, width)
    ensures p == q
  {
    ReadIsLittleEndian(p.value);
    ReadIsLittleEndian(q.value);
  }

  lemma OneIsExact(a: seq<Chunk>, b: seq<Chunk>, tag: bytes)
    requires One(a, tag).Some? && One(a, tag) == One(b, tag)
    ensures Under(a, tag) == Under(b, tag)
  {
    ReadFromUnder(a, tag);
    ReadFromUnder(b, tag);
  }

  /** The same payloads under a tag give the same one chunk of it. */
  lemma UnderIsRead(a: seq<Chunk>, b: seq<Chunk>, tag: bytes)
    requires Under(a, tag) == Under(b, tag)
    ensures One(a, tag) == One(b, tag)
  {
    ReadFromUnder(a, tag);
    ReadFromUnder(b, tag);
  }

  // ---- Bones and joints ----

  lemma BoneVariants(p: bytes, q: bytes)
    ensures Alike(BONE, p, q) ==> BoneIn(p) == BoneIn(q)
    ensures BoneIn(p).Some? && BoneIn(p) == BoneIn(q) ==> Alike(BONE, p, q)
  {
    hide Alike, Fields, FromLittleEndian, One;
    var tags := [BNID, TRAN];
    FlatIsAlike(tags, p, q);
    if Fields(p).Some? && Fields(q).Some? {
      var a, b := Fields(p).value, Fields(q).value;
      if Alike(BONE, p, q) {
        UnderIsRead(a, b, tags[0]);
        UnderIsRead(a, b, tags[1]);
      }
      if BoneIn(p).Some? && BoneIn(p) == BoneIn(q) {
        NumberIsExact(One(a, BNID), One(b, BNID), 2);
        OneIsExact(a, b, BNID);
        OneIsExact(a, b, TRAN);
      }
    }
  }

  lemma JointVariants(p: bytes, q: bytes)
    ensures Alike(JOINT, p, q) ==> JointIn(p) == JointIn(q)
    ensures JointIn(p).Some? && JointIn(p) == JointIn(q) ==> Alike(JOINT, p, q)
  {
    hide Alike, Fields, FromLittleEndian, One;
    var tags := [BNID, PBID, TRAN];
    FlatIsAlike(tags, p, q);
    if Fields(p).Some? && Fields(q).Some? {
      var a, b := Fields(p).value, Fields(q).value;
      if Alike(JOINT, p, q) {
        UnderIsRead(a, b, tags[0]);
        UnderIsRead(a, b, tags[1]);
        UnderIsRead(a, b, tags[2]);
      }
      if JointIn(p).Some? && JointIn(p) == JointIn(q) {
        SignIsExact(One(a, PBID), One(b, PBID));
        NumberIsExact(One(a, BNID), One(b, BNID), 2);
        NumberIsExact(One(a, PBID), One(b, PBID), 2);
        OneIsExact(a, b, BNID);
        OneIsExact(a, b, PBID);
        OneIsExact(a, b, TRAN);
      }
    }
  }

  lemma SignIsExact(p: Option<bytes>, q: Option<bytes>)
    requires Number(p, 2).Some? && Number(q, 2).Some?
    requires Signed16(Number(p, 2).value) == Signed16(Number(q, 2).value)
    ensures Number(p, 2) == Number(q, 2)
  {
    Widths();
    ReadIsLittleEndian(p.value);
    ReadIsLittleEndian(q.value);
  }

  // ---- Records ----

  /** The bones in the payloads of the records that are bones. */
  function BonesOf(f: Floats, payloads: seq<bytes>): Option<(seq<BoneFrame>, nat)> {
    if payloads == [] then Some(([], 0))
    else
      var before, bone := BonesOf(f, payloads[..|payloads| - 1]), BoneIn(payloads[|payloads| - 1]);
      if before.None? || bone.None? then None
      else if !f.isUsable(bone.value.transform) then Some((before.value.0, before.value.1 + 1))
      else Some((before.value.0 + [bone.value], before.value.1))
  }

  function JointsOf(f: Floats, payloads: seq<bytes>): Outcome<seq<BoneDefinition>> {
    if payloads == [] then Accepted([])
    else
      match JointsOf(f, payloads[..|payloads| - 1])
      case Refused(code) => Refused(code)
      case Accepted(before) =>
        var joint := JointIn(payloads[|payloads| - 1]);
        if joint.None? then Refused(PacketMalformed)
        else if !f.isUsable(joint.value.transform) then Refused(NonFiniteTransform)
        else Accepted(before + [joint.value])
  }

  /** Records of other tags say nothing. */
  lemma {:induction false} OnlyBonesCount(f: Floats, records: seq<Chunk>)
    ensures BonesIn(f, records) == BonesOf(f, Under(records, BTDT))
  {
    hide BoneIn;
    if records != [] {
      var front, last := records[..|records| - 1], records[|records| - 1];
      hide Under;
      OnlyBonesCount(f, front);
      UnderGrows(front, last, BTDT);
      assert front + [last] == records;
      var under := Under(records, BTDT);
      if last.tag == BTDT {
        assert under[..|under| - 1] == Under(front, BTDT) && under[|under| - 1] == last.payload;
      }
    }
  }

  lemma JointsGrow(f: Floats, payloads: seq<bytes>, last: bytes, records: seq<Chunk>, tag: bytes, offset: nat)
    requires JointsIn(f, records) == JointsOf(f, payloads)
    ensures JointsIn(f, records + [Chunk(tag, last, offset)])
         == JointsOf(f, if tag == BNDT then payloads + [last] else payloads)
  {
    hide JointIn, Under;
    var more := records + [Chunk(tag, last, offset)];
    assert more[..|more| - 1] == records && more[|more| - 1] == Chunk(tag, last, offset);
    var under := payloads + [last];
    assert under[..|under| - 1] == payloads && under[|under| - 1] == last;
  }

  lemma {:induction false} OnlyJointsCount(f: Floats, records: seq<Chunk>)
    ensures JointsIn(f, records) == JointsOf(f, Under(records, BNDT))
  {
    if records != [] {
      hide JointsIn, JointsOf, Under;
      var front, last := records[..|records| - 1], records[|records| - 1];
      OnlyJointsCount(f, front);
      UnderGrows(front, last, BNDT);
      assert front + [last] == records;
      JointsGrow(f, Under(front, BNDT), last.payload, front, last.tag, last.offset);
    }
  }

  lemma {:induction false} BonesMatch(f: Floats, ps: seq<bytes>, qs: seq<bytes>)
    requires Matched(BONE, ps, qs)
    ensures BonesOf(f, ps) == BonesOf(f, qs)
  {
    hide BoneIn, Alike;
    if ps != [] {
      BonesMatch(f, ps[..|ps| - 1], qs[..|qs| - 1]);
      BoneVariants(ps[|ps| - 1], qs[|qs| - 1]);
    }
  }

  lemma {:induction false} JointsMatch(f: Floats, ps: seq<bytes>, qs: seq<bytes>)
    requires Matched(JOINT, ps, qs)
    ensures JointsOf(f, ps) == JointsOf(f, qs)
  {
    hide JointIn, Alike;
    if ps != [] {
      JointsMatch(f, ps[..|ps| - 1], qs[..|qs| - 1]);
      JointVariants(ps[|ps| - 1], qs[|qs| - 1]);
    }
  }

  /** Bones of which none was refused are those of the records, one by one. */
  lemma {:induction false} EveryBoneIsRead(f: Floats, ps: seq<bytes>)
    requires BonesOf(f, ps).Some?
    ensures |BonesOf(f, ps).value.0| + BonesOf(f, ps).value.1 == |ps|
    ensures BonesOf(f, ps).value.1 == 0 ==> forall i :: 0 <= i < |ps| ==> BoneIn(ps[i]) == Some(BonesOf(f, ps).value.0[i])
  {
    hide BoneIn;
    if ps != [] {
      EveryBoneIsRead(f, ps[..|ps| - 1]);
    }
  }

  lemma {:induction false} EveryJointIsRead(f: Floats, ps: seq<bytes>)
    requires JointsOf(f, ps).Accepted?
    ensures |JointsOf(f, ps).value| == |ps|
    ensures forall i :: 0 <= i < |ps| ==> JointIn(ps[i]) == Some(JointsOf(f, ps).value[i])
  {
    hide JointIn;
    if ps != [] {
      EveryJointIsRead(f, ps[..|ps| - 1]);
    }
  }

  lemma BonesAreExact(f: Floats, ps: seq<bytes>, qs: seq<bytes>)
    requires BonesOf(f, ps).Some? && BonesOf(f, ps) == BonesOf(f, qs) && BonesOf(f, ps).value.1 == 0
    ensures Matched(BONE, ps, qs)
  {
    hide BoneIn, Alike, BonesOf;
    EveryBoneIsRead(f, ps);
    EveryBoneIsRead(f, qs);
    forall i | 0 <= i < |ps|
      ensures Alike(BONE, ps[i], qs[i])
    {
      BoneVariants(ps[i], qs[i]);
    }
  }

  lemma JointsAreExact(f: Floats, ps: seq<bytes>, qs: seq<bytes>)
    requires JointsOf(f, ps).Accepted? && JointsOf(f, ps) == JointsOf(f, qs)
    ensures Matched(JOINT, ps, qs)
  {
    hide JointIn, Alike, JointsOf;
    EveryJointIsRead(f, ps);
    EveryJointIsRead(f, qs);
    forall i | 0 <= i < |ps|
      ensures Alike(JOINT, ps[i], qs[i])
    {
      JointVariants(ps[i], qs[i]);
    }
  }

  // ---- Frames and skeletons ----

  /** A container of parts is alike part by part. */
  lemma PartsAreAlike(parts: seq<Part>, p: bytes, q: bytes)
    requires Fields(p).Some? && Fields(q).Some?
    ensures Alike(Container(parts), p, q) <==>
            forall i :: 0 <= i < |parts| ==> AlikePart(parts[i], Fields(p).value, Fields(q).value)
  {
    hide Fields, Under;
  }

  lemma BoneRecordsVary(f: Floats, p: bytes, q: bytes)
    ensures Alike(BONES, p, q) ==>
      (Fields(p).Some? <==> Fields(q).Some?)
      && (Fields(p).Some? ==> BonesIn(f, Fields(p).value) == BonesIn(f, Fields(q).value))
    ensures (&& Fields(p).Some? && Fields(q).Some? && BonesIn(f, Fields(p).value) == BonesIn(f, Fields(q).value)
             && BonesIn(f, Fields(p).value).Some? && BonesIn(f, Fields(p).value).value.1 == 0) ==> Alike(BONES, p, q)
  {
    hide Fields, Under, BonesIn, BonesOf, Matched;
    if Fields(p).Some? && Fields(q).Some? {
      var a, b := Fields(p).value, Fields(q).value;
      var parts := [Part(BTDT, BONE)];
      PartsAreAlike(parts, p, q);
      OnlyBonesCount(f, a);
      OnlyBonesCount(f, b);
      if Alike(BONES, p, q) {
        assert AlikePart(parts[0], a, b);
        BonesMatch(f, Under(a, BTDT), Under(b, BTDT));
      }
      if BonesIn(f, a) == BonesIn(f, b) && BonesIn(f, a).Some? && BonesIn(f, a).value.1 == 0 {
        BonesAreExact(f, Under(a, BTDT), Under(b, BTDT));
        assert AlikePart(parts[0], a, b);
      }
    }
  }

  lemma JointRecordsVary(f: Floats, p: bytes, q: bytes)
    ensures Alike(JOINTS, p, q) ==>
      (Fields(p).Some? <==> Fields(q).Some?)
      && (Fields(p).Some? ==> JointsIn(f, Fields(p).value) == JointsIn(f, Fields(q).value))
    ensures (&& Fields(p).Some? && Fields(q).Some? && JointsIn(f, Fields(p).value) == JointsIn(f, Fields(q).value)
             && JointsIn(f, Fields(p).value).Accepted?) ==> Alike(JOINTS, p, q)
  {
    hide Fields, Under, JointsIn, JointsOf, Matched;
    if Fields(p).Some? && Fields(q).Some? {
      var a, b := Fields(p).value, Fields(q).value;
      var parts := [Part(BNDT, JOINT)];
      PartsAreAlike(parts, p, q);
      OnlyJointsCount(f, a);
      OnlyJointsCount(f, b);
      if Alike(JOINTS, p, q) {
        assert AlikePart(parts[0], a, b);
        JointsMatch(f, Under(a, BNDT), Under(b, BNDT));
      }
      if JointsIn(f, a) == JointsIn(f, b) && JointsIn(f, a).Accepted? {
        JointsAreExact(f, Under(a, BNDT), Under(b, BNDT));
        assert AlikePart(parts[0], a, b);
      }
    }
  }

  /** A part of plain bytes is alike exactly when the payloads are the same. */
  lemma LeafPart(part: Part, a: seq<Chunk>, b: seq<Chunk>)
    requires part.shape.Leaf?
    ensures AlikePart(part, a, b) <==> Under(a, part.tag) == Under(b, part.tag)
  {
    hide Under, Matched;
    MatchedLeaves(Under(a, part.tag), Under(b, part.tag));
  }

  /** A part read at most once is alike when there is as much of it, and one payload of it is alike. */
  lemma OnePart(part: Part, a: seq<Chunk>, b: seq<Chunk>)
    ensures AlikePart(part, a, b) ==> Count(a, part.tag) == Count(b, part.tag)
    ensures AlikePart(part, a, b) && Count(a, part.tag) == 1 ==> Alike(part.shape, First(a, part.tag), First(b, part.tag))
    ensures Count(a, part.tag) == Count(b, part.tag) == 1 && Alike(part.shape, First(a, part.tag), First(b, part.tag)) ==>
              AlikePart(part, a, b)
    ensures Count(a, part.tag) == Count(b, part.tag) == 0 ==> AlikePart(part, a, b)
  {
    hide Alike, Under, Count, First;
    ReadFromUnder(a, part.tag);
    ReadFromUnder(b, part.tag);
  }

  lemma FrameVariants(f: Floats, p: bytes, q: bytes)
    requires Alike(FRAME, p, q)
    ensures FrameIn(f, p) == FrameIn(f, q)
  {
    hide Alike, Fields, Under, BonesIn, FromLittleEndian, Count, First, AlikePart;
    AlikeIsReadable(FRAME, p, q);
    if Fields(p).Some? {
      var a, b, parts := Fields(p).value, Fields(q).value, FRAME.parts;
      PartsAreAlike(parts, p, q);
      forall i | 0 <= i < 4
        ensures One(a, parts[i].tag) == One(b, parts[i].tag)
      {
        LeafPart(parts[i], a, b);
        UnderIsRead(a, b, parts[i].tag);
      }
      assert parts[0].tag == FNUM && parts[1].tag == TIME && parts[2].tag == UTTM && parts[3].tag == TMCD;
      OnePart(parts[4], a, b);
      if One(a, BTRS).Some? {
        BoneRecordsVary(f, One(a, BTRS).value, One(b, BTRS).value);
        AlikeIsReadable(BONES, One(a, BTRS).value, One(b, BTRS).value);
      }
    }
  }

  lemma AlikeIsReadable(s: Shape, p: bytes, q: bytes)
    requires s.Container? && Alike(s, p, q)
    ensures Fields(p).Some? <==> Fields(q).Some?
  {
    hide Fields;
  }

  lemma SkeletonVariants(f: Floats, p: bytes, q: bytes)
    requires Alike(SKELETON, p, q)
    ensures SkeletonIn(f, p) == SkeletonIn(f, q)
  {
    hide Alike, Fields, Under, JointsIn, Count, First, AlikePart;
    AlikeIsReadable(SKELETON, p, q);
    if Fields(p).Some? {
      var a, b, parts := Fields(p).value, Fields(q).value, SKELETON.parts;
      PartsAreAlike(parts, p, q);
      assert AlikePart(parts[0], a, b);
      OnePart(parts[0], a, b);
      if One(a, BONS).Some? {
        JointRecordsVary(f, One(a, BONS).value, One(b, BONS).value);
      }
    }
  }

  /** A frame read whole comes from one arrangement of its parts only. */
  lemma FrameIsExact(f: Floats, p: bytes, q: bytes)
    requires FrameIn(f, p).Accepted? && FrameIn(f, p) == FrameIn(f, q) && FrameIn(f, p).value.1 == 0
    ensures Alike(FRAME, p, q)
  {
    hide Alike, Fields, Under, BonesIn, FromLittleEndian, One, AlikePart;
    var a, b, parts := Fields(p).value, Fields(q).value, FRAME.parts;
    PartsAreAlike(parts, p, q);
    NumberIsExact(One(a, FNUM), One(b, FNUM), 4);
    NumberIsExact(One(a, TIME), One(b, TIME), 4);
    NumberIsExact(One(a, UTTM), One(b, UTTM), 8);
    forall i | 0 <= i < 4
      ensures AlikePart(parts[i], a, b)
    {
      assert parts[0].tag == FNUM && parts[1].tag == TIME && parts[2].tag == UTTM && parts[3].tag == TMCD;
      OneIsExact(a, b, parts[i].tag);
      LeafPart(parts[i], a, b);
    }
    BoneRecordsVary(f, One(a, BTRS).value, One(b, BTRS).value);
    PartOfOne(parts[4], a, b);
  }

  lemma PartOfOne(part: Part, a: seq<Chunk>, b: seq<Chunk>)
    requires One(a, part.tag).Some? && One(b, part.tag).Some?
    requires Alike(part.shape, One(a, part.tag).value, One(b, part.tag).value)
    ensures AlikePart(part, a, b)
  {
    hide Alike, AlikePart, Count, First;
    OnePart(part, a, b);
  }

  lemma SkeletonIsExact(f: Floats, p: bytes, q: bytes)
    requires SkeletonIn(f, p).Accepted? && SkeletonIn(f, p) == SkeletonIn(f, q)
    ensures Alike(SKELETON, p, q)
  {
    hide Alike, Fields, Under, JointsIn, One, AlikePart;
    var a, b, parts := Fields(p).value, Fields(q).value, SKELETON.parts;
    PartsAreAlike(parts, p, q);
    JointRecordsVary(f, One(a, BONS).value, One(b, BONS).value);
    PartOfOne(parts[0], a, b);
  }

  // ---- Format and sender ----

  lemma HeadVariants(p: bytes, q: bytes)
    requires Alike(FORMAT_HEAD, p, q) && Fields(p).Some?
    ensures Fields(q).Some?
    ensures One(Fields(p).value, FTYP) == One(Fields(q).value, FTYP) && One(Fields(p).value, VRSN) == One(Fields(q).value, VRSN)
  {
    hide Alike, Fields, One;
    var tags := [FTYP, VRSN];
    FlatIsAlike(tags, p, q);
    var a, b := Fields(p).value, Fields(q).value;
    UnderIsRead(a, b, tags[0]);
    UnderIsRead(a, b, tags[1]);
  }

  lemma SenderVariants(p: bytes, q: bytes)
    requires Alike(SENDER, p, q) && Fields(p).Some?
    ensures Fields(q).Some?
    ensures One(Fields(p).value, IPAD) == One(Fields(q).value, IPAD) && One(Fields(p).value, RCVP) == One(Fields(q).value, RCVP)
  {
    hide Alike, Fields, One;
    var tags := [IPAD, RCVP];
    FlatIsAlike(tags, p, q);
    var a, b := Fields(p).value, Fields(q).value;
    UnderIsRead(a, b, tags[0]);
    UnderIsRead(a, b, tags[1]);
  }

  /** Two payloads with the same one chunk of each of two tags are alike under both. */
  lemma TwoTagsExact(s: bytes, t: bytes, p: bytes, q: bytes)
    requires Fields(p).Some? && Fields(q).Some?
    requires var a, b := Fields(p).value, Fields(q).value;
             && One(a, s).Some? && One(a, s) == One(b, s) && One(a, t).Some? && One(a, t) == One(b, t)
    ensures Alike(Flat([s, t]), p, q)
  {
    hide Alike, Fields, One;
    FlatIsAlike([s, t], p, q);
    OneIsExact(Fields(p).value, Fields(q).value, s);
    OneIsExact(Fields(p).value, Fields(q).value, t);
  }

  lemma ProvenanceVariants(a: seq<Chunk>, b: seq<Chunk>)
    requires AlikePart(Part(HEAD, FORMAT_HEAD), a, b) && AlikePart(Part(SNDF, SENDER), a, b)
    ensures Provenance(a) == Provenance(b)
  {
    hide Alike, Fields, AlikePart, Count, First, FromLittleEndian;
    OnePart(Part(HEAD, FORMAT_HEAD), a, b);
    OnePart(Part(SNDF, SENDER), a, b);
    var head, from := One(a, HEAD), One(a, SNDF);
    if head.Some? && from.Some? {
      AlikeIsReadable(FORMAT_HEAD, head.value, One(b, HEAD).value);
      AlikeIsReadable(SENDER, from.value, One(b, SNDF).value);
      if Fields(head.value).Some? && Fields(from.value).Some? {
        HeadVariants(head.value, One(b, HEAD).value);
        SenderVariants(from.value, One(b, SNDF).value);
      }
    }
  }

  lemma ProvenanceIsExact(a: seq<Chunk>, b: seq<Chunk>)
    requires Provenance(a).Some? && Provenance(a) == Provenance(b)
    ensures AlikePart(Part(HEAD, FORMAT_HEAD), a, b) && AlikePart(Part(SNDF, SENDER), a, b)
  {
    hide Alike, Fields, AlikePart, One, FromLittleEndian;
    var p, q := One(a, SNDF).value, One(b, SNDF).value;
    TwoTagsExact(FTYP, VRSN, One(a, HEAD).value, One(b, HEAD).value);
    NumberIsExact(One(Fields(p).value, RCVP), One(Fields(q).value, RCVP), 2);
    TwoTagsExact(IPAD, RCVP, p, q);
    PartOfOne(Part(HEAD, FORMAT_HEAD), a, b);
    PartOfOne(Part(SNDF, SENDER), a, b);
  }

  // ---- Datagrams ----

  /** Rearranging a datagram, at any depth and with any chunks of unknown tags, changes nothing that is decoded. */
  lemma VariantsDecodeAlike(f: Floats, p: bytes, q: bytes)
    requires Alike(DATAGRAM, p, q)
    ensures Decoded(f, p) == Decoded(f, q)
  {
    hide Alike, Chunks, Under, Count, First, AlikePart, Provenance, FrameIn, SkeletonIn;
    AlikeIsReadable(DATAGRAM, p, q);
    if Fields(p).Some? {
      var a, b, parts := Fields(p).value, Fields(q).value, DATAGRAM.parts;
      PartsAreAlike(parts, p, q);
      assert AlikePart(parts[0], a, b) && AlikePart(parts[1], a, b);
      assert AlikePart(parts[2], a, b) && AlikePart(parts[3], a, b);
      ProvenanceVariants(a, b);
      OnePart(parts[2], a, b);
      OnePart(parts[3], a, b);
      if Count(a, FRAM) == 1 {
        FrameVariants(f, First(a, FRAM), First(b, FRAM));
      } else if Count(a, SKDF) == 1 {
        SkeletonVariants(f, First(a, SKDF), First(b, SKDF));
      }
    }
  }

  lemma BodyKinds(f: Floats, frame: bytes, skeleton: bytes)
    ensures FrameIn(f, frame).Accepted? ==> FrameIn(f, frame).value.0.FrameBody?
    ensures SkeletonIn(f, skeleton).Accepted? ==> SkeletonIn(f, skeleton).value.0.SkeletonBody?
  {
    hide Fields, One, BonesIn, JointsIn, FromLittleEndian;
  }

  /** Datagrams read whole as the same packet are rearrangements of one another. */
  lemma SameReadingIsAlike(f: Floats, p: bytes, q: bytes)
    requires Decoded(f, p).Accepted? && Decoded(f, p).value.refusedBones == 0 && Decoded(f, p) == Decoded(f, q)
    ensures Alike(DATAGRAM, p, q)
  {
    hide Alike, Chunks, Under, Count, First, AlikePart, Provenance, FrameIn, SkeletonIn;
    var a, b, parts := Fields(p).value, Fields(q).value, DATAGRAM.parts;
    PartsAreAlike(parts, p, q);
    ProvenanceIsExact(a, b);
    forall c | c == a || c == b
      ensures Count(c, FRAM) == 1 <==> Decoded(f, p).value.body.FrameBody?
    {
      BodyKinds(f, First(c, FRAM), First(c, SKDF));
    }
    if Count(a, FRAM) == 1 {
      FrameIsExact(f, First(a, FRAM), First(b, FRAM));
    } else {
      SkeletonIsExact(f, First(a, SKDF), First(b, SKDF));
    }
    OnePart(parts[2], a, b);
    OnePart(parts[3], a, b);
  }

  /**
   The datagrams that decode to a packet none of whose bones was refused are exactly the rearrangements
   of any one of them, the packet as it is written among them.
   */
  lemma DecodesToIffAlike(f: Floats, written: bytes, datagram: bytes)
    requires Decoded(f, written).Accepted? && Decoded(f, written).value.refusedBones == 0
    ensures Decoded(f, datagram) == Decoded(f, written) <==> Alike(DATAGRAM, written, datagram)
  {
    hide Alike, Decoded;
    if Decoded(f, datagram) == Decoded(f, written) {
      SameReadingIsAlike(f, written, datagram);
    }
    if Alike(DATAGRAM, written, datagram) {
      VariantsDecodeAlike(f, written, datagram);
    }
  }

  lemma {:induction false} AllUsable(f: Floats, bones: seq<BoneFrame>)
    requires forall i :: 0 <= i < |bones| ==> f.isUsable(bones[i].transform)
    ensures Usable(f, bones) == bones
  {
    if bones != [] {
      AllUsable(f, bones[..|bones| - 1]);
    }
  }

  /** A packet the reader takes whole. */
  ghost predicate IsTaken(f: Floats, p: Packet) {
    && IsPacket(p) && p.refusedBones == 0
    && if p.body.FrameBody? then
         f.isClock(p.body.streamSeconds) && f.isFinite64(p.body.senderUnixSeconds)
         && forall i :: 0 <= i < |p.body.bones| ==> f.isUsable(p.body.bones[i].transform)
       else forall i :: 0 <= i < |p.body.joints| ==> f.isUsable(p.body.joints[i].transform)
  }

  /** A datagram decodes to a packet exactly when it is a rearrangement of the packet as written. */
  lemma OnlyRearrangementsDecode(f: Floats, p: Packet, datagram: bytes)
    requires IsTaken(f, p)
    ensures Decoded(f, datagram) == Accepted(p) <==> Alike(DATAGRAM, WritePacket(p), datagram)
  {
    hide Alike, Decoded, WritePacket, WriteFrame, WriteSkeleton, Usable;
    if p.body.FrameBody? {
      AllUsable(f, p.body.bones);
      FramePacketIsReadBack(f, p);
    } else {
      SkeletonPacketIsReadBack(f, p);
    }
    DecodesToIffAlike(f, WritePacket(p), datagram);
  }

  // ---- Rearranging ----

  lemma {:induction false} AlikeItself(s: Shape, p: bytes)
    ensures Alike(s, p, p)
    decreases s, 0
  {
    hide Fields, Under, Matched;
    if s.Container? && Fields(p).Some? {
      var a := Fields(p).value;
      forall i | 0 <= i < |s.parts|
        ensures Matched(s.parts[i].shape, Under(a, s.parts[i].tag), Under(a, s.parts[i].tag))
      {
        MatchedItself(s.parts[i].shape, Under(a, s.parts[i].tag));
      }
    }
  }

  lemma {:induction false} MatchedItself(s: Shape, ps: seq<bytes>)
    ensures Matched(s, ps, ps)
    decreases s, 1
  {
    hide Alike;
    forall i | 0 <= i < |ps|
      ensures Alike(s, ps[i], ps[i])
    {
      AlikeItself(s, ps[i]);
    }
  }

  /** The payloads of the fields of one tag, in order. */
  function Held(fields: seq<Field>, tag: bytes): seq<bytes> {
    if fields == [] then []
    else (if fields[0].tag == tag then [fields[0].payload] else []) + Held(fields[1..], tag)
  }

  lemma {:induction false} PlacedAreHeld(fields: seq<Field>, at: nat, tag: bytes)
    ensures Under(Placed(fields, at), tag) == Held(fields, tag)
  {
    if fields != [] {
      PlacedAreHeld(fields[1..], at + HEADER + |fields[0].payload|, tag);
      assert Placed(fields, at)[1..] == Placed(fields[1..], at + HEADER + |fields[0].payload|);
    }
  }

  lemma {:induction false} HeldJoins(front: seq<Field>, back: seq<Field>, tag: bytes)
    ensures Held(front + back, tag) == Held(front, tag) + Held(back, tag)
  {
    if front == [] {
      assert front + back == back;
    } else {
      assert (front + back)[0] == front[0] && (front + back)[1..] == front[1..] + back;
      HeldJoins(front[1..], back, tag);
    }
  }

  /** Two layouts of a container with the same payloads under every known tag are alike. */
  lemma LayoutIsFree(s: Shape, fields: seq<Field>, others: seq<Field>)
    requires s.Container? && Fit(fields) && Fit(others)
    requires forall part :: part in s.parts ==> Held(fields, part.tag) == Held(others, part.tag)
    ensures Alike(s, Write(fields), Write(others))
  {
    hide Fields, Fit, Held, Placed, Write, Under, Matched;
    WrittenIsRead(fields);
    WrittenIsRead(others);
    var p, q := Write(fields), Write(others);
    var a, b := Fields(p).value, Fields(q).value;
    forall i | 0 <= i < |s.parts|
      ensures Matched(s.parts[i].shape, Under(a, s.parts[i].tag), Under(b, s.parts[i].tag))
    {
      var part := s.parts[i];
      PlacedAreHeld(fields, 0, part.tag);
      PlacedAreHeld(others, 0, part.tag);
      MatchedItself(part.shape, Under(a, part.tag));
    }
  }

  lemma InsertedIsHeld(front: seq<Field>, x: Field, back: seq<Field>, tag: bytes)
    requires x.tag != tag
    ensures Held(front + [x] + back, tag) == Held(front + back, tag)
  {
    HeldJoins(front + [x], back, tag);
    HeldJoins(front, [x], tag);
    HeldJoins(front, back, tag);
    assert [x][1..] == [];
  }

  lemma SwappedAreHeld(front: seq<Field>, x: Field, y: Field, back: seq<Field>, tag: bytes)
    requires x.tag != y.tag
    ensures Held(front + [x, y] + back, tag) == Held(front + [y, x] + back, tag)
  {
    HeldJoins(front + [x, y], back, tag);
    HeldJoins(front, [x, y], tag);
    HeldJoins(front + [y, x], back, tag);
    HeldJoins(front, [y, x], tag);
    assert [x, y][1..] == [y] && [y, x][1..] == [x] && [x][1..] == [] && [y][1..] == [];
  }

  lemma FitJoins(front: seq<Field>, middle: seq<Field>, back: seq<Field>)
    requires Fit(front) && Fit(middle) && Fit(back)
    ensures Fit(front + middle + back) && Fit(front + back)
  {
  }

  /** A chunk of an unknown tag, anywhere in a datagram, is as if it were not there. */
  lemma UnknownIsIgnored(f: Floats, front: seq<Field>, x: Field, back: seq<Field>)
    requires Fit(front) && Fit([x]) && Fit(back) && x.tag !in {HEAD, SNDF, FRAM, SKDF}
    ensures Decoded(f, Write(front + [x] + back)) == Decoded(f, Write(front + back))
  {
    hide Decoded, Write, Alike, Held, Fit;
    FitJoins(front, [x], back);
    forall part | part in DATAGRAM.parts
      ensures Held(front + [x] + back, part.tag) == Held(front + back, part.tag)
    {
      InsertedIsHeld(front, x, back, part.tag);
    }
    LayoutIsFree(DATAGRAM, front + [x] + back, front + back);
    VariantsDecodeAlike(f, Write(front + [x] + back), Write(front + back));
  }

  /** Two neighbouring chunks of different tags may stand either way. */
  lemma OrderIsFree(f: Floats, front: seq<Field>, x: Field, y: Field, back: seq<Field>)
    requires Fit(front) && Fit([x, y]) && Fit([y, x]) && Fit(back) && x.tag != y.tag
    ensures Decoded(f, Write(front + [x, y] + back)) == Decoded(f, Write(front + [y, x] + back))
  {
    hide Decoded, Write, Alike, Held, Fit;
    FitJoins(front, [x, y], back);
    FitJoins(front, [y, x], back);
    forall part | part in DATAGRAM.parts
      ensures Held(front + [x, y] + back, part.tag) == Held(front + [y, x] + back, part.tag)
    {
      SwappedAreHeld(front, x, y, back, part.tag);
    }
    LayoutIsFree(DATAGRAM, front + [x, y] + back, front + [y, x] + back);
    VariantsDecodeAlike(f, Write(front + [x, y] + back), Write(front + [y, x] + back));
  }
}
