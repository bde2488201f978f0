/**
 A mocopi datagram: a frame's bones or a skeleton's joints inside tagged containers, as MotionPacket.cpp
 reads them, and the packets that sender writes.
 */
module MotionPackets {
  import opened Bytes
  import opened PacketChunks

  // ---- Tags ----

  const HEAD: bytes := [104, 101, 97, 100]
  const SNDF: bytes := [115, 110, 100, 102]
  const FRAM: bytes := [102, 114, 97, 109]
  const SKDF: bytes := [115, 107, 100, 102]
  const FTYP: bytes := [102, 116, 121, 112]
  const VRSN: bytes := [118, 114, 115, 110]
  const IPAD: bytes := [105, 112, 97, 100]
  const RCVP: bytes := [114, 99, 118, 112]
  const FNUM: bytes := [102, 110, 117, 109]
  const TIME: bytes := [116, 105, 109, 101]
  const UTTM: bytes := [117, 116, 116, 109]
  const TMCD: bytes := [116, 109, 99, 100]
  const BTRS: bytes := [98, 116, 114, 115]
  const BONS: bytes := [98, 111, 110, 115]
  const BTDT: bytes := [98, 116, 100, 116]
  const BNDT: bytes := [98, 110, 100, 116]
  const BNID: bytes := [98, 110, 105, 100]
  const PBID: bytes := [112, 98, 105, 100]
  const TRAN: bytes := [116, 114, 97, 110]

  /** "sony motion format" */
  const FORMAT: bytes := [115, 111, 110, 121, 32, 109, 111, 116, 105, 111, 110, 32, 102, 111, 114, 109, 97, 116]

  const FORMAT_VERSION: byte := 1
  const SENDER_ID_BYTES := 8
  const TIMECODE_BYTES := 6
  const TRANSFORM_BYTES := 28

  function Ascii(s: string): (b: bytes)
    requires forall i :: 0 <= i < |s| ==> s[i] < 128 as char
    ensures |b| == |s|
  {
    seq(|s|, i requires 0 <= i < |s| => s[i] as int)
  }

  /** The tags and the format as text. */
  lemma TagsAreText()
    ensures HEAD == Ascii("head") && SNDF == Ascii("sndf") && FRAM == Ascii("fram") && SKDF == Ascii("skdf")
    ensures FTYP == Ascii("ftyp") && VRSN == Ascii("vrsn") && IPAD == Ascii("ipad") && RCVP == Ascii("rcvp")
    ensures FNUM == Ascii("fnum") && TIME == Ascii("time") && UTTM == Ascii("uttm") && TMCD == Ascii("tmcd")
    ensures BTRS == Ascii("btrs") && BONS == Ascii("bons") && BTDT == Ascii("btdt") && BNDT == Ascii("bndt")
    ensures BNID == Ascii("bnid") && PBID == Ascii("pbid") && TRAN == Ascii("tran")
    ensures FORMAT == Ascii("sony motion format")
  {
  }

  // ---- Values ----

  /** What the bits of the wire's floats mean: a usable clock, a finite instant, and a transform that names an orientation. */
  datatype Floats = Floats(isClock: nat -> bool, isFinite64: nat -> bool, isUsable: bytes -> bool)

  /** A bone of a frame; its transform is the seven floats as the wire has them. */
  datatype BoneFrame = BoneFrame(boneId: nat, transform: bytes)

  datatype BoneDefinition = BoneDefinition(boneId: nat, parentBoneId: int, transform: bytes)

  datatype Body =
    | FrameBody(frameNumber: nat, streamSeconds: nat, senderUnixSeconds: nat, timecode: bytes, bones: seq<BoneFrame>)
    | SkeletonBody(joints: seq<BoneDefinition>)

  datatype Packet = Packet(senderId: bytes, receivePort: nat, body: Body, refusedBones: nat)

  datatype Code = PacketMalformed | TimestampInvalid | NonFiniteTransform

  /** A value, or the code of the refusal. */
  datatype Outcome<+T> = Accepted(value: T) | Refused(code: Code)

  // ---- Reading ----

  function Count(chunks: seq<Chunk>, tag: bytes): nat {
    if chunks == [] then 0 else (if chunks[0].tag == tag then 1 else 0) + Count(chunks[1..], tag)
  }

  function First(chunks: seq<Chunk>, tag: bytes): bytes {
    if chunks == [] then []
    else if chunks[0].tag == tag then chunks[0].payload
    else First(chunks[1..], tag)
  }

  /** The payload of the one chunk that carries `tag`; none and several are both refused. */
  function One(chunks: seq<Chunk>, tag: bytes): Option<bytes> {
    if Count(chunks, tag) == 1 then Some(First(chunks, tag)) else None
  }

  function Fields(payload: bytes): Option<seq<Chunk>> {
    Chunks(payload, 0)
  }

  /** A field of a fixed width, as the little-endian number it holds. */
  function Number(field: Option<bytes>, width: nat): Option<nat> {
    if field.Some? && |field.value| == width then Some(FromLittleEndian(field.value)) else None
  }

  function Sized(field: Option<bytes>, width: nat): Option<bytes> {
    if field.Some? && |field.value| == width then field else None
  }

  function Signed16(n: nat): int {
    if n >= 0x8000 then n - 0x1_0000 else n
  }

  function Provenance(top: seq<Chunk>): Option<(bytes, nat)> {
    var head, sender := One(top, HEAD), One(top, SNDF);
    if head.None? || sender.None? then None
    else
      var format, from := Fields(head.value), Fields(sender.value);
      if format.None? || from.None? then None
      else if One(format.value, FTYP) != Some(FORMAT) || One(format.value, VRSN) != Some([FORMAT_VERSION]) then None
      else
        var id, port := Sized(One(from.value, IPAD), SENDER_ID_BYTES), Number(One(from.value, RCVP), 2);
        if id.None? || port.None? then None else Some((id.value, port.value))
  }

  function BoneIn(payload: bytes): Option<BoneFrame> {
    var fields := Fields(payload);
    if fields.None? then None
    else
      var id, transform := Number(One(fields.value, BNID), 2), Sized(One(fields.value, TRAN), TRANSFORM_BYTES);
      if id.None? || transform.None? then None else Some(BoneFrame(id.value, transform.value))
  }

  function JointIn(payload: bytes): Option<BoneDefinition> {
    var fields := Fields(payload);
    if fields.None? then None
    else
      var id, parent := Number(One(fields.value, BNID), 2), Number(One(fields.value, PBID), 2);
      var transform := Sized(One(fields.value, TRAN), TRANSFORM_BYTES);
      if id.None? || parent.None? || transform.None? then None
      else Some(BoneDefinition(id.value, Signed16(parent.value), transform.value))
  }

  /** A frame's bones and how many records were refused; one record that cannot be read refuses them all. */
  function BonesIn(f: Floats, records: seq<Chunk>): Option<(seq<BoneFrame>, nat)> {
    if records == [] then Some(([], 0))
    else
      var before := BonesIn(f, records[..|records| - 1]);
      var last := records[|records| - 1];
      if before.None? then None
      else if last.tag != BTDT then before
      else
        var bone := BoneIn(last.payload);
        if bone.None? then None
        else if !f.isUsable(bone.value.transform) then Some((before.value.0, before.value.1 + 1))
        else Some((before.value.0 + [bone.value], before.value.1))
  }

  /** A skeleton's joints: a transform that names no orientation refuses the skeleton whole. */
  function JointsIn(f: Floats, records: seq<Chunk>): Outcome<seq<BoneDefinition>> {
    if records == [] then Accepted([])
    else
      var last := records[|records| - 1];
      match JointsIn(f, records[..|records| - 1])
      case Refused(code) => Refused(code)
      case Accepted(before) =>
        if last.tag != BNDT then Accepted(before)
        else
          var joint := JointIn(last.payload);
          if joint.None? then Refused(PacketMalformed)
          else if !f.isUsable(joint.value.transform) then Refused(NonFiniteTransform)
          else Accepted(before + [joint.value])
  }

  function FrameIn(f: Floats, payload: bytes): Outcome<(Body, nat)> {
    var fields := Fields(payload);
    if fields.None? then Refused(PacketMalformed)
    else
      var number, stream := Number(One(fields.value, FNUM), 4), Number(One(fields.value, TIME), 4);
      var unix, timecode := Number(One(fields.value, UTTM), 8), Sized(One(fields.value, TMCD), TIMECODE_BYTES);
      var bones := One(fields.value, BTRS);
      if number.None? || stream.None? || unix.None? || timecode.None? || bones.None? then Refused(PacketMalformed)
      else if !f.isClock(stream.value) || !f.isFinite64(unix.value) then Refused(TimestampInvalid)
      else
        var records := Fields(bones.value);
        if records.None? then Refused(PacketMalformed)
        else
          match BonesIn(f, records.value)
          case None => Refused(PacketMalformed)
          case Some((found, refused)) =>
            Accepted((FrameBody(number.value, stream.value, unix.value, timecode.value, found), refused))
  }

  function SkeletonIn(f: Floats, payload: bytes): Outcome<(Body, nat)> {
    var fields := Fields(payload);
    if fields.None? || One(fields.value, BONS).None? then Refused(PacketMalformed)
    else
      var records := Fields(One(fields.value, BONS).value);
      if records.None? then Refused(PacketMalformed)
      else
        match JointsIn(f, records.value)
        case Refused(code) => Refused(code)
        case Accepted(joints) => Accepted((SkeletonBody(joints), 0))
  }

  /** One datagram: exactly one frame or one skeleton, between a format and a sender it must name. */
  function Decoded(f: Floats, datagram: bytes): Outcome<Packet> {
    var top := Chunks(datagram, 0);
    if top.None? || Count(top.value, FRAM) + Count(top.value, SKDF) != 1 then Refused(PacketMalformed)
    else
      var provenance := Provenance(top.value);
      if provenance.None? then Refused(PacketMalformed)
      else
        var body := if Count(top.value, FRAM) == 1 then FrameIn(f, First(top.value, FRAM))
                    else SkeletonIn(f, First(top.value, SKDF));
        match body
        case Refused(code) => Refused(code)
        case Accepted((found, refused)) => Accepted(Packet(provenance.value.0, provenance.value.1, found, refused))
  }

  // ---- The record loop as the program writes it ----

  method ReadRecords(f: Floats, records: seq<Chunk>) returns (bones: seq<BoneFrame>, refused: nat, ok: bool)
    ensures BonesIn(f, records) == if ok then Some((bones, refused)) else None
  {
    hide BoneIn;
    bones, refused, ok := [], 0, true;
    for i := 0 to |records|
      invariant ok && BonesIn(f, records[..i]) == Some((bones, refused))
    {
      assert records[..i + 1][..i] == records[..i];
      if records[i].tag != BTDT {
        continue;
      }
      var bone := BoneIn(records[i].payload);
      if bone.None? {
        RefusalStands(f, records, i + 1);
        ok := false;
        return;
      }
      if f.isUsable(bone.value.transform) {
        bones := bones + [bone.value];
      } else {
        refused := refused + 1;
      }
    }
    assert records[..|records|] == records;
  }

  lemma {:induction false} RefusalStands(f: Floats, records: seq<Chunk>, i: nat)
    requires i <= |records| && BonesIn(f, records[..i]).None?
    ensures BonesIn(f, records).None?
    decreases |records| - i
  {
    if i < |records| {
      assert records[..i + 1][..i] == records[..i];
      RefusalStands(f, records, i + 1);
    } else {
      assert records[..i] == records;
    }
  }

  /** The one chunk of a tag, found in a single pass that counts as it goes. */
  method RequireOne(chunks: seq<Chunk>, tag: bytes) returns (one: Option<bytes>)
    ensures one == One(chunks, tag)
  {
    var first, count := [], 0;
    for i := 0 to |chunks|
      invariant Count(chunks, tag) == count + Count(chunks[i..], tag)
      invariant count == 0 ==> First(chunks, tag) == First(chunks[i..], tag)
      invariant count > 0 ==> First(chunks, tag) == first
    {
      assert chunks[i..][1..] == chunks[i + 1..];
      if chunks[i].tag == tag {
        if count == 0 {
          first := chunks[i].payload;
        }
        count := count + 1;
      }
    }
    one := if count == 1 then Some(first) else None;
  }

  // ---- What an accepted packet holds ----

  /** Every bone record of an accepted frame is a bone or is counted refused. */
  lemma {:induction false} RecordsAreAccounted(f: Floats, records: seq<Chunk>)
    requires BonesIn(f, records).Some?
    ensures |BonesIn(f, records).value.0| + BonesIn(f, records).value.1 == Count(records, BTDT)
    ensures forall b :: b in BonesIn(f, records).value.0 ==> f.isUsable(b.transform)
  {
    hide BoneIn;
    if records != [] {
      var front, last := records[..|records| - 1], records[|records| - 1];
      RecordsAreAccounted(f, front);
      CountAppend(front, last, BTDT);
      assert records == front + [last];
    }
  }

  lemma {:induction false} CountAppend(chunks: seq<Chunk>, c: Chunk, tag: bytes)
    ensures Count(chunks + [c], tag) == Count(chunks, tag) + if c.tag == tag then 1 else 0
  {
    if chunks == [] {
      assert chunks + [c] == [c];
    } else {
      assert (chunks + [c])[1..] == chunks[1..] + [c];
      CountAppend(chunks[1..], c, tag);
    }
  }

  // ---- Writing ----

  /** A list of tagged payloads, one after the other. */
  datatype Field = Field(tag: bytes, payload: bytes)

  function Write(fields: seq<Field>): bytes {
    if fields == [] then [] else EncodeChunk(fields[0].tag, fields[0].payload) + Write(fields[1..])
  }

  function Placed(fields: seq<Field>, at: nat): (chunks: seq<Chunk>)
    ensures |chunks| == |fields|
    ensures forall i :: 0 <= i < |fields| ==> chunks[i].tag == fields[i].tag && chunks[i].payload == fields[i].payload
  {
    if fields == [] then []
    else [Chunk(fields[0].tag, fields[0].payload, at)] + Placed(fields[1..], at + HEADER + |fields[0].payload|)
  }

  predicate Fit(fields: seq<Field>) {
    forall i :: 0 <= i < |fields| ==> |fields[i].tag| == 4 && |fields[i].payload| < TWO_32
  }

  lemma {:induction false} PlacedStand(fields: seq<Field>, at: nat)
    requires Fit(fields)
    ensures StandFrom(Placed(fields, at), at) && EncodeChunks(Placed(fields, at)) == Write(fields)
  {
    hide EncodeChunk;
    if fields != [] {
      PlacedStand(fields[1..], at + HEADER + |fields[0].payload|);
      assert Placed(fields, at)[1..] == Placed(fields[1..], at + HEADER + |fields[0].payload|);
    }
  }

  /** What is written is read back field by field. */
  lemma WrittenIsRead(fields: seq<Field>)
    requires Fit(fields)
    ensures Fields(Write(fields)) == Some(Placed(fields, 0))
  {
    hide EncodeChunks, StandFrom, ChunksFrom;
    PlacedStand(fields, 0);
    ContainerIsExact(Write(fields), 0, Placed(fields, 0));
  }

  function WriteBone(b: BoneFrame): bytes {
    Write([Field(BNID, LittleEndian(b.boneId, 2)), Field(TRAN, b.transform)])
  }

  function Unsigned16(n: int): nat
    requires -0x8000 <= n < 0x8000
  {
    if n < 0 then n + 0x1_0000 else n
  }

  predicate IsJoint(d: BoneDefinition) {
    d.boneId < 0x1_0000 && -0x8000 <= d.parentBoneId < 0x8000 && |d.transform| == 28
  }

  predicate IsBone(b: BoneFrame) {
    b.boneId < 0x1_0000 && |b.transform| == 28
  }

  function WriteJoint(d: BoneDefinition): bytes
    requires IsJoint(d)
  {
    Write([Field(BNID, LittleEndian(d.boneId, 2)), Field(PBID, LittleEndian(Unsigned16(d.parentBoneId), 2)),
           Field(TRAN, d.transform)])
  }

  function BoneFields(bones: seq<BoneFrame>): (fields: seq<Field>)
    ensures |fields| == |bones|
  {
    seq(|bones|, i requires 0 <= i < |bones| => Field(BTDT, WriteBone(bones[i])))
  }

  function JointFields(joints: seq<BoneDefinition>): (fields: seq<Field>)
    requires forall i :: 0 <= i < |joints| ==> IsJoint(joints[i])
    ensures |fields| == |joints|
  {
    seq(|joints|, i requires 0 <= i < |joints| => Field(BNDT, WriteJoint(joints[i])))
  }

  function WriteHead(): bytes {
    Write([Field(FTYP, FORMAT), Field(VRSN, [1])])
  }

  function WriteSender(senderId: bytes, port: nat): bytes {
    Write([Field(IPAD, senderId), Field(RCVP, LittleEndian(port, 2))])
  }

  function WriteFrame(b: Body): bytes
    requires b.FrameBody?
  {
    Write([Field(FNUM, LittleEndian(b.frameNumber, 4)), Field(TIME, LittleEndian(b.streamSeconds, 4)),
           Field(UTTM, LittleEndian(b.senderUnixSeconds, 8)), Field(TMCD, b.timecode),
           Field(BTRS, Write(BoneFields(b.bones)))])
  }

  function WriteSkeleton(b: Body): bytes
    requires b.SkeletonBody? && forall i :: 0 <= i < |b.joints| ==> IsJoint(b.joints[i])
  {
    Write([Field(BONS, Write(JointFields(b.joints)))])
  }

  function WritePacket(p: Packet): bytes
    requires p.body.SkeletonBody? ==> forall i :: 0 <= i < |p.body.joints| ==> IsJoint(p.body.joints[i])
  {
    Write([Field(HEAD, WriteHead()), Field(SNDF, WriteSender(p.senderId, p.receivePort)),
           if p.body.FrameBody? then Field(FRAM, WriteFrame(p.body)) else Field(SKDF, WriteSkeleton(p.body))])
  }

  // ---- Reading back ----

  lemma {:induction false} NoField(fields: seq<Field>, at: nat, tag: bytes)
    requires forall k :: 0 <= k < |fields| ==> fields[k].tag != tag
    ensures Count(Placed(fields, at), tag) == 0
  {
    if fields != [] {
      NoField(fields[1..], at + HEADER + |fields[0].payload|, tag);
      assert Placed(fields, at)[1..] == Placed(fields[1..], at + HEADER + |fields[0].payload|);
    }
  }

  /** A field whose tag no other field has is the one chunk of that tag. */
  lemma {:induction false} FieldIsFound(fields: seq<Field>, at: nat, i: nat)
    requires i < |fields| && forall k :: 0 <= k < |fields| && k != i ==> fields[k].tag != fields[i].tag
    ensures Count(Placed(fields, at), fields[i].tag) == 1 && First(Placed(fields, at), fields[i].tag) == fields[i].payload
  {
    var next := at + HEADER + |fields[0].payload|;
    assert Placed(fields, at)[1..] == Placed(fields[1..], next);
    if i == 0 {
      NoField(fields[1..], next, fields[0].tag);
    } else {
      FieldIsFound(fields[1..], next, i - 1);
    }
  }

  lemma NumberIsRead(n: nat, width: nat)
    requires n < Pow256(width)
    ensures Number(Some(LittleEndian(n, width)), width) == Some(n)
  {
    LittleEndianIsRead(n, width);
  }

  lemma Widths()
    ensures Pow256(2) == 0x1_0000 && Pow256(4) == 0x1_0000_0000 && Pow256(8) == 0x1_0000_0000_0000_0000
  {
    assert Pow256(3) == 0x100_0000;
    assert Pow256(5) == 0x100_0000_0000;
    assert Pow256(6) == 0x1_0000_0000_0000;
    assert Pow256(7) == 0x100_0000_0000_0000;
  }

  lemma BoneIsRead(b: BoneFrame)
    requires IsBone(b)
    ensures BoneIn(WriteBone(b)) == Some(b)
  {
    hide LittleEndian, FromLittleEndian, Placed, Count, First, Write, Chunks;
    var fields := [Field(BNID, LittleEndian(b.boneId, 2)), Field(TRAN, b.transform)];
    WrittenIsRead(fields);
    FieldIsFound(fields, 0, 0);
    FieldIsFound(fields, 0, 1);
    Widths();
    NumberIsRead(b.boneId, 2);
  }

  lemma JointIsRead(d: BoneDefinition)
    requires IsJoint(d)
    ensures JointIn(WriteJoint(d)) == Some(d)
  {
    hide LittleEndian, FromLittleEndian, Placed, Count, First, Write, Chunks;
    var fields := [Field(BNID, LittleEndian(d.boneId, 2)), Field(PBID, LittleEndian(Unsigned16(d.parentBoneId), 2)),
                   Field(TRAN, d.transform)];
    WrittenIsRead(fields);
    FieldIsFound(fields, 0, 0);
    FieldIsFound(fields, 0, 1);
    FieldIsFound(fields, 0, 2);
    Widths();
    NumberIsRead(d.boneId, 2);
    NumberIsRead(Unsigned16(d.parentBoneId), 2);
  }

  /** The bones whose transforms are usable, in order. */
  function Usable(f: Floats, bones: seq<BoneFrame>): (usable: seq<BoneFrame>)
    ensures |usable| <= |bones|
  {
    if bones == [] then []
    else
      var last := bones[|bones| - 1];
      Usable(f, bones[..|bones| - 1]) + if f.isUsable(last.transform) then [last] else []
  }

  lemma {:induction false} BonesAreRead(f: Floats, bones: seq<BoneFrame>, records: seq<Chunk>)
    requires |records| == |bones| && forall i :: 0 <= i < |bones| ==> IsBone(bones[i])
    requires forall i :: 0 <= i < |records| ==> records[i].tag == BTDT && records[i].payload == WriteBone(bones[i])
    ensures BonesIn(f, records) == Some((Usable(f, bones), |bones| - |Usable(f, bones)|))
  {
    hide BoneIn, WriteBone;
    if bones != [] {
      var front, last := bones[..|bones| - 1], records[|records| - 1];
      BonesAreRead(f, front, records[..|records| - 1]);
      BoneIsRead(bones[|bones| - 1]);
      assert last.tag == BTDT && BoneIn(last.payload) == Some(bones[|bones| - 1]);
      assert BonesIn(f, records[..|records| - 1]) == Some((Usable(f, front), |front| - |Usable(f, front)|));
      var b := bones[|bones| - 1];
      if f.isUsable(b.transform) {
        assert Usable(f, bones) == Usable(f, front) + [b];
        assert BonesIn(f, records).value.0 == Usable(f, front) + [b];
      } else {
        assert Usable(f, bones) == Usable(f, front);
        assert BonesIn(f, records).value.0 == Usable(f, front);
      }
    }
  }

  lemma {:induction false} JointsAreRead(f: Floats, joints: seq<BoneDefinition>, records: seq<Chunk>)
    requires |records| == |joints| && forall i :: 0 <= i < |joints| ==> IsJoint(joints[i])
    requires forall i :: 0 <= i < |records| ==> records[i].tag == BNDT && records[i].payload == WriteJoint(joints[i])
    ensures JointsIn(f, records) ==
      if forall i :: 0 <= i < |joints| ==> f.isUsable(joints[i].transform) then Accepted(joints) else Refused(NonFiniteTransform)
  {
    hide JointIn, WriteJoint;
    if joints != [] {
      var front, last := joints[..|joints| - 1], joints[|joints| - 1];
      JointsAreRead(f, front, records[..|records| - 1]);
      JointIsRead(last);
      assert joints == front + [last];
    }
  }

  lemma {:induction false} PayloadsAreShorter(fields: seq<Field>, i: nat)
    requires i < |fields|
    ensures |fields[i].payload| <= |Write(fields)|
  {
    if i > 0 {
      PayloadsAreShorter(fields[1..], i - 1);
    }
  }

  /** The fields of a written list all fit when the list does. */
  lemma ListFits(fields: seq<Field>)
    requires |Write(fields)| < TWO_32 && forall i :: 0 <= i < |fields| ==> |fields[i].tag| == 4
    ensures Fit(fields)
  {
    forall i | 0 <= i < |fields|
      ensures |fields[i].payload| < TWO_32
    {
      PayloadsAreShorter(fields, i);
    }
  }

  /** A frame body whose numbers have their wire's widths. */
  predicate IsFrame(b: Body) {
    && b.FrameBody? && b.frameNumber < TWO_32 && b.streamSeconds < TWO_32
    && b.senderUnixSeconds < 0x1_0000_0000_0000_0000 && |b.timecode| == 6
    && forall i :: 0 <= i < |b.bones| ==> IsBone(b.bones[i])
  }

  lemma FrameFieldsAreRead(b: Body)
    requires IsFrame(b) && |WriteFrame(b)| < TWO_32
    ensures Fields(WriteFrame(b)).Some? && Fit(BoneFields(b.bones))
    ensures var fields := Fields(WriteFrame(b)).value;
            && One(fields, FNUM) == Some(LittleEndian(b.frameNumber, 4))
            && One(fields, TIME) == Some(LittleEndian(b.streamSeconds, 4))
            && One(fields, UTTM) == Some(LittleEndian(b.senderUnixSeconds, 8))
            && One(fields, TMCD) == Some(b.timecode) && One(fields, BTRS) == Some(Write(BoneFields(b.bones)))
  {
    hide LittleEndian, Placed, Count, First, Write, Chunks, WriteBone;
    var records := BoneFields(b.bones);
    var fields := [Field(FNUM, LittleEndian(b.frameNumber, 4)), Field(TIME, LittleEndian(b.streamSeconds, 4)),
                   Field(UTTM, LittleEndian(b.senderUnixSeconds, 8)), Field(TMCD, b.timecode),
                   Field(BTRS, Write(records))];
    PayloadsAreShorter(fields, 4);
    ListFits(fields);
    ListFits(records);
    WrittenIsRead(fields);
    FieldIsFound(fields, 0, 0);
    FieldIsFound(fields, 0, 1);
    FieldIsFound(fields, 0, 2);
    FieldIsFound(fields, 0, 3);
    FieldIsFound(fields, 0, 4);
  }

  lemma FrameIsRead(f: Floats, b: Body)
    requires IsFrame(b) && |WriteFrame(b)| < TWO_32
    ensures FrameIn(f, WriteFrame(b)) ==
      if f.isClock(b.streamSeconds) && f.isFinite64(b.senderUnixSeconds)
      then Accepted((b.(bones := Usable(f, b.bones)), |b.bones| - |Usable(f, b.bones)|))
      else Refused(TimestampInvalid)
  {
    hide LittleEndian, FromLittleEndian, Placed, One, Write, WriteFrame, Chunks, BonesIn, WriteBone, Usable, Fit;
    var records := BoneFields(b.bones);
    FrameFieldsAreRead(b);
    WrittenIsRead(records);
    Widths();
    NumberIsRead(b.frameNumber, 4);
    NumberIsRead(b.streamSeconds, 4);
    NumberIsRead(b.senderUnixSeconds, 8);
    BonesAreRead(f, b.bones, Placed(records, 0));
  }

  lemma SkeletonIsRead(f: Floats, b: Body)
    requires b.SkeletonBody? && forall i :: 0 <= i < |b.joints| ==> IsJoint(b.joints[i])
    requires |WriteSkeleton(b)| < TWO_32
    ensures SkeletonIn(f, WriteSkeleton(b)) ==
      if forall i :: 0 <= i < |b.joints| ==> f.isUsable(b.joints[i].transform) then Accepted((b, 0))
      else Refused(NonFiniteTransform)
  {
    hide Placed, Count, First, Write, Chunks, JointsIn, WriteJoint;
    var records := JointFields(b.joints);
    var fields := [Field(BONS, Write(records))];
    PayloadsAreShorter(fields, 0);
    ListFits(fields);
    ListFits(records);
    WrittenIsRead(fields);
    WrittenIsRead(records);
    FieldIsFound(fields, 0, 0);
    JointsAreRead(f, b.joints, Placed(records, 0));
  }

  lemma ProvenanceIsRead(senderId: bytes, port: nat, body: Field)
    requires body.tag == FRAM || body.tag == SKDF
    requires |senderId| == 8 && port < 0x1_0000
    ensures var top := [Field(HEAD, WriteHead()), Field(SNDF, WriteSender(senderId, port)), body];
            Provenance(Placed(top, 0)) == Some((senderId, port))
  {
    hide LittleEndian, FromLittleEndian, Placed, Count, First, Write, Chunks;
    var top := [Field(HEAD, WriteHead()), Field(SNDF, WriteSender(senderId, port)), body];
    var head := [Field(FTYP, FORMAT), Field(VRSN, [1])];
    var sender := [Field(IPAD, senderId), Field(RCVP, LittleEndian(port, 2))];
    FieldIsFound(top, 0, 0);
    FieldIsFound(top, 0, 1);
    WrittenIsRead(head);
    WrittenIsRead(sender);
    FieldIsFound(head, 0, 0);
    FieldIsFound(head, 0, 1);
    FieldIsFound(sender, 0, 0);
    FieldIsFound(sender, 0, 1);
    Widths();
    NumberIsRead(port, 2);
  }

  /** A packet whose parts have their wire's widths and fit their length fields. */
  predicate IsPacket(p: Packet) {
    && |p.senderId| == 8 && p.receivePort < 0x1_0000
    && if p.body.FrameBody? then IsFrame(p.body) && |WriteFrame(p.body)| < TWO_32
       else (forall i :: 0 <= i < |p.body.joints| ==> IsJoint(p.body.joints[i])) && |WriteSkeleton(p.body)| < TWO_32
  }

  /** A written packet decodes to its sender and port, with what its body is read as. */
  lemma BodyIsReached(f: Floats, p: Packet)
    requires IsPacket(p)
    ensures Decoded(f, WritePacket(p)) ==
      match (if p.body.FrameBody? then FrameIn(f, WriteFrame(p.body)) else SkeletonIn(f, WriteSkeleton(p.body)))
      case Refused(code) => Refused(code)
      case Accepted((body, refused)) => Accepted(Packet(p.senderId, p.receivePort, body, refused))
  {
    hide Placed, Count, First, Write, ChunksFrom, FrameIn, SkeletonIn, WriteFrame, WriteSkeleton, WriteHead, WriteSender,
         Provenance;
    var body := if p.body.FrameBody? then Field(FRAM, WriteFrame(p.body)) else Field(SKDF, WriteSkeleton(p.body));
    var top := [Field(HEAD, WriteHead()), Field(SNDF, WriteSender(p.senderId, p.receivePort)), body];
    HeadsAreShort(p.senderId, p.receivePort);
    WrittenIsRead(top);
    ProvenanceIsRead(p.senderId, p.receivePort, body);
    FieldIsFound(top, 0, 2);
    NoField(top, 0, if p.body.FrameBody? then SKDF else FRAM);
  }

  lemma HeadsAreShort(senderId: bytes, port: nat)
    requires |senderId| == 8
    ensures |WriteHead()| < 100 && |WriteSender(senderId, port)| < 100
  {
    TwoFields(Field(FTYP, FORMAT), Field(VRSN, [1]));
    TwoFields(Field(IPAD, senderId), Field(RCVP, LittleEndian(port, 2)));
  }

  lemma TwoFields(a: Field, b: Field)
    ensures |Write([a, b])| == |a.tag| + |a.payload| + |b.tag| + |b.payload| + 8
  {
    assert [a, b][1..] == [b] && [b][1..] == [];
    assert Write([b]) == EncodeChunk(b.tag, b.payload) + Write([]);
  }

  /**
   A written packet is read back: a frame with the bones whose transforms are usable, the others counted,
   unless its clock is not one; a skeleton whole, unless one of its joints names no orientation.
   */
  lemma PacketIsReadBack(f: Floats, p: Packet)
    requires IsPacket(p)
    ensures Decoded(f, WritePacket(p)) ==
      if p.body.FrameBody? then
        if f.isClock(p.body.streamSeconds) && f.isFinite64(p.body.senderUnixSeconds) then
          var usable := Usable(f, p.body.bones);
          Accepted(p.(body := p.body.(bones := usable), refusedBones := |p.body.bones| - |usable|))
        else Refused(TimestampInvalid)
      else if forall i :: 0 <= i < |p.body.joints| ==> f.isUsable(p.body.joints[i].transform) then
        Accepted(p.(refusedBones := 0))
      else Refused(NonFiniteTransform)
  {
    hide FrameIn, SkeletonIn, WriteFrame, WriteSkeleton, WritePacket, Decoded, Usable;
    BodyIsReached(f, p);
    if p.body.FrameBody? {
      FrameIsRead(f, p.body);
    } else {
      SkeletonIsRead(f, p.body);
    }
  }

  /** A written frame with a clock comes back with its usable bones, and bones and refusals make up its records. */
  lemma FramePacketIsReadBack(f: Floats, p: Packet)
    requires IsPacket(p) && p.body.FrameBody?
    requires f.isClock(p.body.streamSeconds) && f.isFinite64(p.body.senderUnixSeconds)
    ensures Decoded(f, WritePacket(p)) ==
      Accepted(p.(body := p.body.(bones := Usable(f, p.body.bones)), refusedBones := |p.body.bones| - |Usable(f, p.body.bones)|))
  {
    hide WritePacket, Decoded, Usable;
    PacketIsReadBack(f, p);
  }

  /** A written skeleton comes back whole exactly when every joint names an orientation. */
  lemma SkeletonPacketIsReadBack(f: Floats, p: Packet)
    requires IsPacket(p) && p.body.SkeletonBody? && p.refusedBones == 0
    ensures Decoded(f, WritePacket(p)) == Accepted(p) <==>
            forall i :: 0 <= i < |p.body.joints| ==> f.isUsable(p.body.joints[i].transform)
  {
    hide WritePacket, Decoded;
    PacketIsReadBack(f, p);
  }
}
