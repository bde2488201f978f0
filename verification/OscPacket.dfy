/**
 OSC 1.0 packets: the decoder of OscPacket.cpp over nested bundles and typed arguments, and the
 encoding that the "OSC Packets" and "OSC Bundles" sections of the specification lay down.
 */
module OscPacket {
  import opened Bytes

  // ---- Values ----

  /** A floating-point field: nothing written, or the bits of a single or a double. */
  datatype Float = Zero | Single(bits: nat) | Double(bits: nat)

  /** One argument; the fields its tag does not use keep their defaults. */
  datatype Argument = Argument(tag: byte, integer: int, timeTag: nat, number: Float, text: bytes, blob: bytes)

  datatype Message = Message(address: bytes, typeTags: bytes, arguments: seq<Argument>)

  datatype Packet = Packet(messages: seq<Message>, bundled: bool, timeTag: nat)

  datatype Reason =
    | TooDeep | EmptyDatagram | NotAligned | NeitherBundleNorMessage
    | BundleHeaderShort | SizeFieldTruncated | SizeNotPositive | ElementOverruns
    | AddressUnterminated | TagsUnterminated | NoComma
    | ArgumentShort | TextUnterminated | BlobSizeMissing | BlobSizeNegative | BlobOverruns
    | UnknownTag | BytesLeftOver

  /** Why a datagram was refused: at which of its bytes, and in which message, where that was known. */
  datatype Refusal = Refusal(reason: Reason, at: nat, subject: bytes)

  datatype Outcome<+T> = Accepted(value: T) | Refused(refusal: Refusal)

  const MAX_BUNDLE_DEPTH := 8

  const TIME_TAG_IMMEDIATE := 1

  const BUNDLE_HEADER_SIZE := 16

  const MAGIC: bytes := [35, 98, 117, 110, 100, 108, 101, 0]

  const SLASH: byte := 47

  const COMMA: byte := 44

  /** How a type tag's argument is laid out. */
  datatype Kind = Four | Eight | Text | Blob | Bare | Unknown

  function KindOf(tag: byte): Kind {
    if tag in [105, 102, 99, 114, 109] then Four          // i f c r m
    else if tag in [104, 116, 100] then Eight             // h t d
    else if tag in [115, 83] then Text                    // s S
    else if tag == 98 then Blob                           // b
    else if tag in [84, 70, 78, 73, 91, 93] then Bare     // T F N I [ ]
    else Unknown
  }

  function Blank(tag: byte): Argument {
    Argument(tag, 0, 0, Zero, [], [])
  }

  function Signed(n: nat, half: nat): int {
    if n >= half then n - 2 * half else n
  }

  const TWO_31 := 0x8000_0000

  const TWO_63 := 0x8000_0000_0000_0000

  /** What the bits of a four-byte or an eight-byte argument mean under its tag. */
  function OfBits(tag: byte, bits: nat): Argument {
    if tag == 105 then Blank(tag).(integer := Signed(bits, TWO_31))
    else if tag == 102 then Blank(tag).(number := Single(bits))
    else if tag == 104 then Blank(tag).(integer := Signed(bits, TWO_63))
    else if tag == 116 then Blank(tag).(timeTag := bits)
    else if tag == 100 then Blank(tag).(number := Double(bits))
    else Blank(tag).(integer := bits)
  }

  function PaddedSize(length: nat): (padded: nat)
    ensures padded % 4 == 0 && length < padded <= length + 4
  {
    (length + 4) / 4 * 4
  }

  function BlobPadded(length: nat): (padded: nat)
    ensures padded % 4 == 0 && length <= padded < length + 4
  {
    (length + 3) / 4 * 4
  }

  // ---- What a datagram means ----

  /** The first zero byte at or after `i`. */
  function ZeroFrom(u: bytes, i: nat): (at: nat)
    requires i <= |u|
    ensures i <= at <= |u| && (at < |u| ==> u[at] == 0)
    ensures forall k :: i <= k < at ==> u[k] != 0
    decreases |u| - i
  {
    if i == |u| || u[i] == 0 then i else ZeroFrom(u, i + 1)
  }

  /** A string and the offset past its padding. */
  function StringAt(u: bytes, offset: nat): Option<(bytes, nat)>
    requires offset <= |u|
  {
    var end := ZeroFrom(u, offset);
    if end >= |u| then None
    else
      var padded := PaddedSize(end - offset);
      if padded > |u| - offset then None else Some((u[offset..end], offset + padded))
  }

  /** One argument of `tag`, and the offset past it. */
  function ArgumentAt(u: bytes, base: nat, address: bytes, tag: byte, offset: nat): (r: Outcome<(Argument, nat)>)
    requires offset <= |u|
    ensures r.Accepted? ==> offset <= r.value.1 <= |u|
  {
    match KindOf(tag)
    case Four =>
      if |u| - offset < 4 then Refused(Refusal(ArgumentShort, base + offset, address))
      else Accepted((OfBits(tag, FromBigEndian(u[offset..offset + 4])), offset + 4))
    case Eight =>
      if |u| - offset < 8 then Refused(Refusal(ArgumentShort, base + offset, address))
      else Accepted((OfBits(tag, FromBigEndian(u[offset..offset + 8])), offset + 8))
    case Text =>
      (match StringAt(u, offset)
       case None => Refused(Refusal(TextUnterminated, base + offset, address))
       case Some((text, next)) => Accepted((Blank(tag).(text := text), next)))
    case Blob =>
      if |u| - offset < 4 then Refused(Refusal(BlobSizeMissing, base + offset, address))
      else
        var declared := Signed(FromBigEndian(u[offset..offset + 4]), TWO_31);
        if declared < 0 then Refused(Refusal(BlobSizeNegative, base + offset, address))
        else if BlobPadded(declared) > |u| - offset - 4 then Refused(Refusal(BlobOverruns, base + offset, address))
        else
          Accepted((Blank(tag).(blob := u[offset + 4..offset + 4 + declared]), offset + 4 + BlobPadded(declared)))
    case Bare => Accepted((Blank(tag).(integer := if tag == 84 then 1 else 0), offset))
    case Unknown => Refused(Refusal(UnknownTag, base + offset, address))
  }

  /** The arguments of `tags` in order, and the offset past the last. */
  function ArgumentsAt(u: bytes, base: nat, address: bytes, tags: bytes, offset: nat): (r: Outcome<(seq<Argument>, nat)>)
    requires offset <= |u|
    ensures r.Accepted? ==> offset <= r.value.1 <= |u| && |r.value.0| == |tags|
    decreases |tags|
  {
    if tags == [] then Accepted(([], offset))
    else
      match ArgumentAt(u, base, address, tags[0], offset)
      case Refused(refusal) => Refused(refusal)
      case Accepted((argument, next)) =>
        match ArgumentsAt(u, base, address, tags[1..], next)
        case Refused(refusal) => Refused(refusal)
        case Accepted((rest, end)) => Accepted(([argument] + rest, end))
  }

  function MessageIn(u: bytes, base: nat): (r: Outcome<Message>)
  {
    match StringAt(u, 0)
    case None => Refused(Refusal(AddressUnterminated, base, []))
    case Some((address, afterAddress)) =>
      match StringAt(u, afterAddress)
      case None => Refused(Refusal(TagsUnterminated, base + afterAddress, address))
      case Some((tags, start)) =>
        if tags == [] || tags[0] != COMMA then Refused(Refusal(NoComma, base + start, address))
        else
          match ArgumentsAt(u, base, address, tags[1..], start)
          case Refused(refusal) => Refused(refusal)
          case Accepted((arguments, end)) =>
            if end != |u| then Refused(Refusal(BytesLeftOver, base + end, address))
            else Accepted(Message(address, tags[1..], arguments))
  }

  predicate IsBundle(u: bytes) {
    |u| >= |MAGIC| && u[..|MAGIC|] == MAGIC
  }

  /** The messages of one packet element, in wire order; `base` is where it stands in the datagram. */
  function ElementIn(u: bytes, base: nat, depth: nat): Outcome<seq<Message>>
    decreases |u|, 1, 0
  {
    if depth > MAX_BUNDLE_DEPTH then Refused(Refusal(TooDeep, base, []))
    else if |u| == 0 then Refused(Refusal(EmptyDatagram, base, []))
    else if |u| % 4 != 0 then Refused(Refusal(NotAligned, base, []))
    else if IsBundle(u) then
      if |u| < BUNDLE_HEADER_SIZE then Refused(Refusal(BundleHeaderShort, base, []))
      else ElementsFrom(u, base, depth, BUNDLE_HEADER_SIZE)
    else if u[0] == SLASH then
      match MessageIn(u, base)
      case Refused(refusal) => Refused(refusal)
      case Accepted(message) => Accepted([message])
    else Refused(Refusal(NeitherBundleNorMessage, base, []))
  }

  /** The messages of a bundle's elements from `offset` on. */
  function ElementsFrom(u: bytes, base: nat, depth: nat, offset: nat): Outcome<seq<Message>>
    requires offset <= |u|
    decreases |u|, 0, |u| - offset
  {
    if offset == |u| then Accepted([])
    else if |u| - offset < 4 then Refused(Refusal(SizeFieldTruncated, base + offset, []))
    else
      var size, start := Signed(FromBigEndian(u[offset..offset + 4]), TWO_31), offset + 4;
      if size <= 0 then Refused(Refusal(SizeNotPositive, base + offset, []))
      else if size > |u| - start then Refused(Refusal(ElementOverruns, base + offset, []))
      else
        match ElementIn(u[start..start + size], base + start, depth + 1)
        case Refused(refusal) => Refused(refusal)
        case Accepted(messages) =>
          match ElementsFrom(u, base, depth, start + size)
          case Refused(refusal) => Refused(refusal)
          case Accepted(rest) => Accepted(messages + rest)
  }

  function Decoded(datagram: bytes): Outcome<Packet> {
    match ElementIn(datagram, 0, 0)
    case Refused(refusal) => Refused(refusal)
    case Accepted(messages) =>
      if IsBundle(datagram) && |datagram| >= BUNDLE_HEADER_SIZE
      then Accepted(Packet(messages, true, FromBigEndian(datagram[8..16])))
      else Accepted(Packet(messages, false, TIME_TAG_IMMEDIATE))
  }

  // ---- The decoder as the program writes it ----

  method ReadString(u: bytes, offset: nat) returns (text: bytes, next: nat, ok: bool)
    requires offset <= |u|
    ensures StringAt(u, offset) == if ok then Some((text, next)) else None
    ensures ok ==> next <= |u|
  {
    text, next, ok := [], offset, false;
    var index := offset;
    while index < |u| && u[index] != 0
      invariant offset <= index <= |u|
      invariant ZeroFrom(u, index) == ZeroFrom(u, offset)
    {
      index := index + 1;
    }
    if index >= |u| {
      return;
    }
    var padded := PaddedSize(index - offset);
    if padded > |u| - offset {
      return;
    }
    text, next, ok := u[offset..index], offset + padded, true;
  }

  class Decoder {
    var messages: seq<Message>
    var bundled: bool
    var timeTag: nat
    var refusal: Option<Refusal>

    constructor ()
      ensures messages == [] && !bundled && timeTag == TIME_TAG_IMMEDIATE && refusal.None?
    {
      messages, bundled, timeTag, refusal := [], false, TIME_TAG_IMMEDIATE, None;
    }

    method Fail(reason: Reason, at: nat, subject: bytes)
      modifies this`refusal
      ensures refusal == Some(Refusal(reason, at, subject))
    {
      refusal := Some(Refusal(reason, at, subject));
    }

    /** The bits of a fixed-width argument, and the offset past it. */
    method Fixed(u: bytes, base: nat, address: bytes, offset: nat, width: nat) returns (bits: nat, next: nat, ok: bool)
      requires offset <= |u|
      modifies this`refusal
      ensures ok <==> |u| - offset >= width
      ensures ok ==> bits == FromBigEndian(u[offset..offset + width]) && next == offset + width && refusal == old(refusal)
      ensures !ok ==> refusal == Some(Refusal(ArgumentShort, base + offset, address))
    {
      bits, next, ok := 0, offset, false;
      if |u| - offset < width {
        Fail(ArgumentShort, base + offset, address);
        return;
      }
      bits, next, ok := FromBigEndian(u[offset..offset + width]), offset + width, true;
    }

    method ReadBlob(u: bytes, base: nat, address: bytes, offset: nat) returns (blob: bytes, next: nat, ok: bool)
      requires offset <= |u|
      modifies this`refusal
      ensures ok ==> refusal == old(refusal) && next <= |u|
      ensures !ok ==> refusal.Some?
      ensures forall tag :: KindOf(tag).Blob? ==>
        ArgumentAt(u, base, address, tag, offset) ==
        if ok then Accepted((Blank(tag).(blob := blob), next)) else Refused(refusal.value)
    {
      blob, next, ok := [], offset, false;
      if |u| - offset < 4 {
        Fail(BlobSizeMissing, base + offset, address);
        return;
      }
      var declared := Signed(FromBigEndian(u[offset..offset + 4]), TWO_31);
      if declared < 0 {
        Fail(BlobSizeNegative, base + offset, address);
        return;
      }
      var padded := BlobPadded(declared);
      if padded > |u| - offset - 4 {
        Fail(BlobOverruns, base + offset, address);
        return;
      }
      blob, next, ok := u[offset + 4..offset + 4 + declared], offset + 4 + padded, true;
    }

    method ReadArgument(u: bytes, base: nat, address: bytes, tag: byte, offset: nat)
      returns (argument: Argument, next: nat, ok: bool)
      requires offset <= |u|
      modifies this`refusal
      ensures ok ==> refusal == old(refusal) && next <= |u|
      ensures !ok ==> refusal.Some?
      ensures ArgumentAt(u, base, address, tag, offset) ==
        if ok then Accepted((argument, next)) else Refused(refusal.value)
    {
      argument, next, ok := Blank(tag), offset, true;
      match KindOf(tag) {
        case Four =>
          var bits;
          bits, next, ok := Fixed(u, base, address, offset, 4);
          argument := OfBits(tag, bits);
        case Eight =>
          var bits;
          bits, next, ok := Fixed(u, base, address, offset, 8);
          argument := OfBits(tag, bits);
        case Text =>
          var text;
          text, next, ok := ReadString(u, offset);
          argument := argument.(text := text);
          if !ok {
            Fail(TextUnterminated, base + offset, address);
          }
        case Blob =>
          var blob;
          blob, next, ok := ReadBlob(u, base, address, offset);
          argument := argument.(blob := blob);
        case Bare =>
          if tag == 84 {
            argument := argument.(integer := 1);
          }
        case Unknown =>
          ok := false;
          Fail(UnknownTag, base + offset, address);
      }
    }

    method ReadMessage(u: bytes, base: nat) returns (ok: bool)
      modifies this
      ensures match MessageIn(u, base)
              case Accepted(message) =>
                ok && messages == old(messages) + [message] && refusal == old(refusal)
              case Refused(refused) => !ok && messages == old(messages) && refusal == Some(refused)
      ensures bundled == old(bundled) && timeTag == old(timeTag)
    {
      hide ArgumentAt, StringAt;
      ok := false;
      var address, offset: nat, hasAddress := ReadString(u, 0);
      if !hasAddress {
        Fail(AddressUnterminated, base, []);
        return;
      }
      var tags, start, hasTags := ReadString(u, offset);
      if !hasTags {
        Fail(TagsUnterminated, base + offset, address);
        return;
      }
      if tags == [] || tags[0] != COMMA {
        Fail(NoComma, base + start, address);
        return;
      }
      tags, offset := tags[1..], start;
      var arguments := [];
      ContinuedFromNone(ArgumentsAt(u, base, address, tags, start));
      assert tags[0..] == tags;
      for i := 0 to |tags|
        invariant 0 <= offset <= |u| && refusal == old(refusal) && messages == old(messages)
        invariant bundled == old(bundled) && timeTag == old(timeTag)
        invariant ArgumentsAt(u, base, address, tags, start)
               == Continued(arguments, ArgumentsAt(u, base, address, tags[i..], offset))
      {
        var argument, next, read := ReadArgument(u, base, address, tags[i], offset);
        assert tags[i..][1..] == tags[i + 1..];
        if !read {
          return;
        }
        ContinuedBy(arguments, argument, ArgumentsAt(u, base, address, tags[i + 1..], next));
        arguments, offset := arguments + [argument], next;
      }
      assert arguments + [] == arguments;
      if offset != |u| {
        Fail(BytesLeftOver, base + offset, address);
        return;
      }
      messages := messages + [Message(address, tags, arguments)];
      ok := true;
    }

    method Element(u: bytes, base: nat, depth: nat) returns (ok: bool)
      modifies this
      ensures match ElementIn(u, base, depth)
              case Accepted(found) => ok && messages == old(messages) + found && refusal == old(refusal)
              case Refused(refused) => !ok && old(messages) <= messages && refusal == Some(refused)
      ensures depth > 0 ==> bundled == old(bundled) && timeTag == old(timeTag)
      ensures depth == 0 && ok ==>
                if IsBundle(u) && |u| >= 16 then bundled && timeTag == FromBigEndian(u[8..16])
                else bundled == old(bundled) && timeTag == old(timeTag)
      decreases |u|, 1, 0
    {
      hide MessageIn;
      ok := false;
      if depth > MAX_BUNDLE_DEPTH {
        Fail(TooDeep, base, []);
        return;
      }
      if |u| == 0 {
        Fail(EmptyDatagram, base, []);
        return;
      }
      if |u| % 4 != 0 {
        Fail(NotAligned, base, []);
        return;
      }
      if |u| >= |MAGIC| && u[..|MAGIC|] == MAGIC {
        ok := Bundle(u, base, depth);
        return;
      }
      if u[0] == SLASH {
        ok := ReadMessage(u, base);
        return;
      }
      Fail(NeitherBundleNorMessage, base, []);
    }

    method Bundle(u: bytes, base: nat, depth: nat) returns (ok: bool)
      requires depth <= MAX_BUNDLE_DEPTH && |u| % 4 == 0 && IsBundle(u)
      modifies this
      ensures match ElementIn(u, base, depth)
              case Accepted(found) => ok && messages == old(messages) + found && refusal == old(refusal)
              case Refused(refused) => !ok && old(messages) <= messages && refusal == Some(refused)
      ensures depth > 0 ==> bundled == old(bundled) && timeTag == old(timeTag)
      ensures depth == 0 && |u| >= 16 ==> bundled && timeTag == FromBigEndian(u[8..16])
      ensures ok ==> |u| >= 16
      decreases |u|, 0, 1
    {
      hide ElementsFrom;
      ok := false;
      if |u| < BUNDLE_HEADER_SIZE {
        Fail(BundleHeaderShort, base, []);
        return;
      }
      if depth == 0 {
        bundled, timeTag := true, FromBigEndian(u[8..16]);
      }
      var offset: nat := BUNDLE_HEADER_SIZE;
      ghost var found: seq<Message> := [];
      FollowedFromNone(ElementsFrom(u, base, depth, 16));
      while offset < |u|
        invariant offset <= |u| && refusal == old(refusal) && messages == old(messages) + found
        invariant depth > 0 ==> bundled == old(bundled) && timeTag == old(timeTag)
        invariant depth == 0 ==> bundled && timeTag == FromBigEndian(u[8..16])
        invariant ElementsFrom(u, base, depth, 16) == Followed(found, ElementsFrom(u, base, depth, offset))
      {
        var next, inner, more := NextElement(u, base, depth, offset);
        if !inner {
          return;
        }
        FollowedBy(found, more, ElementsFrom(u, base, depth, next));
        assert old(messages) + found + more == old(messages) + (found + more);
        found := found + more;
        offset := next;
      }
      ElementsEnd(u, base, depth);
      assert found + [] == found;
      ok := true;
    }

    /** One element of a bundle: its size field, and what it holds. */
    method NextElement(u: bytes, base: nat, depth: nat, offset: nat) returns (next: nat, ok: bool, ghost more: seq<Message>)
      requires offset < |u| && depth <= MAX_BUNDLE_DEPTH
      modifies this
      ensures bundled == old(bundled) && timeTag == old(timeTag)
      ensures ok ==> offset < next <= |u| && messages == old(messages) + more && refusal == old(refusal)
      ensures ok ==> ElementsFrom(u, base, depth, offset) == Followed(more, ElementsFrom(u, base, depth, next))
      ensures !ok ==> old(messages) <= messages && refusal.Some?
      ensures !ok ==> ElementsFrom(u, base, depth, offset) == Refused(refusal.value)
      decreases |u|, 0, 0
    {
      hide ElementIn;
      next, ok, more := offset, false, [];
      if |u| - offset < 4 {
        Fail(SizeFieldTruncated, base + offset, []);
        return;
      }
      var size := Signed(FromBigEndian(u[offset..offset + 4]), TWO_31);
      var start := offset + 4;
      if size <= 0 {
        Fail(SizeNotPositive, base + start - 4, []);
        return;
      }
      if size > |u| - start {
        Fail(ElementOverruns, base + start - 4, []);
        return;
      }
      ok := Element(u[start..start + size], base + start, depth + 1);
      if ok {
        more := ElementIn(u[start..start + size], base + start, depth + 1).value;
        next := start + size;
      }
    }
  }

  lemma ElementsEnd(u: bytes, base: nat, depth: nat)
    ensures ElementsFrom(u, base, depth, |u|) == Accepted([])
  {
  }

  lemma ContinuedFromNone(rest: Outcome<(seq<Argument>, nat)>)
    ensures Continued([], rest) == rest
  {
    if rest.Accepted? {
      assert [] + rest.value.0 == rest.value.0;
    }
  }

  lemma FollowedFromNone(rest: Outcome<seq<Message>>)
    ensures Followed([], rest) == rest
  {
    if rest.Accepted? {
      assert [] + rest.value == rest.value;
    }
  }

  function Continued(done: seq<Argument>, rest: Outcome<(seq<Argument>, nat)>): Outcome<(seq<Argument>, nat)> {
    match rest
    case Refused(refusal) => Refused(refusal)
    case Accepted((more, end)) => Accepted((done + more, end))
  }

  lemma ContinuedBy(done: seq<Argument>, next: Argument, rest: Outcome<(seq<Argument>, nat)>)
    ensures Continued(done + [next], rest) == Continued(done, Continued([next], rest))
  {
    if rest.Accepted? {
      assert done + [next] + rest.value.0 == done + ([next] + rest.value.0);
    }
  }

  function Followed(found: seq<Message>, rest: Outcome<seq<Message>>): Outcome<seq<Message>> {
    match rest
    case Refused(refusal) => Refused(refusal)
    case Accepted(more) => Accepted(found + more)
  }

  lemma FollowedBy(found: seq<Message>, more: seq<Message>, rest: Outcome<seq<Message>>)
    ensures Followed(found + more, rest) == Followed(found, Followed(more, rest))
  {
    if rest.Accepted? {
      assert found + more + rest.value == found + (more + rest.value);
    }
  }

  /** One datagram: a packet, or a refusal that leaves the caller's packet as it was. */
  method DecodeOscPacket(datagram: bytes) returns (outcome: Outcome<Packet>)
    ensures outcome == Decoded(datagram)
  {
    var decoder := new Decoder();
    var ok := decoder.Element(datagram, 0, 0);
    if !ok {
      return Refused(decoder.refusal.value);
    }
    assert [] + ElementIn(datagram, 0, 0).value == ElementIn(datagram, 0, 0).value;
    outcome := Accepted(Packet(decoder.messages, decoder.bundled, decoder.timeTag));
  }
}
