/**
 What the OSC decoder promises of whole datagrams: everything encoded is read back, everything read is
 well formed, and every refusal points into the datagram.
 */
module OscCodec {
  import opened Bytes
  import opened OscPacket

  /** A packet before it is flattened. */
  datatype Element = MessageElement(message: Message) | BundleElement(timeTag: nat, elements: seq<Element>)

  // ---- The language of OSC 1.0, in the bytes themselves ----

  predicate IsText(s: bytes) {
    forall k :: 0 <= k < |s| ==> s[k] != 0
  }

  /** An argument that carries what its tag says it carries, in the tag's own width, and nothing else. */
  predicate IsArgument(tag: byte, a: Argument) {
    match tag
    case 105 /* i */ => a == Argument(tag, a.integer, 0, Zero, [], []) && -0x8000_0000 <= a.integer < 0x8000_0000
    case 102 /* f */ => a == Argument(tag, 0, 0, a.number, [], []) && a.number.Single? && a.number.bits < 0x1_0000_0000
    case 99 /* c */ => a == Argument(tag, a.integer, 0, Zero, [], []) && 0 <= a.integer < 0x1_0000_0000
    case 114 /* r */ => a == Argument(tag, a.integer, 0, Zero, [], []) && 0 <= a.integer < 0x1_0000_0000
    case 109 /* m */ => a == Argument(tag, a.integer, 0, Zero, [], []) && 0 <= a.integer < 0x1_0000_0000
    case 104 /* h */ =>
      && a == Argument(tag, a.integer, 0, Zero, [], [])
      && -0x8000_0000_0000_0000 <= a.integer < 0x8000_0000_0000_0000
    case 116 /* t */ => a == Argument(tag, 0, a.timeTag, Zero, [], []) && a.timeTag < 0x1_0000_0000_0000_0000
    case 100 /* d */ =>
      a == Argument(tag, 0, 0, a.number, [], []) && a.number.Double? && a.number.bits < 0x1_0000_0000_0000_0000
    case 115 /* s */ => a == Argument(tag, 0, 0, Zero, a.text, []) && IsText(a.text)
    case 83 /* S */ => a == Argument(tag, 0, 0, Zero, a.text, []) && IsText(a.text)
    case 98 /* b */ => a == Argument(tag, 0, 0, Zero, [], a.blob) && |a.blob| < 0x8000_0000
    case 84 /* T */ => a == Argument(tag, 1, 0, Zero, [], [])
    case 70 /* F */ => a == Argument(tag, 0, 0, Zero, [], [])
    case 78 /* N */ => a == Argument(tag, 0, 0, Zero, [], [])
    case 73 /* I */ => a == Argument(tag, 0, 0, Zero, [], [])
    case 91 /* [ */ => a == Argument(tag, 0, 0, Zero, [], [])
    case 93 /* ] */ => a == Argument(tag, 0, 0, Zero, [], [])
    case _ => false
  }

  /** The bits of a number in two's complement of the given modulus. */
  function TwosComplement(n: int, modulus: int): (r: nat)
    requires 0 <= n + modulus
  {
    if n < 0 then n + modulus else n
  }

  /** The bytes of an argument that takes no padding: four, eight or none. */
  function Fixed(tag: byte, a: Argument): bytes
    requires IsArgument(tag, a)
  {
    match tag
    case 105 => BigEndian(TwosComplement(a.integer, 0x1_0000_0000), 4)
    case 102 => BigEndian(a.number.bits, 4)
    case 99 => BigEndian(a.integer, 4)
    case 114 => BigEndian(a.integer, 4)
    case 109 => BigEndian(a.integer, 4)
    case 104 => BigEndian(TwosComplement(a.integer, 0x1_0000_0000_0000_0000), 8)
    case 116 => BigEndian(a.timeTag, 8)
    case 100 => BigEndian(a.number.bits, 8)
    case _ => []
  }

  /** A text, its zero byte, and up to three bytes of any value that fill it up to a multiple of four. */
  predicate SpellsText(w: bytes, s: bytes) {
    |s| < |w| <= |s| + 4 && |w| % 4 == 0 && w[..|s|] == s && w[|s|] == 0 && IsText(s)
  }

  /** The size of a blob, its bytes, and up to three of any value that fill it up to a multiple of four. */
  predicate SpellsBlob(w: bytes, blob: bytes) {
    && |blob| < 0x8000_0000 && 4 + |blob| <= |w| < 8 + |blob| && |w| % 4 == 0
    && w[..4] == BigEndian(|blob|, 4) && w[4..4 + |blob|] == blob
  }

  predicate SpellsArgument(w: bytes, tag: byte, a: Argument) {
    && IsArgument(tag, a)
    && (if tag == 115 || tag == 83 then SpellsText(w, a.text)
        else if tag == 98 then SpellsBlob(w, a.blob)
        else w == Fixed(tag, a))
  }

  ghost predicate SpellsArguments(w: bytes, tags: bytes, arguments: seq<Argument>) {
    |tags| == |arguments| &&
    if tags == [] then w == []
    else exists n :: 0 <= n <= |w| && SpellsArgument(w[..n], tags[0], arguments[0])
                                   && SpellsArguments(w[n..], tags[1..], arguments[1..])
  }

  /** An address that begins with a slash, a comma and the tags, and one argument for each tag. */
  ghost predicate SpellsMessage(w: bytes, m: Message) {
    && m.address != [] && m.address[0] == 47
    && exists i, j :: 0 <= i <= j <= |w| && SpellsText(w[..i], m.address) && SpellsText(w[i..j], [44] + m.typeTags)
                                         && SpellsArguments(w[j..], m.typeTags, m.arguments)
  }

  /** A message, or "#bundle", a time tag and each element after its size. */
  ghost predicate Spells(w: bytes, e: Element)
    decreases e, 0
  {
    match e
    case MessageElement(m) => SpellsMessage(w, m)
    case BundleElement(timeTag, elements) =>
      && |w| >= 16 && w[..8] == [35, 98, 117, 110, 100, 108, 101, 0]
      && timeTag < 0x1_0000_0000_0000_0000 && w[8..16] == BigEndian(timeTag, 8)
      && SpellsElements(w[16..], elements)
  }

  ghost predicate SpellsElements(w: bytes, elements: seq<Element>)
    decreases elements
  {
    if elements == [] then w == []
    else
      exists n :: 0 <= n < 0x8000_0000 && n <= |w| - 4 && w[..4] == BigEndian(n, 4)
               && Spells(w[4..4 + n], elements[0]) && SpellsElements(w[4 + n..], elements[1..])
  }

  /** The messages of a packet, depth first. */
  function Leaves(e: Element): seq<Message> {
    match e
    case MessageElement(message) => [message]
    case BundleElement(_, elements) => LeavesOf(elements)
  }

  function LeavesOf(elements: seq<Element>): seq<Message> {
    if elements == [] then [] else Leaves(elements[0]) + LeavesOf(elements[1..])
  }

  /** How deep bundles are nested below this element. */
  function Height(e: Element): nat {
    match e
    case MessageElement(_) => 0
    case BundleElement(_, elements) => Heights(elements)
  }

  function Heights(elements: seq<Element>): nat {
    if elements == [] then 0
    else
      var first, rest := 1 + Height(elements[0]), Heights(elements[1..]);
      if first < rest then rest else first
  }

  /** A whole packet: its messages and the outer time tag, which is 1 outside a bundle. */
  function PacketOf(e: Element): Packet {
    match e
    case MessageElement(message) => Packet([message], false, 1)
    case BundleElement(timeTag, _) => Packet(Leaves(e), true, timeTag)
  }

  // ---- What is spelled is read ----

  lemma {:induction false} ZeroAfter(u: bytes, i: nat, at: nat)
    requires i <= at < |u| && u[at] == 0 && forall k :: i <= k < at ==> u[k] != 0
    ensures ZeroFrom(u, i) == at
    decreases at - i
  {
    if i < at {
      ZeroAfter(u, i + 1, at);
    }
  }

  lemma TextIsRead(u: bytes, at: nat, n: nat, s: bytes)
    requires at + n <= |u| && SpellsText(u[at..at + n], s)
    ensures StringAt(u, at) == Some((s, at + n))
  {
    var w := u[at..at + n];
    assert u[at + |s|] == w[|s|];
    forall k | at <= k < at + |s|
      ensures u[k] != 0
    {
      assert u[k] == w[..|s|][k - at];
    }
    ZeroAfter(u, at, at + |s|);
    assert u[at..at + |s|] == w[..|s|];
  }

  lemma Widths()
    ensures Pow256(4) == 0x1_0000_0000 && Pow256(8) == 0x1_0000_0000_0000_0000
  {
    assert Pow256(3) == 0x100_0000;
    assert Pow256(4) == 0x1_0000_0000;
    assert Pow256(5) == 0x100 * 0x1_0000_0000;
    assert Pow256(6) == 0x1_0000 * 0x1_0000_0000;
    assert Pow256(7) == 0x100_0000 * 0x1_0000_0000;
  }

  lemma FourIsRead(u: bytes, base: nat, address: bytes, at: nat, tag: byte, a: Argument)
    requires tag in [105, 102, 99, 114, 109] && IsArgument(tag, a) && at + 4 <= |u| && u[at..at + 4] == Fixed(tag, a)
    ensures ArgumentAt(u, base, address, tag, at) == Accepted((a, at + 4))
  {
    hide FromBigEndian, BigEndian;
    Widths();
    var bits := if tag == 102 then a.number.bits else TwosComplement(a.integer, 0x1_0000_0000);
    BigEndianRoundTrip(bits, 4);
    assert OfBits(tag, bits) == a;
  }

  lemma EightIsRead(u: bytes, base: nat, address: bytes, at: nat, tag: byte, a: Argument)
    requires tag in [104, 116, 100] && IsArgument(tag, a) && at + 8 <= |u| && u[at..at + 8] == Fixed(tag, a)
    ensures ArgumentAt(u, base, address, tag, at) == Accepted((a, at + 8))
  {
    hide FromBigEndian, BigEndian;
    Widths();
    var bits :=
      if tag == 100 then a.number.bits
      else if tag == 116 then a.timeTag
      else TwosComplement(a.integer, 0x1_0000_0000_0000_0000);
    BigEndianRoundTrip(bits, 8);
    assert OfBits(tag, bits) == a;
  }

  lemma SliceOfSlice(u: bytes, at: nat, n: nat, i: nat, j: nat)
    requires at + n <= |u| && i <= j <= n
    ensures u[at..at + n][i..j] == u[at + i..at + j]
  {
    var whole := u[at..at + n];
    assert u[at..at + n] == u[at..][..n];
    assert whole[i..j] == u[at..][i..j];
    SliceOfSuffix(u, at, i, j);
  }

  lemma BlobIsRead(u: bytes, base: nat, address: bytes, at: nat, n: nat, a: Argument)
    requires at + n <= |u| && IsArgument(98, a) && SpellsBlob(u[at..at + n], a.blob)
    ensures ArgumentAt(u, base, address, 98, at) == Accepted((a, at + n))
  {
    hide FromBigEndian, BigEndian;
    Widths();
    BigEndianRoundTrip(|a.blob|, 4);
    var w, size: nat := u[at..at + n], |a.blob|;
    assert w[..4] == BigEndian(size, 4) && w[4..4 + size] == a.blob && 4 + size <= n < 8 + size && n % 4 == 0;
    assert u[at..at + 4] == w[..4];
    SliceOfSlice(u, at, n, 4, 4 + size);
    assert BlobPadded(size) == n - 4;
    assert ArgumentAt(u, base, address, 98, at) == Accepted((Blank(98).(blob := u[at + 4..at + 4 + size]), at + 4 + (n - 4)));
  }

  lemma ArgumentIsRead(u: bytes, base: nat, address: bytes, at: nat, n: nat, tag: byte, a: Argument)
    requires at + n <= |u| && SpellsArgument(u[at..at + n], tag, a)
    ensures ArgumentAt(u, base, address, tag, at) == Accepted((a, at + n))
  {
    hide FromBigEndian, BigEndian, StringAt, SpellsText, SpellsBlob;
    if tag in [105, 102, 99, 114, 109] {
      FourIsRead(u, base, address, at, tag, a);
    } else if tag in [104, 116, 100] {
      EightIsRead(u, base, address, at, tag, a);
    } else if tag == 98 {
      BlobIsRead(u, base, address, at, n, a);
    } else if tag == 115 || tag == 83 {
      TextIsRead(u, at, n, a.text);
    }
  }

  lemma {:induction false} ArgumentsAreRead(u: bytes, base: nat, address: bytes, at: nat, tags: bytes, arguments: seq<Argument>)
    requires at <= |u| && SpellsArguments(u[at..], tags, arguments)
    ensures ArgumentsAt(u, base, address, tags, at) == Accepted((arguments, |u|))
    decreases |tags|
  {
    hide ArgumentAt, SpellsArgument;
    var w := u[at..];
    if tags != [] {
      var n :| 0 <= n <= |w| && SpellsArgument(w[..n], tags[0], arguments[0])
                             && SpellsArguments(w[n..], tags[1..], arguments[1..]);
      assert w[..n] == u[at..at + n] && w[n..] == u[at + n..];
      ArgumentIsRead(u, base, address, at, n, tags[0], arguments[0]);
      ArgumentsAreRead(u, base, address, at + n, tags[1..], arguments[1..]);
      assert arguments == [arguments[0]] + arguments[1..];
    }
  }

  lemma MessageIsRead(w: bytes, base: nat, m: Message)
    requires SpellsMessage(w, m)
    ensures MessageIn(w, base) == Accepted(m)
  {
    hide StringAt, ArgumentsAt, SpellsText, SpellsArguments;
    var i, j :| 0 <= i <= j <= |w| && SpellsText(w[..i], m.address) && SpellsText(w[i..j], [44] + m.typeTags)
                                   && SpellsArguments(w[j..], m.typeTags, m.arguments);
    assert w[0..0 + i] == w[..i];
    TextIsRead(w, 0, i, m.address);
    assert w[i..i + (j - i)] == w[i..j];
    TextIsRead(w, i, j - i, [44] + m.typeTags);
    ArgumentsAreRead(w, base, m.address, j, m.typeTags, m.arguments);
    assert ([44] + m.typeTags)[1..] == m.typeTags;
  }

  lemma ArgumentAligns(w: bytes, tag: byte, a: Argument)
    requires SpellsArgument(w, tag, a)
    ensures |w| % 4 == 0
  {
    hide BigEndian;
  }

  lemma SumAligns(a: int, b: int)
    requires a % 4 == 0 && b % 4 == 0
    ensures (a + b) % 4 == 0
  {
  }

  lemma {:induction false} ArgumentsAlign(w: bytes, tags: bytes, arguments: seq<Argument>)
    requires SpellsArguments(w, tags, arguments)
    ensures |w| % 4 == 0
    decreases |tags|
  {
    hide SpellsArgument;
    if tags != [] {
      var n :| 0 <= n <= |w| && SpellsArgument(w[..n], tags[0], arguments[0])
                             && SpellsArguments(w[n..], tags[1..], arguments[1..]);
      ArgumentAligns(w[..n], tags[0], arguments[0]);
      ArgumentsAlign(w[n..], tags[1..], arguments[1..]);
      SumAligns(n, |w| - n);
    }
  }

  /** A message begins with its slash, so it is no bundle, and fills whole words. */
  lemma MessageAligns(w: bytes, m: Message)
    requires SpellsMessage(w, m)
    ensures |w| % 4 == 0 && |w| >= 8 && w[0] == 47
  {
    hide SpellsArguments;
    var i, j :| 0 <= i <= j <= |w| && SpellsText(w[..i], m.address) && SpellsText(w[i..j], [44] + m.typeTags)
                                   && SpellsArguments(w[j..], m.typeTags, m.arguments);
    ArgumentsAlign(w[j..], m.typeTags, m.arguments);
    SumAligns(i, j - i);
    SumAligns(j, |w| - j);
    assert w[0] == w[..i][..|m.address|][0];
  }

  lemma FirstSize(w: bytes, elements: seq<Element>) returns (n: nat)
    requires SpellsElements(w, elements) && elements != []
    ensures n < 0x8000_0000 && n + 4 <= |w| && w[..4] == BigEndian(n, 4)
    ensures Spells(w[4..4 + n], elements[0]) && SpellsElements(w[4 + n..], elements[1..])
  {
    hide Spells, BigEndian;
    n :| 0 <= n < 0x8000_0000 && n <= |w| - 4 && w[..4] == BigEndian(n, 4)
      && Spells(w[4..4 + n], elements[0]) && SpellsElements(w[4 + n..], elements[1..]);
  }

  lemma NothingIsNothing(w: bytes)
    requires SpellsElements(w, [])
    ensures w == []
  {
  }

  /** Every element fills whole words, at least two of them. */
  lemma {:induction false} ElementAligns(w: bytes, e: Element)
    requires Spells(w, e)
    ensures |w| % 4 == 0 && |w| >= 8
    decreases e, 0
  {
    hide SpellsElements, SpellsMessage;
    match e {
      case MessageElement(m) => MessageAligns(w, m);
      case BundleElement(_, elements) =>
        ElementsAlign(w[16..], elements);
        SumAligns(16, |w| - 16);
    }
  }

  lemma {:induction false} ElementsAlign(w: bytes, elements: seq<Element>)
    requires SpellsElements(w, elements)
    ensures |w| % 4 == 0
    decreases elements
  {
    hide SpellsElements, Spells, BigEndian;
    if elements == [] {
      NothingIsNothing(w);
    } else {
      var n := FirstSize(w, elements);
      ElementAligns(w[4..4 + n], elements[0]);
      ElementsAlign(w[4 + n..], elements[1..]);
      SumAligns(4 + n, |w| - 4 - n);
    }
  }

  /** An element within the nesting bound is read: its messages, depth first. */
  lemma {:induction false} ElementIsRead(w: bytes, e: Element, base: nat, depth: nat)
    requires Spells(w, e) && depth + Height(e) <= 8
    ensures ElementIn(w, base, depth) == Accepted(Leaves(e))
    decreases e, 0
  {
    ElementAligns(w, e);
    match e {
      case MessageElement(m) =>
        hide MessageIn, SpellsMessage;
        MessageIsRead(w, base, m);
        MessageAligns(w, m);
        assert |w| >= 8 ==> w[..8][0] == w[0];
      case BundleElement(_, elements) =>
        hide FromBigEndian, BigEndian, SpellsElements, ElementsFrom;
        ElementsAreRead(w, elements, base, depth, 16);
    }
  }

  lemma {:induction false} ElementsAreRead(u: bytes, elements: seq<Element>, base: nat, depth: nat, at: nat)
    requires at <= |u| && SpellsElements(u[at..], elements) && depth + Heights(elements) <= 8
    ensures ElementsFrom(u, base, depth, at) == Accepted(LeavesOf(elements))
    decreases elements
  {
    hide SpellsElements, ElementIn, Spells, Leaves, FromBigEndian, BigEndian, Height;
    var w := u[at..];
    if elements == [] {
      NothingIsNothing(w);
    } else {
      var n := FirstSize(w, elements);
      assert w[..4] == u[at..at + 4] && w[4..4 + n] == u[at + 4..at + 4 + n] && w[4 + n..] == u[at + 4 + n..];
      Widths();
      BigEndianRoundTrip(n, 4);
      ElementAligns(w[4..4 + n], elements[0]);
      ElementIsRead(w[4..4 + n], elements[0], base + at + 4, depth + 1);
      ElementsAreRead(u, elements[1..], base, depth, at + 4 + n);
    }
  }

  /** A datagram that spells a packet within the nesting bound decodes to that packet, flattened. */
  lemma SpelledIsRead(w: bytes, e: Element)
    requires Spells(w, e) && Height(e) <= 8
    ensures Decoded(w) == Accepted(PacketOf(e))
  {
    hide ElementIn, FromBigEndian, BigEndian, Leaves, SpellsMessage, SpellsElements;
    ElementIsRead(w, e, 0, 0);
    Widths();
    match e {
      case MessageElement(m) =>
        MessageAligns(w, m);
        assert w[..8][0] == w[0];
        assert Leaves(e) == [m] by { LeafOfMessage(m); }
      case BundleElement(timeTag, _) =>
        BigEndianRoundTrip(timeTag, 8);
    }
  }

  lemma LeafOfMessage(m: Message)
    ensures Leaves(MessageElement(m)) == [m]
  {
  }

  // ---- What is read is spelled ----

  lemma {:induction false} FieldIsBounded(s: bytes)
    ensures FromBigEndian(s) < Pow256(|s|)
  {
    FromBigEndianRoundTrip(s);
  }

  lemma TextIsSpelled(u: bytes, at: nat)
    requires at <= |u| && StringAt(u, at).Some?
    ensures at <= StringAt(u, at).value.1 <= |u| && SpellsText(u[at..StringAt(u, at).value.1], StringAt(u, at).value.0)
  {
    var end := ZeroFrom(u, at);
    var n := PaddedSize(end - at);
    var w := u[at..at + n];
    assert w[..end - at] == u[at..end];
    assert w[end - at] == u[end];
  }

  lemma FixedIsSpelled(u: bytes, base: nat, address: bytes, tag: byte, at: nat)
    requires at <= |u| && ArgumentAt(u, base, address, tag, at).Accepted?
    requires tag in [105, 102, 99, 114, 109, 104, 116, 100]
    ensures var (a, next) := ArgumentAt(u, base, address, tag, at).value; SpellsArgument(u[at..next], tag, a)
  {
    hide FromBigEndian, BigEndian, StringAt;
    Widths();
    var n := if tag in [104, 116, 100] then 8 else 4;
    FromBigEndianRoundTrip(u[at..at + n]);
  }

  lemma BlobIsSpelled(u: bytes, base: nat, address: bytes, at: nat)
    requires at <= |u| && ArgumentAt(u, base, address, 98, at).Accepted?
    ensures var (a, next) := ArgumentAt(u, base, address, 98, at).value; SpellsArgument(u[at..next], 98, a)
  {
    hide FromBigEndian, BigEndian, StringAt;
    Widths();
    FromBigEndianRoundTrip(u[at..at + 4]);
    var (a, next) := ArgumentAt(u, base, address, 98, at).value;
    var w := u[at..next];
    assert w[..4] == u[at..at + 4];
    assert w[4..4 + |a.blob|] == a.blob;
  }

  lemma ArgumentIsSpelled(u: bytes, base: nat, address: bytes, tag: byte, at: nat)
    requires at <= |u| && ArgumentAt(u, base, address, tag, at).Accepted?
    ensures var (a, next) := ArgumentAt(u, base, address, tag, at).value; SpellsArgument(u[at..next], tag, a)
  {
    hide FromBigEndian, BigEndian, StringAt, SpellsText, SpellsBlob;
    if tag in [105, 102, 99, 114, 109, 104, 116, 100] {
      FixedIsSpelled(u, base, address, tag, at);
    } else if tag == 98 {
      BlobIsSpelled(u, base, address, at);
    } else if tag == 115 || tag == 83 {
      TextIsSpelled(u, at);
      TextsAreText(u[at..StringAt(u, at).value.1], StringAt(u, at).value.0);
    }
  }

  lemma TextsAreText(w: bytes, s: bytes)
    requires SpellsText(w, s)
    ensures IsText(s)
  {
  }

  lemma {:induction false} ArgumentsAreSpelled(u: bytes, base: nat, address: bytes, tags: bytes, at: nat)
    requires at <= |u| && ArgumentsAt(u, base, address, tags, at).Accepted?
    ensures var (arguments, end) := ArgumentsAt(u, base, address, tags, at).value;
            SpellsArguments(u[at..end], tags, arguments)
    decreases |tags|
  {
    hide ArgumentAt, SpellsArgument;
    if tags != [] {
      var (a, next) := ArgumentAt(u, base, address, tags[0], at).value;
      var (arguments, end) := ArgumentsAt(u, base, address, tags, at).value;
      ArgumentIsSpelled(u, base, address, tags[0], at);
      ArgumentsAreSpelled(u, base, address, tags[1..], next);
      var w, n := u[at..end], next - at;
      assert w[..n] == u[at..next] && w[n..] == u[next..end];
      assert arguments[1..] == ArgumentsAt(u, base, address, tags[1..], next).value.0;
    }
  }

  lemma MessageIsSpelled(u: bytes, base: nat)
    requires u != [] && u[0] == 47 && MessageIn(u, base).Accepted?
    ensures SpellsMessage(u, MessageIn(u, base).value)
  {
    hide ArgumentsAt, StringAt, SpellsArguments;
    var m := MessageIn(u, base).value;
    var (address, i) := StringAt(u, 0).value;
    TextIsSpelled(u, 0);
    var (tags, j) := StringAt(u, i).value;
    TextIsSpelled(u, i);
    assert u[0..i] == u[..i];
    assert u[..i][..|address|] == address && u[..i][|address|] == 0;
    assert tags == [44] + tags[1..];
    ArgumentsAreSpelled(u, base, address, tags[1..], j);
    assert u[j..|u|] == u[j..];
    assert SpellsText(u[..i], m.address) && SpellsText(u[i..j], [44] + m.typeTags) && SpellsArguments(u[j..], m.typeTags, m.arguments);
  }

  /** An element that is read spells some tree of bundles, within the nesting bound, with the messages read. */
  lemma {:induction false} ElementIsSpelled(u: bytes, base: nat, depth: nat) returns (e: Element)
    requires ElementIn(u, base, depth).Accepted?
    ensures Spells(u, e) && depth + Height(e) <= 8 && ElementIn(u, base, depth) == Accepted(Leaves(e))
    decreases |u|, 1, 0
  {
    hide MessageIn, SpellsMessage, FromBigEndian, BigEndian;
    if IsBundle(u) {
      var elements := ElementsAreSpelled(u, base, depth, 16);
      var timeTag := FromBigEndian(u[8..16]);
      Widths();
      FromBigEndianRoundTrip(u[8..16]);
      e := BundleElement(timeTag, elements);
    } else {
      MessageIsSpelled(u, base);
      e := MessageElement(MessageIn(u, base).value);
      LeafOfMessage(e.message);
    }
  }

  lemma NothingIsNone(u: bytes, base: nat, depth: nat)
    ensures ElementsFrom(u, base, depth, |u|) == Accepted([]) && SpellsElements(u[|u|..], [])
  {
  }

  /** The size field of the next element, and how the rest is read. */
  lemma FirstIsRead(u: bytes, base: nat, depth: nat, at: nat) returns (n: nat)
    requires at < |u| && ElementsFrom(u, base, depth, at).Accepted?
    ensures 0 < n < 0x8000_0000 && at + 4 + n <= |u| && u[at..at + 4] == BigEndian(n, 4)
    ensures ElementIn(u[at + 4..at + 4 + n], base + at + 4, depth + 1).Accepted?
    ensures ElementsFrom(u, base, depth, at + 4 + n).Accepted?
    ensures ElementsFrom(u, base, depth, at).value
         == ElementIn(u[at + 4..at + 4 + n], base + at + 4, depth + 1).value + ElementsFrom(u, base, depth, at + 4 + n).value
  {
    hide ElementIn, FromBigEndian, BigEndian;
    Widths();
    FromBigEndianRoundTrip(u[at..at + 4]);
    n := Signed(FromBigEndian(u[at..at + 4]), TWO_31);
  }

  lemma ElementsJoin(w: bytes, n: nat, first: Element, rest: seq<Element>)
    requires n < 0x8000_0000 && 4 + n <= |w| && w[..4] == BigEndian(n, 4)
    requires Spells(w[4..4 + n], first) && SpellsElements(w[4 + n..], rest)
    ensures SpellsElements(w, [first] + rest) && LeavesOf([first] + rest) == Leaves(first) + LeavesOf(rest)
  {
    hide Spells, BigEndian, Leaves;
    var elements := [first] + rest;
    assert elements[0] == first && elements[1..] == rest;
  }

  lemma HeightsJoin(first: Element, rest: seq<Element>)
    ensures Heights([first] + rest) == if 1 + Height(first) < Heights(rest) then Heights(rest) else 1 + Height(first)
  {
    hide Height;
    assert ([first] + rest)[1..] == rest;
  }

  lemma {:induction false} ElementsAreSpelled(u: bytes, base: nat, depth: nat, at: nat) returns (elements: seq<Element>)
    requires at <= |u| && depth <= 8 && ElementsFrom(u, base, depth, at).Accepted?
    ensures SpellsElements(u[at..], elements) && depth + Heights(elements) <= 8
    ensures ElementsFrom(u, base, depth, at) == Accepted(LeavesOf(elements))
    decreases |u|, 0, |u| - at
  {
    hide ElementIn, FromBigEndian, BigEndian, Spells, Leaves, Height, SpellsElements, ElementsFrom;
    if at == |u| {
      elements := [];
      NothingIsNone(u, base, depth);
    } else {
      var n := FirstIsRead(u, base, depth, at);
      var start := at + 4;
      var first := ElementIsSpelled(u[start..start + n], base + start, depth + 1);
      var rest := ElementsAreSpelled(u, base, depth, start + n);
      elements := [first] + rest;
      var w := u[at..];
      assert w[..4] == u[at..at + 4] && w[4..4 + n] == u[start..start + n] && w[4 + n..] == u[start + n..];
      ElementsJoin(w, n, first, rest);
      assert depth + Heights(elements) <= 8 by { HeightsJoin(first, rest); }
    }
  }

  /** A datagram is accepted only where it spells a packet within the nesting bound, and as that packet. */
  lemma ReadIsSpelled(w: bytes) returns (e: Element)
    requires Decoded(w).Accepted?
    ensures Spells(w, e) && Height(e) <= 8 && Decoded(w) == Accepted(PacketOf(e))
  {
    hide ElementIn, Spells, Leaves, Height;
    e := ElementIsSpelled(w, 0, 0);
    SpelledIsRead(w, e);
  }

  /** The language of the decoder outright: a datagram is read as a packet exactly when it spells it. */
  lemma ReadIffSpelled(w: bytes, p: Packet)
    ensures Decoded(w) == Accepted(p) <==> exists e :: Spells(w, e) && Height(e) <= 8 && PacketOf(e) == p
  {
    hide Decoded, Spells, Height, PacketOf;
    if Decoded(w) == Accepted(p) {
      var e := ReadIsSpelled(w);
    } else if e :| Spells(w, e) && Height(e) <= 8 && PacketOf(e) == p {
      SpelledIsRead(w, e);
    }
  }

  // ---- Every packet can be spelled ----

  predicate AreArguments(tags: bytes, arguments: seq<Argument>) {
    |tags| == |arguments| && forall i :: 0 <= i < |tags| ==> IsArgument(tags[i], arguments[i])
  }

  predicate IsMessage(m: Message) {
    && m.address != [] && m.address[0] == 47 && IsText(m.address)
    && AreArguments(m.typeTags, m.arguments)
  }

  function Zeros(n: nat): (z: bytes)
    ensures |z| == n && forall k :: 0 <= k < n ==> z[k] == 0
  {
    seq(n, _ => 0)
  }

  function EncodeText(s: bytes): bytes {
    s + Zeros(4 - |s| % 4)
  }

  function EncodeBlob(blob: bytes): bytes {
    BigEndian(|blob|, 4) + blob + Zeros(3 - (|blob| + 3) % 4)
  }

  function EncodeArgument(tag: byte, a: Argument): bytes
    requires IsArgument(tag, a)
  {
    if tag == 115 || tag == 83 then EncodeText(a.text)
    else if tag == 98 then EncodeBlob(a.blob)
    else Fixed(tag, a)
  }

  function EncodeArguments(tags: bytes, arguments: seq<Argument>): bytes
    requires AreArguments(tags, arguments)
  {
    if tags == [] then [] else EncodeArgument(tags[0], arguments[0]) + EncodeArguments(tags[1..], arguments[1..])
  }

  function EncodeMessage(m: Message): bytes
    requires IsMessage(m)
  {
    EncodeText(m.address) + EncodeText([44] + m.typeTags) + EncodeArguments(m.typeTags, m.arguments)
  }

  /** A packet whose messages are well formed and whose inner elements fit their size fields. */
  predicate IsElement(e: Element)
    decreases e, 0
  {
    match e
    case MessageElement(message) => IsMessage(message)
    case BundleElement(timeTag, elements) => timeTag < 0x1_0000_0000_0000_0000 && AreElements(elements)
  }

  predicate AreElements(elements: seq<Element>)
    decreases elements, 0
  {
    elements != [] ==> IsElement(elements[0]) && |Encode(elements[0])| < 0x8000_0000 && AreElements(elements[1..])
  }

  function Encode(e: Element): bytes
    requires IsElement(e)
    decreases e, 1
  {
    match e
    case MessageElement(message) => EncodeMessage(message)
    case BundleElement(timeTag, elements) =>
      [35, 98, 117, 110, 100, 108, 101, 0] + BigEndian(timeTag, 8) + EncodeElements(elements)
  }

  /** Each element after its size. */
  function EncodeElements(elements: seq<Element>): bytes
    requires AreElements(elements)
    decreases elements, 1
  {
    if elements == [] then []
    else BigEndian(|Encode(elements[0])|, 4) + Encode(elements[0]) + EncodeElements(elements[1..])
  }

  lemma TextIsEncoded(s: bytes)
    requires IsText(s)
    ensures SpellsText(EncodeText(s), s)
  {
  }

  lemma BlobIsEncoded(blob: bytes)
    requires |blob| < 0x8000_0000
    ensures SpellsBlob(EncodeBlob(blob), blob)
  {
    hide BigEndian;
    var w := EncodeBlob(blob);
    assert w[..4] == BigEndian(|blob|, 4) && w[4..4 + |blob|] == blob;
  }

  lemma ArgumentIsEncoded(tag: byte, a: Argument)
    requires IsArgument(tag, a)
    ensures SpellsArgument(EncodeArgument(tag, a), tag, a)
  {
    hide EncodeText, EncodeBlob, SpellsText, SpellsBlob;
    if tag == 115 || tag == 83 {
      TextIsEncoded(a.text);
    } else if tag == 98 {
      BlobIsEncoded(a.blob);
    }
  }

  lemma {:induction false} ArgumentsAreEncoded(tags: bytes, arguments: seq<Argument>)
    requires AreArguments(tags, arguments)
    ensures SpellsArguments(EncodeArguments(tags, arguments), tags, arguments)
  {
    hide EncodeArgument, SpellsArgument, IsArgument;
    if tags != [] {
      ArgumentIsEncoded(tags[0], arguments[0]);
      ArgumentsAreEncoded(tags[1..], arguments[1..]);
      var w, n := EncodeArguments(tags, arguments), |EncodeArgument(tags[0], arguments[0])|;
      assert w[..n] == EncodeArgument(tags[0], arguments[0]) && w[n..] == EncodeArguments(tags[1..], arguments[1..]);
    }
  }

  lemma TagIsText(tag: byte, a: Argument)
    requires IsArgument(tag, a)
    ensures tag != 0
  {
  }

  lemma MessageIsEncoded(m: Message)
    requires IsMessage(m)
    ensures SpellsMessage(EncodeMessage(m), m)
  {
    hide EncodeText, EncodeArguments, SpellsText, SpellsArguments, IsArgument;
    forall k | 0 <= k < |m.typeTags|
      ensures m.typeTags[k] != 0
    {
      TagIsText(m.typeTags[k], m.arguments[k]);
    }
    TextIsEncoded(m.address);
    TextIsEncoded([44] + m.typeTags);
    ArgumentsAreEncoded(m.typeTags, m.arguments);
    var w, i := EncodeMessage(m), |EncodeText(m.address)|;
    var j := i + |EncodeText([44] + m.typeTags)|;
    assert w[..i] == EncodeText(m.address) && w[i..j] == EncodeText([44] + m.typeTags);
    assert w[j..] == EncodeArguments(m.typeTags, m.arguments);
  }

  /** The encoding of a packet spells it. */
  lemma {:induction false} EncodeSpells(e: Element)
    requires IsElement(e)
    ensures Spells(Encode(e), e)
    decreases e, 0
  {
    hide EncodeMessage, IsMessage, SpellsMessage, EncodeElements, SpellsElements, BigEndian;
    match e {
      case MessageElement(m) => MessageIsEncoded(m);
      case BundleElement(timeTag, elements) =>
        ElementsAreEncoded(elements);
        var w := Encode(e);
        assert w[..8] == [35, 98, 117, 110, 100, 108, 101, 0] && w[8..16] == BigEndian(timeTag, 8);
        assert w[16..] == EncodeElements(elements);
    }
  }

  lemma {:induction false} ElementsAreEncoded(elements: seq<Element>)
    requires AreElements(elements)
    ensures SpellsElements(EncodeElements(elements), elements)
    decreases elements
  {
    hide IsElement, Encode, Spells, BigEndian;
    if elements != [] {
      EncodeSpells(elements[0]);
      ElementsAreEncoded(elements[1..]);
      var w, n := EncodeElements(elements), |Encode(elements[0])|;
      assert w[..4] == BigEndian(n, 4) && w[4..4 + n] == Encode(elements[0]) && w[4 + n..] == EncodeElements(elements[1..]);
    }
  }

  /** A datagram that encodes a packet within the nesting bound decodes to that packet, flattened. */
  lemma PacketIsReadBack(e: Element)
    requires IsElement(e) && Height(e) <= 8
    ensures Decoded(Encode(e)) == Accepted(PacketOf(e))
  {
    hide IsElement, Encode, Spells, Height, PacketOf, Decoded;
    EncodeSpells(e);
    SpelledIsRead(Encode(e), e);
  }

  lemma {:induction false} SpelledAreArguments(w: bytes, tags: bytes, arguments: seq<Argument>)
    requires SpellsArguments(w, tags, arguments)
    ensures AreArguments(tags, arguments)
    decreases |tags|
  {
    hide IsArgument;
    if tags != [] {
      var n :| 0 <= n <= |w| && SpellsArgument(w[..n], tags[0], arguments[0])
                             && SpellsArguments(w[n..], tags[1..], arguments[1..]);
      SpelledAreArguments(w[n..], tags[1..], arguments[1..]);
      forall i | 0 <= i < |tags|
        ensures IsArgument(tags[i], arguments[i])
      {
        if i > 0 {
          assert tags[i] == tags[1..][i - 1] && arguments[i] == arguments[1..][i - 1];
        }
      }
    }
  }

  lemma {:induction false} SpelledLeaves(w: bytes, e: Element)
    requires Spells(w, e)
    ensures forall m :: m in Leaves(e) ==> IsMessage(m)
    decreases e, 0
  {
    hide SpellsElements;
    match e {
      case MessageElement(m) =>
        hide SpellsArguments;
        var i, j :| 0 <= i <= j <= |w| && SpellsText(w[..i], m.address) && SpellsText(w[i..j], [44] + m.typeTags)
                                       && SpellsArguments(w[j..], m.typeTags, m.arguments);
        SpelledAreArguments(w[j..], m.typeTags, m.arguments);
      case BundleElement(_, elements) =>
        hide IsMessage;
        SpelledLeavesOf(w[16..], elements);
    }
  }

  lemma {:induction false} SpelledLeavesOf(w: bytes, elements: seq<Element>)
    requires SpellsElements(w, elements)
    ensures forall m :: m in LeavesOf(elements) ==> IsMessage(m)
    decreases elements
  {
    hide SpellsElements, Spells, Leaves, IsMessage, BigEndian;
    if elements != [] {
      var n := FirstSize(w, elements);
      SpelledLeaves(w[4..4 + n], elements[0]);
      SpelledLeavesOf(w[4 + n..], elements[1..]);
    }
  }

  /** Every message decoded is well formed: one argument for each tag, each what its tag says. */
  lemma DecodedIsWellFormed(w: bytes)
    requires Decoded(w).Accepted?
    ensures forall m :: m in Decoded(w).value.messages ==> IsMessage(m)
  {
    hide Decoded, IsMessage, Spells, Height;
    var e := ReadIsSpelled(w);
    SpelledLeaves(w, e);
  }

  /** Decoding, encoding each message and decoding again changes nothing. */
  lemma ReencodedIsReadBack(w: bytes, m: Message)
    requires Decoded(w).Accepted? && m in Decoded(w).value.messages
    ensures IsMessage(m) && Decoded(EncodeMessage(m)) == Accepted(Packet([m], false, 1))
  {
    hide Decoded, IsMessage, EncodeMessage;
    DecodedIsWellFormed(w);
    PacketIsReadBack(MessageElement(m));
  }
}
