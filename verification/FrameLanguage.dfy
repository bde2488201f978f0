/**
 The frames of section 5.2 of RFC 6455, bit by bit, and the reader's verdict on any bytes in terms of them:
 what is accepted, what is refused and why, and what is waited for.
 */
module FrameLanguage {
  import opened Bytes
  import opened Frames

  // ---- Bits ----

  /** The binary digit of `x` that counts for two to the `k`. */
  ghost predicate Bit(x: nat, k: nat) {
    if k == 0 then x % 2 == 1 else Bit(x / 2, k - 1)
  }

  lemma {:induction false} XorBitAt(a: nat, b: nat, bits: nat, k: nat)
    requires k < bits
    ensures Bit(XorBits(a, b, bits), k) <==> Bit(a, k) != Bit(b, k)
  {
    if k > 0 {
      XorBitAt(a / 2, b / 2, bits - 1, k - 1);
    }
  }

  /** Masking is exclusive or, bit by bit. */
  lemma XorIsBitwise(a: byte, b: byte, k: nat)
    requires k < 8
    ensures Bit(Xor(a, b), k) <==> Bit(a, k) != Bit(b, k)
  {
    XorBitAt(a, b, 8, k);
  }

  lemma {:induction false} BitsDetermine(a: nat, b: nat, bits: nat)
    requires a < Pow2(bits) && b < Pow2(bits)
    requires forall k :: 0 <= k < bits ==> (Bit(a, k) <==> Bit(b, k))
    ensures a == b
  {
    if bits > 0 {
      assert Bit(a, 0) <==> Bit(b, 0);
      forall k | 0 <= k < bits - 1
        ensures Bit(a / 2, k) <==> Bit(b / 2, k)
      {
        assert Bit(a, k + 1) <==> Bit(b, k + 1);
      }
      BitsDetermine(a / 2, b / 2, bits - 1);
    }
  }

  // ---- Frames on the wire ----

  /** The number two bytes hold, the more significant first. */
  ghost function Two(s: bytes): nat
    requires |s| == 2
  {
    (s[0] as int) * 256 + s[1] as int
  }

  /** The number eight bytes hold, most significant first. */
  ghost function Eight(s: bytes): nat
    requires |s| == 8
  {
    Two(s[..2]) * 0x1_0000_0000_0000 + Two(s[2..4]) * 0x1_0000_0000 + Two(s[4..6]) * 0x1_0000 + Two(s[6..])
  }

  /** The bytes before the mask: two, and the longer lengths' two or eight. */
  ghost function LengthEnd(n: nat): nat {
    if n <= 125 then 2 else if n <= 65535 then 4 else 10
  }

  ghost function BodyStart(f: Frame): nat {
    LengthEnd(|f.payload|) + if f.mask.Some? then 4 else 0
  }

  /** The first two bytes: the final bit and the opcode, the mask bit and the shortest of the three lengths. */
  ghost predicate SpellsHead(w: bytes, f: Frame) {
    && |w| >= 2
    && (w[0] >= 128 <==> f.fin)
    && w[0] % 128 == (match f.opcode
                      case Continuation => 0x0
                      case Text => 0x1
                      case Binary => 0x2
                      case Close => 0x8
                      case Ping => 0x9
                      case Pong => 0xA)
    && (w[1] >= 128 <==> f.mask.Some?)
    && w[1] % 128 == if |f.payload| <= 125 then |f.payload| else if |f.payload| <= 65535 then 126 else 127
  }

  /** The bytes `w` are the frame `f`. */
  ghost predicate Spells(w: bytes, f: Frame) {
    var n, at, body := |f.payload|, LengthEnd(|f.payload|), BodyStart(f);
    && SpellsHead(w, f)
    && |w| == body + n
    && (125 < n <= 65535 ==> Two(w[2..4]) == n)
    && (65535 < n ==> Eight(w[2..10]) == n)
    && (f.mask.Some? ==> w[at..body] == f.mask.value)
    && SpellsPayload(w[body..], f)
  }

  /** The payload as it is, or masked. */
  ghost predicate SpellsPayload(s: bytes, f: Frame) {
    |s| == |f.payload| && forall i :: 0 <= i < |s| ==> SpellsByte(s[i], f, i)
  }

  ghost predicate SpellsByte(b: byte, f: Frame, i: nat)
    requires i < |f.payload|
  {
    if f.mask.None? then b == f.payload[i]
    else forall k :: 0 <= k < 8 ==> (Bit(b, k) <==> Bit(f.payload[i], k) != Bit(f.mask.value[i % 4], k))
  }

  lemma TwoIsBigEndian(s: bytes, more: bytes)
    requires |more| == 2
    ensures FromBigEndian(s + more) == FromBigEndian(s) * 0x1_0000 + Two(more)
  {
    var last := s + more;
    assert last[..|last| - 1] == s + [more[0]];
    assert (s + [more[0]])[..|s|] == s;
  }

  lemma EightIsBigEndian(s: bytes)
    requires |s| == 8
    ensures FromBigEndian(s) == Eight(s)
  {
    hide FromBigEndian, Two;
    TwoIsBigEndian(s[..6], s[6..]);
    TwoIsBigEndian(s[..4], s[4..6]);
    TwoIsBigEndian(s[..2], s[2..4]);
    TwoIsBigEndian([], s[..2]);
    NothingIsZero();
    assert s[..6] + s[6..] == s && s[..4] + s[4..6] == s[..6] && s[..2] + s[2..4] == s[..4] && [] + s[..2] == s[..2];
  }

  lemma NothingIsZero()
    ensures FromBigEndian([]) == 0
  {
  }

  lemma LengthIsSpelled(n: nat, bit: nat)
    requires n < 0x8000_0000_0000_0000 && (bit == 0 || bit == 128)
    ensures var field := LengthField(n, bit);
            && |field| == LengthEnd(n) - 1 && (field[0] >= 128 <==> bit == 128)
            && field[0] % 128 == (if n <= 125 then n else if n <= 65535 then 126 else 127)
            && (125 < n <= 65535 ==> Two(field[1..3]) == n)
            && (65535 < n ==> Eight(field[1..9]) == n)
  {
    hide Two, Eight, BigEndian;
    var field := LengthField(n, bit);
    if 125 < n <= 65535 {
      TwoSpells(n);
      assert field[1..3] == BigEndian(n, 2);
    } else if 65535 < n {
      EightSpells(n);
      assert field[1..9] == BigEndian(n, 8);
    }
  }

  lemma TwoSpells(n: nat)
    requires n <= 65535
    ensures Two(BigEndian(n, 2)) == n
  {
    hide Two, BigEndian;
    assert Pow256(2) == 0x1_0000;
    BigEndianRoundTrip(n, 2);
    TwoIsBigEndian([], BigEndian(n, 2));
    NothingIsZero();
    assert [] + BigEndian(n, 2) == BigEndian(n, 2);
  }

  lemma EightSpells(n: nat)
    requires n < 0x8000_0000_0000_0000
    ensures Eight(BigEndian(n, 8)) == n
  {
    hide Two, BigEndian;
    assert Pow256(4) == 0x1_0000_0000;
    assert Pow256(6) == 0x1_0000_0000_0000;
    assert Pow256(8) == 0x1_0000_0000_0000_0000;
    BigEndianRoundTrip(n, 8);
    EightIsBigEndian(BigEndian(n, 8));
  }

  // ---- The printer spells, and nothing else does ----

  /** The bytes of a frame from its parts. */
  lemma EncodeParts(f: Frame)
    requires Printable(f)
    ensures var w, n := Encode(f), |f.payload|;
            var field := LengthField(n, if f.mask.Some? then 128 else 0);
            && |w| == BodyStart(f) + n && w[0] == (if f.fin then 128 else 0) + OpcodeValue(f.opcode)
            && w[1..LengthEnd(n)] == field
            && (f.mask.Some? ==> w[LengthEnd(n)..BodyStart(f)] == f.mask.value)
            && w[BodyStart(f)..] == if f.mask.Some? then Masked(f.payload, f.mask.value) else f.payload
  {
    hide Masked, OpcodeValue, LengthField;
    LengthIsSpelled(|f.payload|, if f.mask.Some? then 128 else 0);
  }

  lemma EncodeSpellsHead(f: Frame)
    requires Printable(f)
    ensures SpellsHead(Encode(f), f)
  {
    hide Encode, LengthField;
    EncodeParts(f);
    LengthIsSpelled(|f.payload|, if f.mask.Some? then 128 else 0);
    assert Encode(f)[1] == Encode(f)[1..LengthEnd(|f.payload|)][0];
  }

  lemma EncodeSpellsPayload(f: Frame)
    requires Printable(f)
    ensures |Encode(f)| == BodyStart(f) + |f.payload| && SpellsPayload(Encode(f)[BodyStart(f)..], f)
  {
    hide Encode, LengthField, Bit;
    EncodeParts(f);
    var body := Encode(f)[BodyStart(f)..];
    forall i | 0 <= i < |body|
      ensures SpellsByte(body[i], f, i)
    {
      if f.mask.Some? {
        forall k | 0 <= k < 8
          ensures Bit(body[i], k) <==> Bit(f.payload[i], k) != Bit(f.mask.value[i % 4], k)
        {
          XorIsBitwise(f.payload[i], f.mask.value[i % 4], k);
        }
      }
    }
  }

  /** What is printed is the frame, bit by bit. */
  lemma EncodeSpells(f: Frame)
    requires Printable(f)
    ensures Spells(Encode(f), f)
  {
    hide Encode, LengthField, SpellsPayload, SpellsHead, Two, Eight;
    var w, n := Encode(f), |f.payload|;
    EncodeParts(f);
    EncodeSpellsHead(f);
    LengthIsSpelled(n, if f.mask.Some? then 128 else 0);
    var field := w[1..LengthEnd(n)];
    if 125 < n <= 65535 {
      assert w[2..4] == field[1..3];
    } else if 65535 < n {
      assert w[2..10] == field[1..9];
    }
    EncodeSpellsPayload(f);
  }

  lemma SpellsByteOnce(a: byte, b: byte, f: Frame, i: nat)
    requires i < |f.payload| && SpellsByte(a, f, i) && SpellsByte(b, f, i)
    ensures a == b
  {
    if f.mask.Some? {
      assert Pow2(8) == 256;
      hide Bit;
      forall k | 0 <= k < 8
        ensures Bit(a, k) <==> Bit(b, k)
      {
      }
      BitsDetermine(a, b, 8);
    }
  }

  lemma TwoOnce(s: bytes, t: bytes)
    requires |s| == |t| == 2 && Two(s) == Two(t)
    ensures s == t
  {
  }

  lemma EightOnce(s: bytes, t: bytes)
    requires |s| == |t| == 8 && Eight(s) == Eight(t)
    ensures s == t
  {
    hide Two;
    EightIsBigEndian(s);
    EightIsBigEndian(t);
    FromBigEndianRoundTrip(s);
    FromBigEndianRoundTrip(t);
  }

  lemma HeadOnce(w: bytes, v: bytes, f: Frame)
    requires SpellsHead(w, f) && SpellsHead(v, f)
    ensures w[0] == v[0] && w[1] == v[1]
  {
  }

  lemma LengthOnce(w: bytes, v: bytes, f: Frame)
    requires Spells(w, f) && Spells(v, f)
    ensures w[2..LengthEnd(|f.payload|)] == v[2..LengthEnd(|f.payload|)]
  {
    hide Two, Eight, SpellsHead, SpellsByte;
    var n := |f.payload|;
    if 125 < n <= 65535 {
      TwoOnce(w[2..4], v[2..4]);
    } else if 65535 < n {
      EightOnce(w[2..10], v[2..10]);
    }
  }

  /** A frame has one spelling. */
  lemma SpellingIsUnique(w: bytes, v: bytes, f: Frame)
    requires Spells(w, f) && Spells(v, f)
    ensures w == v
  {
    hide Two, Eight, SpellsHead, SpellsByte;
    var at, body := LengthEnd(|f.payload|), BodyStart(f);
    assert |w| == |v| by { assert SpellsHead(w, f); }
    HeadOnce(w, v, f);
    LengthOnce(w, v, f);
    forall i | 0 <= i < |f.payload|
      ensures w[body..][i] == v[body..][i]
    {
      SpellsByteOnce(w[body..][i], v[body..][i], f, i);
    }
    Pieces(w, at, body);
    Pieces(v, at, body);
    assert w[body..] == v[body..];
  }

  lemma Pieces(w: bytes, at: nat, body: nat)
    requires 2 <= at <= body <= |w|
    ensures w == [w[0], w[1]] + w[2..at] + w[at..body] + w[body..]
  {
  }

  // ---- The reader's verdict ----

  /** A frame that the other side may send at all: rightly masked, with the limits of section 5.5 on control frames. */
  ghost predicate IsSendable(masked: bool, f: Frame) {
    && f.mask.Some? == masked && |f.payload| < 0x8000_0000_0000_0000
    && (f.opcode.Close? || f.opcode.Ping? || f.opcode.Pong? ==> f.fin && |f.payload| <= 125)
  }

  /** How much of the bound a message under way leaves, in 64-bit arithmetic. */
  ghost function Room(c: Context): int {
    if !c.inMessage then c.maxMessageBytes
    else if c.held <= c.maxMessageBytes then c.maxMessageBytes - c.held
    else c.maxMessageBytes - c.held + 0x1_0000_0000_0000_0000
  }

  /** A data frame where it belongs: a continuation inside a message, another outside it. */
  ghost predicate IsInPlace(c: Context, f: Frame) {
    f.opcode.Continuation? <==> c.inMessage
  }

  /** A frame the reader takes: a control frame, or text where it belongs and within the bound. */
  ghost predicate IsTaken(c: Context, f: Frame) {
    && IsSendable(c.expectMasked, f)
    && (!(f.opcode.Close? || f.opcode.Ping? || f.opcode.Pong?) ==>
          IsInPlace(c, f) && !f.opcode.Binary? && |f.payload| <= Room(c))
  }

  /** Bytes that may go on to be this frame. */
  ghost predicate Begins(u: bytes, f: Frame) {
    exists more: bytes, n: nat :: n <= |u + more| && Spells((u + more)[..n], f)
  }

  lemma PrintableIsSendable(c: Context, f: Frame)
    ensures Printable(f) && f.mask.Some? == c.expectMasked <==> IsSendable(c.expectMasked, f)
    ensures IsSendable(c.expectMasked, f) ==>
              (IsTaken(c, f) <==> DataFault(c, f.opcode, |f.payload|) == None)
  {
  }

  lemma SpellsIsEncode(w: bytes, f: Frame)
    requires Printable(f)
    ensures Spells(w, f) <==> w == Encode(f)
  {
    hide Spells, Encode;
    EncodeSpells(f);
    if Spells(w, f) {
      SpellingIsUnique(w, Encode(f), f);
    }
  }

  /** The bytes at the front are a frame the reader takes exactly when it takes that frame from them. */
  lemma ParsedIffTaken(c: Context, u: bytes, f: Frame, n: nat)
    ensures Parse(c, u) == Parsed(f, n) <==> IsTaken(c, f) && n <= |u| && Spells(u[..n], f)
  {
    hide Parse, Encode, Spells, DataFault, IsTaken, IsSendable, Printable;
    PrintableIsSendable(c, f);
    if Parse(c, u) == Parsed(f, n) {
      EncodeOfParsed(c, u);
      SpellsIsEncode(u[..n], f);
    }
    if IsTaken(c, f) && n <= |u| && Spells(u[..n], f) {
      TakenIsSendable(c, f);
      SpellsIsEncode(u[..n], f);
      assert u == Encode(f) + u[n..];
      ParseOfEncoded(c, f, u[n..]);
    }
  }

  lemma TakenIsSendable(c: Context, f: Frame)
    requires IsTaken(c, f)
    ensures IsSendable(c.expectMasked, f)
  {
  }

  /** How many bytes a header has, by its second. */
  ghost function HeaderEnd(b1: byte): nat {
    2 + (if b1 % 128 == 126 then 2 else if b1 % 128 == 127 then 8 else 0) + if b1 >= 128 then 4 else 0
  }

  /** What the reader makes of a sendable frame that these bytes may go on to be, unless it waits for more of them. */
  lemma BegunIsJudged(c: Context, u: bytes, f: Frame)
    requires IsSendable(c.expectMasked, f) && Begins(u, f)
    ensures Parse(c, u).Refuse? ==> DataFault(c, f.opcode, |f.payload|) == Some(Parse(c, u).fault)
    ensures Parse(c, u).Parsed? ==> Parse(c, u).frame == f && DataFault(c, f.opcode, |f.payload|) == None
  {
    hide Parse, Encode, Spells, DataFault, IsSendable, Printable;
    PrintableIsSendable(c, f);
    var more: bytes, n: nat :| n <= |u + more| && Spells((u + more)[..n], f);
    SpellsIsEncode((u + more)[..n], f);
    assert u + more == Encode(f) + (u + more)[n..];
    ParseOfEncoded(c, f, (u + more)[n..]);
    if !Parse(c, u).NeedMore? {
      ParseIsStable(c, u, more);
    }
  }

  /** A context that takes any data frame of this length. */
  ghost function Roomy(c: Context, op: Opcode, length: nat): Context {
    Context(c.expectMasked, length, op.Continuation?, 0)
  }

  lemma FrontStays(u: bytes, more: bytes, i: nat, n: nat)
    requires 2 <= i <= |u| && i <= n <= |u + more|
    ensures var w := (u + more)[..n]; |w| == n && w[0] == u[0] && w[1] == u[1] && w[2..i] == u[2..i]
  {
  }

  /** The four bytes before a masked payload. */
  function KeyAt(w: bytes, body: nat): (key: MaskKey)
    requires 4 <= body <= |w|
    ensures key == w[body - 4..body]
  {
    w[body - 4..body]
  }

  /** A header in order may go on to be a sendable frame of its opcode and length. */
  lemma HeaderBegins(c: Context, u: bytes) returns (f: Frame)
    requires |u| >= 2 && |u| >= HeaderBytes(u[1]) && HeadFault(c, u[0], u[1]).None?
    requires LengthAccepted(u[1], u[2..2 + ExtendedBytes(u[1])])
    ensures IsSendable(c.expectMasked, f) && Begins(u, f)
    ensures OpcodeOf(u[0] % 16) == Some(f.opcode) && |f.payload| == StatedLength(u[1], u[2..2 + ExtendedBytes(u[1])])
  {
    hide FromBigEndian, LengthAccepted, OpcodeOf, Masked, Spells;
    var field, header := u[2..2 + ExtendedBytes(u[1])], HeaderBytes(u[1]);
    var length, op := StatedLength(u[1], field), OpcodeOf(u[0] % 16).value;
    LengthFieldUnique(u[1], field);
    var more: bytes := seq(length, _ => 0);
    var w := (u + more)[..header + length];
    FrontStays(u, more, 2 + |field|, header + length);
    var key: MaskKey := [0, 0, 0, 0];
    if u[1] >= 128 {
      key := KeyAt(w, header);
    }
    f := if u[1] >= 128 then Frame(op, Masked(w[header..], key), u[0] >= 128, Some(key))
         else Frame(op, w[header..], u[0] >= 128, None);
    EncodeOfWhole(u[0], u[1], field, w, f);
    PrintableIsSendable(c, f);
    SpellsIsEncode(w, f);
  }

  /** The printer's bytes for the frame that a header in order and its payload make. */
  lemma EncodeOfWhole(b0: byte, b1: byte, field: bytes, w: bytes, f: Frame)
    requires b0 / 16 % 8 == 0 && OpcodeOf(b0 % 16).Some? && |field| == ExtendedBytes(b1) && LengthAccepted(b1, field)
    requires |w| == HeaderBytes(b1) + StatedLength(b1, field) && w[0] == b0 && w[1] == b1 && w[2..2 + |field|] == field
    requires var header := HeaderBytes(b1);
             f == if b1 >= 128 then Frame(OpcodeOf(b0 % 16).value, Masked(w[header..], w[header - 4..header]), b0 >= 128,
                                          Some(w[header - 4..header]))
                  else Frame(OpcodeOf(b0 % 16).value, w[header..], b0 >= 128, None)
    ensures Encode(f) == w
  {
    hide LengthAccepted, StatedLength, LengthField, Masked, OpcodeOf, OpcodeValue;
    var header, bit := HeaderBytes(b1), if b1 >= 128 then 128 else 0;
    LengthFieldUnique(b1, field);
    FirstByteUnique(b0);
    assert [b1] + field == LengthField(|f.payload|, bit);
    hide Encode;
    EncodeIsLaid(f, b0, [b1] + field);
    Assembled(w, 2 + |field|, header, |w|);
    assert w[..|w|] == w && w[header..|w|] == w[header..];
    if b1 >= 128 {
      MaskedTwice(w[header..], w[header - 4..header]);
    }
  }

  /** Bytes that hold a whole header, as far as its own second byte says. */
  ghost predicate HasHeader(u: bytes) {
    |u| >= 2 && |u| >= HeaderEnd(u[1])
  }

  /** What these bytes may go on to be, and whether the reader would take it. */
  ghost predicate MayBecomeTaken(c: Context, u: bytes) {
    exists f :: IsTaken(c, f) && Begins(u, f)
  }

  ghost predicate MayBecomeSendable(masked: bool, u: bytes) {
    exists f :: IsSendable(masked, f) && Begins(u, f)
  }

  lemma HeadersAgree(u: bytes)
    ensures |u| >= 2 ==> HeaderEnd(u[1]) == HeaderBytes(u[1])
  {
  }

  lemma BeginsEarlier(u: bytes, tail: bytes, f: Frame)
    requires Begins(u + tail, f)
    ensures Begins(u, f)
  {
    hide Spells;
    var more: bytes, n: nat :| n <= |u + tail + more| && Spells((u + tail + more)[..n], f);
    assert u + tail + more == u + (tail + more);
  }

  lemma FrontBegins(u: bytes, f: Frame, n: nat)
    requires n <= |u| && Spells(u[..n], f)
    ensures Begins(u, f)
  {
    hide Spells;
    assert u + [] == u;
  }

  /** Two bytes without a fault begin some frame of the other side. */
  lemma TwoBytesBegin(c: Context, u: bytes)
    requires |u| == 2 && HeadFault(c, u[0], u[1]).None?
    ensures MayBecomeSendable(c.expectMasked, u)
  {
    hide HeadFault, IsSendable, Begins;
    var field: bytes := if u[1] % 128 == 126 then [1, 0] else if u[1] % 128 == 127 then [0, 0, 0, 0, 0, 1, 0, 0] else [];
    var tail := field + if u[1] >= 128 then [0, 0, 0, 0] else [];
    assert (u + tail)[2..2 + |field|] == field;
    SmallestLengths();
    var f := HeaderBegins(c, u + tail);
    BeginsEarlier(u, tail, f);
  }

  lemma SmallestLengths()
    ensures FromBigEndian([1, 0]) == 256 && FromBigEndian([0, 0, 0, 0, 0, 1, 0, 0]) == 65536
  {
    hide FromBigEndian;
    NothingIsZero();
    TwoIsBigEndian([], [1, 0]);
    assert [] + [1, 0] == [1, 0];
    EightIsBigEndian([0, 0, 0, 0, 0, 1, 0, 0]);
  }

  /** A fault of the first two bytes is no frame's: a data frame's place and length could have suited another reader. */
  lemma EarlyIsHopeless(c: Context, u: bytes)
    requires |u| >= 2 && HeadFault(c, u[0], u[1]).Some?
    ensures !MayBecomeSendable(c.expectMasked, u[..2])
  {
    hide IsSendable, Begins;
    var v := u[..2];
    forall f | IsSendable(c.expectMasked, f) && Begins(v, f)
      ensures false
    {
      BegunIsJudged(Roomy(c, f.opcode, |f.payload|), v, f);
    }
  }

  /** A waiting or accepting reader whose header is there may yet take the frame. */
  lemma WaitingIsHopeful(c: Context, u: bytes)
    requires HasHeader(u) && !Parse(c, u).Refuse?
    ensures MayBecomeTaken(c, u)
  {
    hide IsTaken, IsSendable, Begins, Spells, HeadFault, LengthAccepted, DataFault;
    HeadersAgree(u);
    if Parse(c, u).Parsed? {
      var f, n := Parse(c, u).frame, Parse(c, u).size;
      ParsedIffTaken(c, u, f, n);
      FrontBegins(u, f, n);
    } else {
      var f := HeaderBegins(c, u);
      PrintableIsSendable(c, f);
    }
  }

  /**
   Once the header is there, the reader refuses exactly the bytes that can no longer go on to be a frame
   it takes; before, those whose first two bytes can be no frame of the other side at all.
   */
  lemma RefusedIffHopeless(c: Context, u: bytes)
    ensures HasHeader(u) ==> (Parse(c, u).Refuse? <==> !MayBecomeTaken(c, u))
    ensures !HasHeader(u) ==> (Parse(c, u).Refuse? <==> |u| >= 2 && !MayBecomeSendable(c.expectMasked, u[..2]))
    ensures |u| >= 2 && !MayBecomeSendable(c.expectMasked, u[..2]) ==> Parse(c, u) == Refuse(ProtocolViolation)
  {
    hide ParseBody, Begins, IsTaken, IsSendable, HeadFault, LengthAccepted;
    HeadersAgree(u);
    if HasHeader(u) {
      if Parse(c, u).Refuse? {
        forall f | IsTaken(c, f) && Begins(u, f)
          ensures false
        {
          TakenIsSendable(c, f);
          PrintableIsSendable(c, f);
          BegunIsJudged(c, u, f);
        }
      } else {
        WaitingIsHopeful(c, u);
      }
    }
    if |u| >= 2 {
      if HeadFault(c, u[0], u[1]).Some? {
        EarlyIsHopeless(c, u);
        HeadFaultIsProtocol(c, u[0], u[1]);
      } else {
        TwoBytesBegin(c, u[..2]);
      }
    }
  }

  lemma HeadFaultIsProtocol(c: Context, b0: byte, b1: byte)
    ensures HeadFault(c, b0, b1).Some? ==> HeadFault(c, b0, b1).value.ProtocolViolation?
  {
  }

  /** Bytes that may go on to be a data frame where one belongs, too long for the bound unless it fits. */
  ghost predicate MayBeText(c: Context, u: bytes) {
    exists f :: IsSendable(c.expectMasked, f) && Begins(u, f) && (f.opcode.Text? || f.opcode.Continuation?) && IsInPlace(c, f)
  }

  ghost predicate MayBeBinary(c: Context, u: bytes) {
    exists f :: IsSendable(c.expectMasked, f) && Begins(u, f) && f.opcode.Binary? && IsInPlace(c, f)
  }

  /** Why a frame is refused: a binary message, one past the bound, and for anything else the protocol. */
  lemma RefusedFor(c: Context, u: bytes)
    requires HasHeader(u) && Parse(c, u).Refuse?
    ensures Parse(c, u).fault ==
            if MayBeBinary(c, u) then UnsupportedMessage else if MayBeText(c, u) then MessageTooLarge else ProtocolViolation
  {
    hide Begins, IsSendable, HeadFault, LengthAccepted, Parse;
    forall f | IsSendable(c.expectMasked, f) && Begins(u, f)
      ensures DataFault(c, f.opcode, |f.payload|) == Some(Parse(c, u).fault)
    {
      BegunIsJudged(c, u, f);
    }
    if !Parse(c, u).fault.ProtocolViolation? {
      HeadersAgree(u);
      OtherFaultBegins(c, u);
      var f := HeaderBegins(c, u);
    }
  }

  lemma OtherFaultBegins(c: Context, u: bytes)
    requires HasHeader(u) && Parse(c, u).Refuse? && !Parse(c, u).fault.ProtocolViolation?
    ensures HeadFault(c, u[0], u[1]).None? && LengthAccepted(u[1], u[2..2 + ExtendedBytes(u[1])])
  {
    hide LengthAccepted, DataFault, FromBigEndian;
  }
}
