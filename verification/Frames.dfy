/**
 One RFC 6455 frame: the printer `AppendFrame` and the header-first parse at the heart of
 `FrameReader::Next` (Rfc6455.cpp), and the proof that each is the exact inverse of the other.
 */
module Frames {
  import opened Bytes

  const SIZE_T: nat := 0x1_0000_0000_0000_0000

  datatype Opcode = Continuation | Text | Binary | Close | Ping | Pong

  type MaskKey = k: bytes | |k| == 4 witness [0, 0, 0, 0]

  datatype Fault = ProtocolViolation | InvalidUtf8 | MessageTooLarge | UnsupportedMessage

  datatype Frame = Frame(opcode: Opcode, payload: bytes, fin: bool, mask: Option<MaskKey>)

  function OpcodeValue(op: Opcode): (r: nat)
    ensures r < 16
  {
    match op
    case Continuation => 0
    case Text => 1
    case Binary => 2
    case Close => 8
    case Ping => 9
    case Pong => 10
  }

  function OpcodeOf(value: nat): Option<Opcode> {
    if value == 0 then Some(Continuation)
    else if value == 1 then Some(Text)
    else if value == 2 then Some(Binary)
    else if value == 8 then Some(Close)
    else if value == 9 then Some(Ping)
    else if value == 10 then Some(Pong)
    else None
  }

  predicate IsControl(op: Opcode) {
    op.Close? || op.Ping? || op.Pong?
  }

  // ---- Masking ----

  function Masked(payload: bytes, key: MaskKey): (r: bytes)
    ensures |r| == |payload|
  {
    seq(|payload|, i requires 0 <= i < |payload| => Xor(payload[i], key[i % 4]))
  }

  lemma MaskedTwice(payload: bytes, key: MaskKey)
    ensures Masked(Masked(payload, key), key) == payload
  {
    forall i | 0 <= i < |payload|
      ensures Masked(Masked(payload, key), key)[i] == payload[i]
    {
      XorCancel(payload[i], key[i % 4]);
    }
  }

  // ---- The printer ----

  function LengthField(length: nat, maskBit: nat): (r: bytes)
    requires maskBit == 0 || maskBit == 128
    ensures r != []
  {
    if length < 126 then [maskBit + length]
    else if length <= 0xFFFF then [maskBit + 126] + BigEndian(length, 2)
    else [maskBit + 127] + BigEndian(length, 8)
  }

  function Encode(f: Frame): (r: bytes) {
    var first: byte := (if f.fin then 128 else 0) + OpcodeValue(f.opcode);
    [first] + LengthField(|f.payload|, if f.mask.Some? then 128 else 0)
    + match f.mask
      case None => f.payload
      case Some(key) => key + Masked(f.payload, key)
  }

  method AppendFrame(out: bytes, f: Frame) returns (r: bytes)
    ensures r == out + Encode(f)
  {
    r := out + [(if f.fin then 128 else 0) + OpcodeValue(f.opcode)];
    var field := WriteLength(|f.payload|, if f.mask.Some? then 128 else 0);
    r := r + field;
    if f.mask.None? {
      return r + f.payload;
    }
    r := r + f.mask.value;
    var body := MaskInPlace(r + f.payload, |r|, f.mask.value);
    assert (r + f.payload)[|r|..] == f.payload;
    assert body == r + Masked(f.payload, f.mask.value);
    r := body;
  }

  method WriteLength(length: nat, maskBit: nat) returns (r: bytes)
    requires maskBit == 0 || maskBit == 128
    ensures r == LengthField(length, maskBit)
  {
    if length < 126 {
      return [maskBit + length];
    }
    if length <= 0xFFFF {
      assert BigEndian(length / 256, 1) == [length / 256 % 256];
      return [maskBit + 126, length / 256 % 256, length % 256];
    }
    r := [];
    var rest := length;
    for i := 0 to 8
      invariant |r| == i && rest >= 0
      invariant BigEndian(length, 8) == BigEndian(rest, 8 - i) + r
    {
      assert BigEndian(rest, 8 - i) + r == BigEndian(rest / 256, 7 - i) + ([rest % 256] + r);
      r := [rest % 256] + r;
      rest := rest / 256;
    }
    r := [maskBit + 127] + r;
  }

  /** Masks the bytes from `start` on, one at a time, as the printer does to the copy it appended. */
  method MaskInPlace(buffer: bytes, start: nat, key: MaskKey) returns (r: bytes)
    requires start <= |buffer|
    ensures r == buffer[..start] + Masked(buffer[start..], key)
  {
    r := buffer;
    for i := 0 to |buffer| - start
      invariant |r| == |buffer| && r[..start] == buffer[..start]
      invariant forall k :: 0 <= k < i ==> r[start + k] == Masked(buffer[start..], key)[k]
      invariant forall k :: start + i <= k < |buffer| ==> r[k] == buffer[k]
    {
      r := r[start + i := Xor(r[start + i], key[i % 4])];
    }
    assert r == r[..start] + r[start..];
    assert r[start..] == Masked(buffer[start..], key);
  }

  // ---- The parse ----

  /** Subtraction of two `std::size_t` values: it wraps rather than going below zero. */
  function SizeSub(a: nat, b: nat): int {
    if b <= a then a - b else a - b + SIZE_T
  }

  datatype Verdict =
    | NeedMore
    | Refuse(fault: Fault)
    | Parsed(frame: Frame, size: nat)

  /** The frame a header is checked for: what the reader carries from earlier frames. */
  datatype Context = Context(expectMasked: bool, maxMessageBytes: nat, inMessage: bool, held: nat)

  /** The checks the first two bytes allow, in the reader's order. */
  function HeadFault(c: Context, b0: byte, b1: byte): Option<Fault> {
    var op := OpcodeOf(b0 % 16);
    if b0 / 16 % 8 != 0 then Some(ProtocolViolation)
    else if op.None? then Some(ProtocolViolation)
    else if IsControl(op.value) && b0 < 128 then Some(ProtocolViolation)
    else if IsControl(op.value) && b1 % 128 > 125 then Some(ProtocolViolation)
    else if (b1 >= 128) != c.expectMasked then Some(ProtocolViolation)
    else None
  }

  /** The bytes of extended length that the second byte announces. */
  function ExtendedBytes(b1: byte): (n: nat)
  {
    if b1 % 128 == 126 then 2 else if b1 % 128 == 127 then 8 else 0
  }

  function HeaderBytes(b1: byte): nat {
    2 + ExtendedBytes(b1) + if b1 >= 128 then 4 else 0
  }

  /** The payload length a header states, and whether it states it minimally with the top bit clear. */
  function StatedLength(b1: byte, field: bytes): nat {
    if ExtendedBytes(b1) == 0 then b1 % 128 else FromBigEndian(field)
  }

  predicate LengthAccepted(b1: byte, field: bytes) {
    if ExtendedBytes(b1) == 2 then FromBigEndian(field) >= 126
    else if ExtendedBytes(b1) == 8 then field != [] && field[0] < 128 && FromBigEndian(field) > 0xFFFF
    else true
  }

  /** The checks a data frame meets once its length is known, before its payload is read. */
  function DataFault(c: Context, op: Opcode, length: nat): Option<Fault> {
    if IsControl(op) then None
    else if op.Continuation? && !c.inMessage then Some(ProtocolViolation)
    else if !op.Continuation? && c.inMessage then Some(ProtocolViolation)
    else if op.Binary? then Some(UnsupportedMessage)
    else if length > SizeSub(c.maxMessageBytes, if c.inMessage then c.held else 0) then Some(MessageTooLarge)
    else None
  }

  /** What the reader concludes from the unread bytes `u`, in the order it concludes it. */
  function Parse(c: Context, u: bytes): (v: Verdict)
    ensures v.Parsed? ==> 2 <= v.size <= |u|
  {
    if |u| < 2 then NeedMore
    else if HeadFault(c, u[0], u[1]).Some? then Refuse(HeadFault(c, u[0], u[1]).value)
    else if |u| < HeaderBytes(u[1]) then NeedMore
    else ParseBody(c, u, u[2..2 + ExtendedBytes(u[1])])
  }

  /** The conclusion once the whole header has arrived; `field` is its extended length. */
  function ParseBody(c: Context, u: bytes, field: bytes): (v: Verdict)
    requires |u| >= 2 && |u| >= HeaderBytes(u[1]) && OpcodeOf(u[0] % 16).Some?
    ensures v.Parsed? ==> 2 <= v.size <= |u|
  {
    var header := HeaderBytes(u[1]);
    var length := StatedLength(u[1], field);
    var op := OpcodeOf(u[0] % 16).value;
    if !LengthAccepted(u[1], field) then Refuse(ProtocolViolation)
    else if DataFault(c, op, length).Some? then Refuse(DataFault(c, op, length).value)
    else if |u| - header < length then NeedMore
    else
      var body := u[header..header + length];
      if u[1] >= 128 then
        var key := u[header - 4..header];
        Parsed(Frame(op, Masked(body, key), u[0] >= 128, Some(key)), header + length)
      else
        Parsed(Frame(op, body, u[0] >= 128, None), header + length)
  }

  /** The frames a conforming endpoint may print: short unfragmented control frames, no top-bit length. */
  predicate Printable(f: Frame) {
    (IsControl(f.opcode) ==> f.fin && |f.payload| <= 125) && |f.payload| < 0x8000_0000_0000_0000
  }

  /** The length field of a printed frame states the payload's length, minimally. */
  lemma LengthFieldReads(n: nat, maskBit: nat)
    requires n < 0x8000_0000_0000_0000 && (maskBit == 0 || maskBit == 128)
    ensures var field := LengthField(n, maskBit);
            && |field| == 1 + ExtendedBytes(field[0]) && (field[0] >= 128 <==> maskBit == 128)
            && (n <= 125 <==> field[0] % 128 <= 125)
            && StatedLength(field[0], field[1..]) == n && LengthAccepted(field[0], field[1..])
  {
    if n > 125 {
      var width := if n <= 0xFFFF then 2 else 8;
      assert Pow256(2) == 0x1_0000;
      assert Pow256(7) == 0x100_0000_0000_0000;
      BigEndianRoundTrip(n, width);
      assert LengthField(n, maskBit)[1..] == BigEndian(n, width);
      TopBit(BigEndian(n, width));
    }
  }

  lemma {:induction false} TopBit(s: bytes)
    requires s != []
    ensures s[0] < 128 <==> FromBigEndian(s) < 128 * Pow256(|s| - 1)
  {
    if |s| == 1 {
      assert s[..0] == [];
    } else {
      TopBit(s[..|s| - 1]);
    }
  }

  /** Where the parts of a frame stand among its bytes. */
  lemma LaidOut(u: bytes, first: byte, field: bytes, key: bytes, body: bytes, rest: bytes)
    requires field != [] && u == [first] + field + (key + body) + rest
    ensures var header := 1 + |field| + |key|;
            && |u| == header + |body| + |rest| && u[0] == first && u[1] == field[0]
            && u[2..1 + |field|] == field[1..] && u[header - |key|..header] == key
            && u[header..header + |body|] == body
  {
  }

  /** The parts of a printed frame, where the parse looks for them. */
  lemma EncodedParts(f: Frame, rest: bytes)
    requires Printable(f)
    ensures var u := Encode(f) + rest;
            var field := LengthField(|f.payload|, if f.mask.Some? then 128 else 0);
            var header := 1 + |field| + if f.mask.Some? then 4 else 0;
            && |u| >= header + |f.payload| == |Encode(f)|
            && u[0] == (if f.fin then 128 else 0) + OpcodeValue(f.opcode)
            && u[1] == field[0] && u[2..1 + |field|] == field[1..]
            && (f.mask.Some? ==> u[header - 4..header] == f.mask.value)
            && u[header..header + |f.payload|] ==
               match f.mask case None => f.payload case Some(key) => Masked(f.payload, key)
  {
    hide Masked, OpcodeValue, LengthField;
    var u := Encode(f) + rest;
    var first: byte := (if f.fin then 128 else 0) + OpcodeValue(f.opcode);
    var field := LengthField(|f.payload|, if f.mask.Some? then 128 else 0);
    match f.mask {
      case None =>
        assert [] + f.payload == f.payload;
        LaidOut(u, first, field, [], f.payload, rest);
      case Some(key) => LaidOut(u, first, field, key, Masked(f.payload, key), rest);
    }
  }

  /** Printing then parsing gives back the frame, whatever follows it on the stream. */
  lemma ParseOfEncoded(c: Context, f: Frame, rest: bytes)
    requires Printable(f) && f.mask.Some? == c.expectMasked
    ensures Parse(c, Encode(f) + rest) ==
            if DataFault(c, f.opcode, |f.payload|).Some?
            then Refuse(DataFault(c, f.opcode, |f.payload|).value)
            else Parsed(f, |Encode(f)|)
  {
    hide Encode, Masked, DataFault, LengthField;
    var u, n := Encode(f) + rest, |f.payload|;
    var field := LengthField(n, if f.mask.Some? then 128 else 0);
    EncodedParts(f, rest);
    LengthFieldReads(n, if f.mask.Some? then 128 else 0);
    FirstByteReads(u[0], f.fin, f.opcode);
    assert HeadFault(c, u[0], u[1]) == None;
    assert Parse(c, u) == ParseBody(c, u, field[1..]);
    if f.mask.Some? {
      MaskedTwice(f.payload, f.mask.value);
    }
  }

  lemma FirstByteReads(b0: byte, fin: bool, op: Opcode)
    requires b0 == (if fin then 128 else 0) + OpcodeValue(op)
    ensures OpcodeOf(b0 % 16) == Some(op) && b0 / 16 % 8 == 0 && (b0 >= 128 <==> fin)
  {
  }

  /** An accepted length field is the one the printer writes. */
  lemma LengthFieldUnique(b1: byte, field: bytes)
    requires |field| == ExtendedBytes(b1) && LengthAccepted(b1, field)
    ensures [b1] + field == LengthField(StatedLength(b1, field), if b1 >= 128 then 128 else 0)
    ensures StatedLength(b1, field) < 0x8000_0000_0000_0000
  {
    if field != [] {
      FromBigEndianRoundTrip(field);
      TopBit(field);
      assert Pow256(2) == 0x1_0000;
      assert Pow256(7) == 0x100_0000_0000_0000;
    }
  }

  /** What acceptance says of the bytes accepted. */
  lemma ParsedParts(c: Context, u: bytes)
    requires Parse(c, u).Parsed?
    ensures |u| >= HeaderBytes(u[1]) && u[0] / 16 % 8 == 0 && OpcodeOf(u[0] % 16).Some?
    ensures var header, field, op := HeaderBytes(u[1]), u[2..2 + ExtendedBytes(u[1])], OpcodeOf(u[0] % 16).value;
            && LengthAccepted(u[1], field)
            && |field| == ExtendedBytes(u[1]) && header == 2 + |field| + (if u[1] >= 128 then 4 else 0)
            && (IsControl(op) ==> u[0] >= 128 && StatedLength(u[1], field) <= 125)
            && (u[1] >= 128) == c.expectMasked && DataFault(c, op, StatedLength(u[1], field)) == None
            && Parse(c, u).size == header + StatedLength(u[1], field) <= |u|
            && Parse(c, u).frame ==
               if u[1] >= 128 then
                 Frame(op, Masked(u[header..Parse(c, u).size], u[header - 4..header]), u[0] >= 128, Some(u[header - 4..header]))
               else Frame(op, u[header..Parse(c, u).size], u[0] >= 128, None)
  {
    hide FromBigEndian, LengthAccepted, OpcodeOf, Masked, DataFault;
  }

  /** The length field accepted is the one the printer writes for the payload. */
  lemma ParsedField(c: Context, u: bytes)
    requires Parse(c, u).Parsed?
    ensures |u| >= HeaderBytes(u[1]) >= 2 + ExtendedBytes(u[1])
    ensures [u[1]] + u[2..2 + ExtendedBytes(u[1])] == LengthField(|Parse(c, u).frame.payload|, if u[1] >= 128 then 128 else 0)
    ensures |Parse(c, u).frame.payload| < 0x8000_0000_0000_0000
  {
    hide Parse, ParseBody, HeadFault, LengthAccepted, StatedLength, LengthField, DataFault, OpcodeOf, ExtendedBytes;
    ParsedParts(c, u);
    LengthFieldUnique(u[1], u[2..2 + ExtendedBytes(u[1])]);
  }

  /** An accepted frame's bytes are exactly what the printer writes for it: encodings are unique. */
  lemma EncodeOfParsed(c: Context, u: bytes)
    requires Parse(c, u).Parsed?
    ensures Encode(Parse(c, u).frame) == u[..Parse(c, u).size]
    ensures Printable(Parse(c, u).frame) && Parse(c, u).frame.mask.Some? == c.expectMasked
    ensures DataFault(c, Parse(c, u).frame.opcode, |Parse(c, u).frame.payload|) == None
  {
    hide Parse, ParseBody, HeadFault, LengthAccepted, StatedLength, LengthField, Masked, OpcodeOf, OpcodeValue, HeaderBytes,
         ExtendedBytes;
    ParsedParts(c, u);
    var v, header := Parse(c, u), HeaderBytes(u[1]);
    var field := u[2..2 + ExtendedBytes(u[1])];
    ParsedField(c, u);
    FirstByteUnique(u[0]);
    var f := v.frame;
    hide Encode, DataFault;
    EncodeIsLaid(f, u[0], [u[1]] + field);
    if u[1] >= 128 {
      var key, body := u[header - 4..header], u[header..v.size];
      MaskedTwice(body, key);
      assert f.mask == Some(key) && Masked(f.payload, key) == body;
      Assembled(u, header - 4, header, v.size);
    } else {
      Assembled(u, header, header, v.size);
    }
  }

  lemma EncodeIsLaid(f: Frame, first: byte, field: bytes)
    requires first == (if f.fin then 128 else 0) + OpcodeValue(f.opcode)
    requires field == LengthField(|f.payload|, if f.mask.Some? then 128 else 0)
    ensures Encode(f) == [first] + field + match f.mask case None => f.payload case Some(key) => key + Masked(f.payload, key)
  {
    hide Masked, LengthField, OpcodeValue;
  }

  lemma FirstByteUnique(b0: byte)
    requires b0 / 16 % 8 == 0 && OpcodeOf(b0 % 16).Some?
    ensures b0 == (if b0 >= 128 then 128 else 0) + OpcodeValue(OpcodeOf(b0 % 16).value)
  {
  }

  lemma Assembled(u: bytes, i: nat, j: nat, k: nat)
    requires 2 <= i <= j <= k <= |u|
    ensures u[..k] == [u[0]] + ([u[1]] + u[2..i]) + (u[i..j] + u[j..k])
    ensures i == j ==> u[i..j] + u[j..k] == u[j..k]
  {
  }

  /** More bytes never change a conclusion already reached. */
  lemma ParseIsStable(c: Context, u: bytes, more: bytes)
    requires !Parse(c, u).NeedMore?
    ensures Parse(c, u + more) == Parse(c, u)
  {
    hide FromBigEndian, LengthAccepted, OpcodeOf, Masked, DataFault;
    var w := u + more;
    assert w[0] == u[0] && w[1] == u[1];
    var extended, header := ExtendedBytes(u[1]), HeaderBytes(u[1]);
    if HeadFault(c, u[0], u[1]).None? && |u| >= header {
      var field := u[2..2 + extended];
      assert w[2..2 + extended] == field;
      var n := StatedLength(u[1], field);
      if |u| >= header + n {
        if u[1] >= 128 {
          assert w[header - 4..header] == u[header - 4..header];
        }
        assert w[header..header + n] == u[header..header + n];
      }
    }
  }

  /** While the reader waits, what it holds and what it has not read stay under the bound plus 131. */
  lemma WaitingIsBounded(c: Context, u: bytes)
    requires Parse(c, u).NeedMore?
    requires c.held <= c.maxMessageBytes < SIZE_T && (!c.inMessage ==> c.held == 0)
    ensures c.held + |u| < c.maxMessageBytes + 131
  {
  }

  /** A data frame that parses fits in what the bound leaves beside the held fragment. */
  lemma ParsedFits(c: Context, u: bytes)
    requires Parse(c, u).Parsed? && c.held <= c.maxMessageBytes && (!c.inMessage ==> c.held == 0)
    ensures var f := Parse(c, u).frame;
            !IsControl(f.opcode) ==> c.held + |f.payload| <= c.maxMessageBytes
  {
  }
}
