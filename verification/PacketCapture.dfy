/**
 A recorded capture as text, read and written as PacketCapture.cpp does it: a magic line, header fields,
 a line for each change of peer, and each datagram's bytes in hex beside what they look like.
 */
module PacketCapture {
  import opened Bytes
  import opened Text

  /** One datagram, and when it was received, in seconds. */
  datatype Datagram = Datagram(receiveTime: real, peer: string, payload: bytes)

  datatype Capture = Capture(
    sender: string,
    device: string,
    sourceId: string,
    listen: string,
    peer: string,
    datagrams: seq<Datagram>)

  const BYTES_PER_LINE := 16
  const HEX_COLUMN := 47
  const MAX_DATAGRAM := 65507
  const MICROS := 1_000_000

  // ---- Hex and its gutter ----

  function HexDigit(c: char): Option<nat> {
    if '0' <= c <= '9' then Some(c as int - 48)
    else if 'a' <= c <= 'f' then Some(c as int - 87)
    else if 'A' <= c <= 'F' then Some(c as int - 55)
    else None
  }

  function HexChar(n: nat): (c: char)
    requires n < 16
    ensures c != '|' && !IsSpace(c) && c != '\n'
  {
    if n < 10 then (n + 48) as char else (n + 87) as char
  }

  function ByteIn(token: string): Option<byte> {
    if |token| != 2 || HexDigit(token[0]).None? || HexDigit(token[1]).None? then None
    else
      var n := HexDigit(token[0]).value * 16 + HexDigit(token[1]).value;
      if n < 256 then Some(n) else None
  }

  function BytesIn(tokens: seq<string>): Option<bytes> {
    if tokens == [] then Some([])
    else
      var first, rest := ByteIn(tokens[0]), BytesIn(tokens[1..]);
      if first.None? || rest.None? then None else Some([first.value] + rest.value)
  }

  function Glyph(b: byte): (c: char)
    ensures c != '\n' && c != '\r'
  {
    if 0x20 <= b <= 0x7e then b as char else '.'
  }

  /** What bytes look like beside their hex. */
  function Gutter(s: bytes): (g: string)
    ensures |g| == |s|
  {
    seq(|s|, i requires 0 <= i < |s| => Glyph(s[i]))
  }

  method PacketCaptureGutter(s: bytes) returns (gutter: string)
    ensures gutter == Gutter(s)
  {
    gutter := "";
    for index := 0 to |s|
      invariant gutter == Gutter(s[..index])
    {
      assert s[..index + 1] == s[..index] + [s[index]];
      gutter := gutter + [if 0x20 <= s[index] <= 0x7e then s[index] as char else '.'];
    }
    assert s[..|s|] == s;
  }

  // ---- Characters in a line ----

  function FirstOf(s: string, c: char): (i: nat)
    ensures i <= |s| && (i < |s| ==> s[i] == c) && forall k :: 0 <= k < i ==> s[k] != c
  {
    if s == "" || s[0] == c then 0 else 1 + FirstOf(s[1..], c)
  }

  /** One past the last `c`, or zero. */
  function PastLast(s: string, c: char): (i: nat)
    ensures i <= |s| && (i > 0 ==> s[i - 1] == c) && forall k :: i <= k < |s| ==> s[k] != c
  {
    if s == "" then 0 else if s[|s| - 1] == c then |s| else PastLast(s[..|s| - 1], c)
  }

  predicate IsBlank(c: char) {
    c == ' ' || c == '\t'
  }

  function FirstNonBlank(s: string): (i: nat)
    ensures i <= |s| && (i < |s| ==> !IsBlank(s[i])) && forall k :: 0 <= k < i ==> IsBlank(s[k])
  {
    if s == "" || !IsBlank(s[0]) then 0 else 1 + FirstNonBlank(s[1..])
  }

  /** The bytes of a hex line; a gutter, when there is one, runs to the last bar and must say what they are. */
  function HexLine(line: string): Option<bytes> {
    var bar, end := FirstOf(line, '|'), PastLast(line, '|');
    if bar == |line| then Checked(BytesIn(Words(line)), None)
    else if end <= bar + 1 || FirstNonBlank(line[end..]) < |line| - end then None
    else Checked(BytesIn(Words(line[..bar])), Some(line[bar + 1..end - 1]))
  }

  function Checked(found: Option<bytes>, gutter: Option<string>): Option<bytes> {
    if found.None? || found.value == [] then None
    else if gutter.Some? && gutter.value != Gutter(found.value) then None
    else found
  }

  // ---- Reading ----

  /** The reader between two lines: the record being filled, the clock so far and the peer in force. */
  datatype Reading = Reading(
    sawMagic: bool,
    open: Option<Datagram>,
    declared: nat,
    previous: Option<real>,
    peer: string,
    sawPeerLine: bool,
    result: Capture)

  const BLANK := Reading(false, None, 0, None, "", false, Capture("", "", "", "", "", []))

  /** A number without the sign it may begin with. */
  function Magnitude(s: string): string {
    if s != "" && (s[0] == '-' || s[0] == '+') then s[1..] else s
  }

  predicate IsNegated(s: string) {
    s != "" && s[0] == '-'
  }

  function ReadInteger(s: string): Option<int> {
    var n: int :- ReadNumber(Magnitude(s));
    Some(if IsNegated(s) then -n else n)
  }

  /** Digits, with a point among them, before them or after them. */
  function ReadPlain(s: string): Option<real> {
    var dot := FirstOf(s, '.');
    var whole, part := s[..dot], if dot == |s| then "" else s[dot + 1..];
    if whole + part == "" || !AreDigits(whole) || !AreDigits(part) then None
    else Some(PointValue(whole, part))
  }

  function PointValue(whole: string, part: string): real
    requires AreDigits(whole) && AreDigits(part)
  {
    NumberIn(whole) as real + NumberIn(part) as real / Tens(|part|) as real
  }

  function PowerOfTen(n: int): real {
    if n >= 0 then Tens(n) as real else 1.0 / Tens(-n) as real
  }

  /** The exponent's letter, or the end. */
  function ExponentAt(s: string): (i: nat)
    ensures i <= |s|
  {
    if FirstOf(s, 'e') < FirstOf(s, 'E') then FirstOf(s, 'e') else FirstOf(s, 'E')
  }

  function ReadUnsigned(s: string): Option<real> {
    var at := ExponentAt(s);
    var mantissa :- ReadPlain(s[..at]);
    if at == |s| then Some(mantissa)
    else
      var exponent :- ReadInteger(s[at + 1..]);
      Some(mantissa * PowerOfTen(exponent))
  }

  /** Seconds, in any spelling of a decimal number, exactly. */
  function ReadTime(s: string): Option<real> {
    var seconds :- ReadUnsigned(Magnitude(s));
    Some(if IsNegated(s) then -seconds else seconds)
  }

  function Finish(r: Reading, d: Datagram): Reading {
    r.(open := None, result := r.result.(datagrams := r.result.datagrams + [d]))
  }

  function TakeMagic(magic: string, r: Reading, words: seq<string>): Option<Reading> {
    if |words| == 2 && words[0] == magic && ReadInteger(words[1]) == Some(1) then Some(r.(sawMagic := true)) else None
  }

  function TakePeer(r: Reading, words: seq<string>): Option<Reading> {
    if r.open.Some? || |words| != 2 then None
    else Some(r.(peer := if words[1] == "-" then "" else words[1], sawPeerLine := true))
  }

  function TakeRecord(r: Reading, words: seq<string>): Option<Reading> {
    if r.open.Some? || |words| != 3 then None
    else
      var time, length := ReadTime(words[1]), ReadInteger(words[2]);
      if time.None? || time.value < 0.0 || (r.previous.Some? && time.value < r.previous.value) then None
      else if length.None? || length.value < 0 || length.value > MAX_DATAGRAM then None
      else
        var d, r' := Datagram(time.value, r.peer, []), r.(previous := time, declared := length.value);
        Some(if length.value == 0 then Finish(r', d) else r'.(open := Some(d)))
  }

  function TakeHex(r: Reading, line: string): Option<Reading>
    requires r.open.Some?
  {
    var more := HexLine(line);
    if more.None? || |r.open.value.payload| + |more.value| > r.declared then None
    else
      var d := r.open.value.(payload := r.open.value.payload + more.value);
      Some(if |d.payload| == r.declared then Finish(r, d) else r.(open := Some(d)))
  }

  function TakeHeader(r: Reading, words: seq<string>): Option<Reading> {
    if |words| != 2 then None
    else
      var c, value := r.result, words[1];
      match words[0]
      case "sender" => if c.sender == "" then Some(r.(result := c.(sender := value))) else None
      case "device" => if c.device == "" then Some(r.(result := c.(device := value))) else None
      case "sourceId" => if c.sourceId == "" then Some(r.(result := c.(sourceId := value))) else None
      case "listen" => if c.listen == "" then Some(r.(result := c.(listen := value))) else None
      case "peer" => if c.peer == "" then Some(r.(result := c.(peer := value))) else None
      case _ => None
  }

  function Uncarried(line: string): string {
    if line != "" && line[|line| - 1] == '\r' then line[..|line| - 1] else line
  }

  /** One line, or a refusal. */
  function StepLine(magic: string, r: Reading, raw: string): Option<Reading> {
    var line := Uncarried(raw);
    var start := FirstNonBlank(line);
    if start == |line| || line[start] == '#' then Some(r)
    else
      var words := Words(line);
      var keyword := if words == [] then "" else words[0];
      if !r.sawMagic then TakeMagic(magic, r, words)
      else if keyword == "p" then TakePeer(r, words)
      else if keyword == "d" then TakeRecord(r, words)
      else if r.open.Some? then TakeHex(r, line)
      else if r.result.datagrams == [] && !r.sawPeerLine then TakeHeader(r, words)
      else None
  }

  function ReadLines(magic: string, r: Reading, lines: seq<string>): Option<Reading>
    decreases |lines|
  {
    if lines == [] then Some(r)
    else
      match StepLine(magic, r, lines[0])
      case None => None
      case Some(next) => ReadLines(magic, next, lines[1..])
  }

  /** A capture is read to its end: a magic line seen, no record left open, and a datagram at least. */
  function Read(magic: string, text: string): Option<Capture> {
    match ReadLines(magic, BLANK, Lines(text))
    case None => None
    case Some(r) => if !r.sawMagic || r.open.Some? || r.result.datagrams == [] then None else Some(r.result)
  }

  method ReadPacketCapture(magic: string, text: string) returns (capture: Option<Capture>)
    ensures capture == Read(magic, text)
  {
    hide StepLine, Lines;
    var lines, r := Lines(text), BLANK;
    for i := 0 to |lines|
      invariant ReadLines(magic, BLANK, lines) == ReadLines(magic, r, lines[i..])
    {
      assert lines[i..][1..] == lines[i + 1..];
      var next := StepLine(magic, r, lines[i]);
      if next.None? {
        return None;
      }
      r := next.value;
    }
    if !r.sawMagic || r.open.Some? || r.result.datagrams == [] {
      return None;
    }
    capture := Some(r.result);
  }

  // ---- Writing ----

  /** The whole number nearest to `x`, the even one of two as near. */
  function Nearest(x: real): int {
    var below := x.Floor;
    var over := x - below as real;
    if over < 0.5 || (over == 0.5 && below % 2 == 0) then below else below + 1
  }

  lemma NearestIsNear(x: real)
    ensures -0.5 <= Nearest(x) as real - x <= 0.5
    ensures x >= 0.0 ==> Nearest(x) >= 0
  {
  }

  /** Microseconds, to the nearest. */
  function MicrosOf(seconds: real): (n: nat)
    requires seconds >= 0.0
  {
    NearestIsNear(seconds * 1000000.0);
    Nearest(seconds * 1000000.0)
  }

  /** Seconds with six decimals. */
  function FixedText(micros: nat): string {
    Decimal(micros / MICROS) + "." + Padded(micros % MICROS, 6)
  }

  function TimeText(t: real): string {
    if t < 0.0 then "-" + FixedText(MicrosOf(-t)) else FixedText(MicrosOf(t))
  }

  function HexWord(b: byte): string {
    [HexChar(b / 16), HexChar(b % 16)]
  }

  function HexWords(s: bytes): (words: seq<string>)
    ensures |words| == |s|
  {
    seq(|s|, i requires 0 <= i < |s| => HexWord(s[i]))
  }

  function Spaces(n: nat): (s: string)
    ensures |s| == n && forall i :: 0 <= i < n ==> s[i] == ' '
  {
    seq(n, _ => ' ')
  }

  /** One row: the bytes in hex, padded to a fixed column, and their gutter. */
  function HexText(row: bytes): string {
    var hex := Spaced(HexWords(row));
    "  " + hex + Spaces(if |hex| < HEX_COLUMN then HEX_COLUMN - |hex| else 0) + "  |" + Gutter(row) + "|"
  }

  function HexRows(s: bytes): seq<string> {
    if s == [] then []
    else if |s| <= BYTES_PER_LINE then [HexText(s)]
    else [HexText(s[..BYTES_PER_LINE])] + HexRows(s[BYTES_PER_LINE..])
  }

  function RecordLines(d: Datagram): seq<string> {
    [Spaced(["d", TimeText(d.receiveTime), Decimal(|d.payload|)])] + HexRows(d.payload)
  }

  predicate PeerChanges(peer: string, emitted: string, emittedAny: bool) {
    peer != emitted && (emittedAny || peer != "")
  }

  /** Each datagram after a blank line, a peer line before it only where its peer differs from the last one written. */
  function DatagramLines(datagrams: seq<Datagram>, emitted: string, emittedAny: bool): seq<string> {
    if datagrams == [] then []
    else
      var d := datagrams[0];
      var changes := PeerChanges(d.peer, emitted, emittedAny);
      [""] + (if changes then [Spaced(["p", if d.peer == "" then "-" else d.peer])] else []) + RecordLines(d)
      + DatagramLines(datagrams[1..], if changes then d.peer else emitted, emittedAny || changes)
  }

  function FieldLine(key: string, value: string): seq<string> {
    if value == "" then [] else [Spaced([key, value])]
  }

  function HeaderLines(magic: string, c: Capture): seq<string> {
    [Spaced([magic, "1"])] + FieldLine("sender", c.sender) + FieldLine("device", c.device)
    + FieldLine("sourceId", c.sourceId) + FieldLine("listen", c.listen) + FieldLine("peer", c.peer)
  }

  function Written(magic: string, c: Capture): string {
    Joined(HeaderLines(magic, c) + DatagramLines(c.datagrams, "", false))
  }

  method WritePacketCapture(magic: string, c: Capture) returns (text: string)
    ensures text == Written(magic, c)
  {
    hide RecordLines, HeaderLines;
    var lines := HeaderLines(magic, c);
    var emittedPeer, emittedAny := "", false;
    for i := 0 to |c.datagrams|
      invariant HeaderLines(magic, c) + DatagramLines(c.datagrams, "", false)
             == lines + DatagramLines(c.datagrams[i..], emittedPeer, emittedAny)
    {
      var d := c.datagrams[i];
      assert c.datagrams[i..][1..] == c.datagrams[i + 1..];
      ghost var before, peer, any := lines, emittedPeer, emittedAny;
      lines := lines + [""];
      if d.peer != emittedPeer && (emittedAny || d.peer != "") {
        lines := lines + [Spaced(["p", if d.peer == "" then "-" else d.peer])];
        emittedPeer, emittedAny := d.peer, true;
      }
      lines := lines + RecordLines(d);
      assert before + DatagramLines(c.datagrams[i..], peer, any)
          == lines + DatagramLines(c.datagrams[i + 1..], emittedPeer, emittedAny);
    }
    assert lines + [] == lines;
    text := Joined(lines);
  }
}
