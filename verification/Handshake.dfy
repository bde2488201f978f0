/**
 The opening handshake of RFC 6455, sections 4.1 and 4.2, as Rfc6455.cpp reads and writes it: heads
 as text, SHA-1 as a parameter, and the proof that the repository's two ends accept each other.
 */
module Handshake {
  import opened Bytes
  import Base64

  const CRLF := "\r\n"
  const SUBPROTOCOL := "openstrata.motion.frame.v1"
  const ACCEPT_GUID := "258EAFA5-E914-47DA-95CA-C5AB0DC85B11"
  const MAX_HEAD_BYTES := 8192

  // ---- Text ----

  predicate IsBlank(c: char) {
    c == ' ' || c == '\t'
  }

  function TrimLeft(s: string): string {
    if s != "" && IsBlank(s[0]) then TrimLeft(s[1..]) else s
  }

  function TrimRight(s: string): string {
    if s != "" && IsBlank(s[|s| - 1]) then TrimRight(s[..|s| - 1]) else s
  }

  function Trim(s: string): string {
    TrimRight(TrimLeft(s))
  }

  function LowerAscii(c: char): char {
    if 'A' <= c <= 'Z' then (c as nat + 32) as char else c
  }

  function Lower(s: string): (r: string)
    ensures |r| == |s|
  {
    seq(|s|, i requires 0 <= i < |s| => LowerAscii(s[i]))
  }

  /** The first position of `c`, or the length. */
  function IndexOf(s: string, c: char): (i: nat)
    ensures i <= |s|
    ensures c !in s[..i]
    ensures i < |s| ==> s[i] == c
  {
    if s == "" || s[0] == c then 0
    else
      var i := IndexOf(s[1..], c) + 1;
      assert s[..i] == [s[0]] + s[1..][..i - 1];
      i
  }

  predicate IsTokenChar(c: char) {
    'a' <= c <= 'z' || 'A' <= c <= 'Z' || '0' <= c <= '9' || c in "!#$%&'*+-.^_`|~"
  }

  /** Characters are bytes here, as in the program's strings. */
  predicate IsOctets(s: string) {
    forall i :: 0 <= i < |s| ==> s[i] as int < 256
  }

  function Octets(s: string): (r: bytes)
    ensures |r| == |s|
  {
    seq(|s|, i requires 0 <= i < |s| => s[i] as int % 256)
  }

  function AsText(b: bytes): (r: string)
    ensures |r| == |b|
  {
    seq(|b|, i requires 0 <= i < |b| => b[i] as char)
  }

  // ---- Heads ----

  /** The length of the head in `buffer`, its blank line included, or 0 while that has not arrived. */
  function FindHeadEnd(buffer: bytes): (n: nat)
    ensures n == 0 || 4 <= n <= |buffer|
  {
    if |buffer| < 4 then 0
    else if buffer[0] == 13 && buffer[1] == 10 && buffer[2] == 13 && buffer[3] == 10 then 4
    else
      var rest := FindHeadEnd(buffer[1..]);
      if rest == 0 then 0 else rest + 1
  }

  lemma {:induction false} HeadEndIsStable(u: bytes, more: bytes)
    ensures FindHeadEnd(u) != 0 ==> FindHeadEnd(u + more) == FindHeadEnd(u)
    ensures FindHeadEnd(u) == 0 && FindHeadEnd(u + more) != 0 ==> FindHeadEnd(u + more) > |u|
  {
    if |u| >= 4 {
      assert (u + more)[1..] == u[1..] + more;
      HeadEndIsStable(u[1..], more);
    }
  }

  /** The lines of a text that ends each of them with CR LF; what follows the last is dropped. */
  function Lines(s: string): seq<string>
    decreases |s|
  {
    var i := FindCrLf(s);
    if i >= |s| then [] else [s[..i]] + Lines(s[i + 2..])
  }

  function FindCrLf(s: string): (i: nat)
    ensures i <= |s| && (i < |s| ==> i + 2 <= |s|)
  {
    if |s| < 2 then |s|
    else if s[0] == '\r' && s[1] == '\n' then 0
    else FindCrLf(s[1..]) + 1
  }

  type Header = (string, string)

  datatype Head = Head(start: string, headers: seq<Header>)

  function ParseHeader(line: string): Option<Header> {
    var colon := IndexOf(line, ':');
    if colon == |line| || colon == 0 then None
    else if exists c :: c in line[..colon] && !IsTokenChar(c) then None
    else Some((Lower(line[..colon]), Trim(line[colon + 1..])))
  }

  function ParseHeaders(lines: seq<string>): Option<seq<Header>> {
    if lines == [] then Some([])
    else
      var first := ParseHeader(lines[0]);
      var rest := ParseHeaders(lines[1..]);
      if first.None? || rest.None? then None else Some([first.value] + rest.value)
  }

  function ParseHeadLines(head: string): Option<Head> {
    if |head| < 4 || head[|head| - 4..] != "\r\n\r\n" then None
    else
      var lines := Lines(head[..|head| - 2]);
      if lines == [] then None
      else
        var headers := ParseHeaders(lines[1..]);
        if headers.None? || '\n' in lines[0] || '\r' in lines[0] then None
        else Some(Head(lines[0], headers.value))
  }

  function Find(headers: seq<Header>, name: string): Option<string> {
    if headers == [] then None
    else if headers[0].0 == name then Some(headers[0].1)
    else Find(headers[1..], name)
  }

  function Count(headers: seq<Header>, name: string): nat {
    if headers == [] then 0 else (if headers[0].0 == name then 1 else 0) + Count(headers[1..], name)
  }

  function SplitTokens(s: string): seq<string>
    decreases |s|
  {
    if s == "" then []
    else
      var comma := IndexOf(s, ',');
      var token := Trim(s[..comma]);
      (if token == "" then [] else [token]) + if comma == |s| then [] else SplitTokens(s[comma + 1..])
  }

  function Tokens(headers: seq<Header>, name: string): seq<string> {
    if headers == [] then []
    else (if headers[0].0 == name then SplitTokens(headers[0].1) else []) + Tokens(headers[1..], name)
  }

  predicate ContainsToken(tokens: seq<string>, lowerToken: string) {
    exists t :: t in tokens && Lower(t) == lowerToken
  }

  // ---- The server's answer ----

  datatype Refusal = NoRefusal | HandshakeRefused | OriginRefused

  datatype Answer = Answer(refusal: Refusal, status: nat, response: string, origin: string)

  function AcceptKey(sha1: string -> bytes, key: string): string {
    Base64.Encoded(sha1(key + ACCEPT_GUID))
  }

  /** Lines, each ended. */
  function LineText(lines: seq<string>): string {
    if lines == [] then "" else lines[0] + (CRLF + LineText(lines[1..]))
  }

  /** A head: its lines, each ended, and the blank line. */
  function WriteHead(lines: seq<string>): string {
    LineText(lines) + CRLF
  }

  function Field(name: string, value: string): string {
    name + ": " + value
  }

  function FieldLines(fields: seq<Header>): seq<string> {
    if fields == [] then [] else [Field(fields[0].0, fields[0].1)] + FieldLines(fields[1..])
  }

  function WriteMessage(start: string, fields: seq<Header>): string {
    WriteHead([start] + FieldLines(fields))
  }

  function RefusalLine(status: nat): string {
    if status == 400 then "HTTP/1.1 400 Bad Request"
    else if status == 403 then "HTTP/1.1 403 Forbidden"
    else if status == 404 then "HTTP/1.1 404 Not Found"
    else "HTTP/1.1 503 Service Unavailable"
  }

  /** An HTTP refusal; a 400 also says which version this server speaks. */
  function WriteHttpRefusal(status: nat): string {
    WriteMessage(RefusalLine(status),
                 (if status == 400 then [("Sec-WebSocket-Version", "13")] else [])
                 + [("Connection", "close"), ("Content-Length", "0")])
  }

  function Refuse(status: nat): Answer {
    Answer(HandshakeRefused, status, WriteHttpRefusal(status), "")
  }

  const RESPONSE_LINE := "HTTP/1.1 101 Switching Protocols"

  function ResponseFields(accept: string): seq<Header> {
    [("Upgrade", "websocket"), ("Connection", "Upgrade"), ("Sec-WebSocket-Accept", accept),
     ("Sec-WebSocket-Protocol", SUBPROTOCOL)]
  }

  function WriteUpgradeResponse(accept: string): string {
    WriteMessage(RESPONSE_LINE, ResponseFields(accept))
  }

  /** Method, target and version of a request's start line. */
  function RequestParts(line: string): Option<(string, string)> {
    var first := IndexOf(line, ' ');
    if first == |line| then None
    else
      var rest := line[first + 1..];
      var second := IndexOf(rest, ' ');
      if second == |rest| then None
      else
        var version := rest[second + 1..];
        if ' ' in version || first == 0 || second == 0 || version != "HTTP/1.1" then None
        else Some((line[..first], rest[..second]))
  }

  function AnswerUpgrade(sha1: string -> bytes, head: string, path: string, allowed: seq<string>): Answer {
    var parsed := ParseHeadLines(head);
    if parsed.None? || RequestParts(parsed.value.start).None? then Refuse(400)
    else
      var (verb, target) := RequestParts(parsed.value.start).value;
      AnswerRequest(sha1, verb, target, parsed.value.headers, path, allowed)
  }

  /** The origin first: a page that is not let in learns nothing else about the endpoint. */
  function AnswerRequest(sha1: string -> bytes, verb: string, target: string, headers: seq<Header>,
                         path: string, allowed: seq<string>): Answer
  {
    var origin := Find(headers, "origin");
    if origin.Some? && (Count(headers, "origin") != 1 || origin.value !in allowed) then
      Answer(OriginRefused, 403, WriteHttpRefusal(403), origin.value)
    else if target != path then Refuse(404)
    else if verb != "GET" then Refuse(400)
    else if !ContainsToken(Tokens(headers, "upgrade"), "websocket")
            || !ContainsToken(Tokens(headers, "connection"), "upgrade") then Refuse(400)
    else if Count(headers, "host") != 1 then Refuse(400)
    else if Find(headers, "sec-websocket-version") != Some("13")
            || Count(headers, "sec-websocket-version") != 1 then Refuse(400)
    else
      var key := Find(headers, "sec-websocket-key");
      if key.None? || Count(headers, "sec-websocket-key") != 1 then Refuse(400)
      else if Base64.Decoded(key.value).None? || |Base64.Decoded(key.value).value| != 16 then Refuse(400)
      else if SUBPROTOCOL !in Tokens(headers, "sec-websocket-protocol") then Refuse(400)
      else
        Answer(NoRefusal, 101, WriteUpgradeResponse(AcceptKey(sha1, key.value)),
               if origin.Some? then origin.value else "")
  }

  // ---- The client's request, and its reading of the answer ----

  function RequestLine(path: string): string {
    "GET " + (path + " HTTP/1.1")
  }

  function RequestFields(host: string, key: string): seq<Header> {
    [("Host", host), ("Upgrade", "websocket"), ("Connection", "Upgrade"), ("Sec-WebSocket-Key", key),
     ("Sec-WebSocket-Version", "13"), ("Sec-WebSocket-Protocol", SUBPROTOCOL)]
  }

  function WriteUpgradeRequest(host: string, path: string, key: string): string {
    WriteMessage(RequestLine(path), RequestFields(host, key))
  }

  function StatusDigits(line: string): Option<nat>
    requires |line| >= 12
  {
    if forall i :: 9 <= i < 12 ==> '0' <= line[i] <= '9' then
      Some((line[9] as nat - 48) * 100 + (line[10] as nat - 48) * 10 + (line[11] as nat - 48))
    else None
  }

  function ResponseStatus(line: string): Option<nat> {
    if |line| < 12 || line[..9] != "HTTP/1.1 " || (|line| > 12 && line[12] != ' ') then None
    else StatusDigits(line)
  }

  /** Whether the response completes the upgrade, and the status it carried, 0 when it did not parse. */
  function CheckUpgradeResponse(sha1: string -> bytes, head: string, key: string): (bool, nat) {
    var parsed := ParseHeadLines(head);
    if parsed.None? || ResponseStatus(parsed.value.start).None? then (false, 0)
    else
      var status := ResponseStatus(parsed.value.start).value;
      (status == 101 && HeadersComplete(parsed.value.headers, AcceptKey(sha1, key)), status)
  }

  predicate HeadersComplete(headers: seq<Header>, accept: string) {
    && ContainsToken(Tokens(headers, "upgrade"), "websocket")
    && ContainsToken(Tokens(headers, "connection"), "upgrade")
    && Find(headers, "sec-websocket-accept") == Some(accept)
    && Find(headers, "sec-websocket-protocol") == Some(SUBPROTOCOL)
    && Count(headers, "sec-websocket-protocol") == 1
    && Find(headers, "sec-websocket-extensions") == None
  }

  // ---- A written head reads back ----

  predicate IsLine(s: string) {
    forall i :: 0 <= i < |s| ==> s[i] != '\r' && s[i] != '\n'
  }

  lemma {:induction false} FindCrLfAfterLine(line: string, rest: string)
    requires IsLine(line)
    ensures FindCrLf(line + (CRLF + rest)) == |line|
  {
    var s := line + (CRLF + rest);
    if line == "" {
      assert s == CRLF + rest;
    } else {
      assert s[0] == line[0] && s[1..] == line[1..] + (CRLF + rest);
      FindCrLfAfterLine(line[1..], rest);
    }
  }

  lemma LinesAfterLine(line: string, rest: string)
    requires IsLine(line)
    ensures Lines(line + (CRLF + rest)) == [line] + Lines(rest)
  {
    FindCrLfAfterLine(line, rest);
    var s := line + (CRLF + rest);
    assert s[..|line|] == line && s[|line| + 2..] == rest;
  }

  /** The written lines, without the blank one, are the lines read. */
  lemma {:induction false} LinesOfWritten(lines: seq<string>)
    requires forall l :: l in lines ==> IsLine(l)
    ensures Lines(LineText(lines)) == lines
    ensures lines != [] ==> |LineText(lines)| >= 2 && LineText(lines)[|LineText(lines)| - 2..] == CRLF
  {
    if lines != [] {
      LinesOfWritten(lines[1..]);
      assert lines[0] in lines;
      LinesAfterLine(lines[0], LineText(lines[1..]));
      EndsAlike(lines[0], LineText(lines[1..]));
    }
  }

  lemma EndsAlike(line: string, rest: string)
    requires rest != "" ==> |rest| >= 2 && rest[|rest| - 2..] == CRLF
    ensures var s := line + (CRLF + rest); s[|s| - 2..] == CRLF
  {
    var s := line + (CRLF + rest);
    if rest == "" {
      assert s == line + CRLF;
    } else {
      assert s[|s| - 2..] == rest[|rest| - 2..];
    }
  }

  /** A field line with a token name reads back as its name, lowered, and its value, trimmed. */
  lemma FieldReads(name: string, value: string)
    requires name != "" && forall c :: c in name ==> IsTokenChar(c)
    ensures ParseHeader(Field(name, value)) == Some((Lower(name), Trim(value)))
  {
    var line := Field(name, value);
    assert IsTokenChar(':') == false;
    assert line[|name|] == ':';
    var colon := IndexOf(line, ':');
    assert line[..colon] == name;
    assert line[colon + 1..] == " " + value;
    assert (" " + value)[1..] == value;
  }

  /** A value that neither begins nor ends with a blank is already trimmed. */
  predicate IsTrimmed(s: string) {
    s == "" || (!IsBlank(s[0]) && !IsBlank(s[|s| - 1]))
  }

  lemma TrimKeeps(s: string)
    requires IsTrimmed(s)
    ensures Trim(s) == s
  {
  }

  lemma WordIsOneToken(s: string)
    requires s != "" && IsTrimmed(s) && ',' !in s
    ensures SplitTokens(s) == [s]
  {
    var comma := IndexOf(s, ',');
    assert comma == |s|;
    assert s[..comma] == s;
    TrimKeeps(s);
    assert [s] + [] == [s];
  }

  lemma {:induction false} HeadEndAfterLine(line: bytes, rest: bytes)
    requires 13 !in line && FindHeadEnd(rest) != 0
    ensures FindHeadEnd(line + rest) == |line| + FindHeadEnd(rest)
  {
    if line == [] {
      assert line + rest == rest;
    } else {
      HeadEndAfterLine(line[1..], rest);
      var s := line + rest;
      assert s[0] == line[0] && s[1..] == line[1..] + rest;
    }
  }

  lemma HeadEndAfterCrLf(rest: bytes)
    requires |rest| >= 2
    ensures rest[0] == 13 && rest[1] == 10 ==> FindHeadEnd([13, 10] + rest) == 4
    ensures rest[0] != 13 && FindHeadEnd(rest) != 0 ==> FindHeadEnd([13, 10] + rest) == 2 + FindHeadEnd(rest)
  {
    var s := [13, 10] + rest;
    assert s[1..] == [10] + rest && s[1..][1..] == rest;
  }

  lemma OctetsAppend(a: string, b: string)
    ensures Octets(a + b) == Octets(a) + Octets(b)
  {
  }

  lemma OctetsOfLine(line: string, tail: string, more: bytes)
    ensures Octets(line + (CRLF + tail)) + more == Octets(line) + ([13, 10] + (Octets(tail) + more))
  {
    OctetsAppend(line, CRLF + tail);
    OctetsAppend(CRLF, tail);
    assert Octets(CRLF) == [13, 10];
  }

  /** The head of a stream that begins with a written one is exactly that one. */
  lemma {:induction false} HeadEndOfWritten(lines: seq<string>, more: bytes)
    requires lines != [] && forall l :: l in lines ==> IsLine(l) && l != "" && IsOctets(l)
    ensures FindHeadEnd(Octets(WriteHead(lines)) + more) == |WriteHead(lines)|
  {
    hide FindHeadEnd;
    var line, tail := lines[0], WriteHead(lines[1..]);
    assert line in lines && forall i :: 0 <= i < |line| ==> Octets(line)[i] == line[i] as int;
    assert 13 !in Octets(line);
    var rest := Octets(tail) + more;
    if |lines| == 1 {
      assert tail == CRLF && rest[0] == 13 && rest[1] == 10;
    } else {
      HeadEndOfWritten(lines[1..], more);
      assert lines[1] in lines && tail[0] == lines[1][0];
    }
    HeadEndAfterCrLf(rest);
    HeadEndAfterLine(Octets(line), [13, 10] + rest);
    assert WriteHead(lines) == line + (CRLF + tail);
    OctetsOfLine(line, tail, more);
  }

  lemma TextOfOctets(s: string)
    requires IsOctets(s)
    ensures AsText(Octets(s)) == s
  {
  }

  // ---- A written message reads back ----

  ghost predicate IsField(f: Header) {
    f.0 != "" && (forall c :: c in f.0 ==> IsTokenChar(c)) && IsLine(f.0) && IsLine(f.1)
  }

  function ReadFields(fields: seq<Header>): (r: seq<Header>)
    ensures |r| == |fields|
    ensures forall i :: 0 <= i < |r| ==> r[i] == (Lower(fields[i].0), Trim(fields[i].1))
  {
    if fields == [] then [] else [(Lower(fields[0].0), Trim(fields[0].1))] + ReadFields(fields[1..])
  }

  lemma FieldIsRead(f: Header)
    requires IsField(f)
    ensures ParseHeader(Field(f.0, f.1)) == Some((Lower(f.0), Trim(f.1)))
    ensures IsLine(Field(f.0, f.1)) && Field(f.0, f.1) != ""
  {
    hide ParseHeader, Lower, Trim, IsTokenChar;
    FieldReads(f.0, f.1);
  }

  lemma {:induction false} FieldLinesRead(fields: seq<Header>)
    requires forall f :: f in fields ==> IsField(f)
    ensures ParseHeaders(FieldLines(fields)) == Some(ReadFields(fields))
    ensures forall l :: l in FieldLines(fields) ==> IsLine(l) && l != ""
  {
    hide IsField, Field, ParseHeader, Lower, Trim, IsLine;
    if fields != [] {
      assert fields[0] in fields;
      FieldIsRead(fields[0]);
      FieldLinesRead(fields[1..]);
      assert FieldLines(fields)[1..] == FieldLines(fields[1..]);
    }
  }

  lemma StartIsPlain(start: string)
    requires IsLine(start)
    ensures '\r' !in start && '\n' !in start
  {
  }

  lemma MessageReads(start: string, fields: seq<Header>)
    requires IsLine(start) && start != "" && forall f :: f in fields ==> IsField(f)
    ensures ParseHeadLines(WriteMessage(start, fields)) == Some(Head(start, ReadFields(fields)))
  {
    hide IsField, IsLine, ParseHeaders, ReadFields, Lines, LineText, FieldLines;
    FieldLinesRead(fields);
    var lines := [start] + FieldLines(fields);
    LinesOfWritten(lines);
    StartIsPlain(start);
    assert lines[1..] == FieldLines(fields);
    var text := LineText(lines);
    assert text == text[..|text| - 2] + CRLF;
    assert text + CRLF == text[..|text| - 2] + "\r\n\r\n";
    assert (text + CRLF)[..|text|] == text;
  }

  /** A header that occurs once is the one found, counted and split. */
  lemma {:induction false} OnlyHeader(headers: seq<Header>, i: nat, name: string)
    requires i < |headers| && headers[i].0 == name
    requires forall j :: 0 <= j < |headers| && j != i ==> headers[j].0 != name
    ensures Find(headers, name) == Some(headers[i].1) && Count(headers, name) == 1
    ensures Tokens(headers, name) == SplitTokens(headers[i].1)
  {
    if i == 0 {
      NoHeader(headers[1..], name);
      assert SplitTokens(headers[0].1) + [] == SplitTokens(headers[0].1);
    } else {
      OnlyHeader(headers[1..], i - 1, name);
    }
  }

  /** The same, told apart by the lengths of the names alone. */
  lemma OnlyOfItsLength(headers: seq<Header>, i: nat, name: string, value: string)
    requires i < |headers| && headers[i] == (name, value)
    requires forall j :: 0 <= j < |headers| && j != i ==> |headers[j].0| != |name|
    ensures Find(headers, name) == Some(value) && Count(headers, name) == 1
    ensures Tokens(headers, name) == SplitTokens(value)
  {
    OnlyHeader(headers, i, name);
  }

  lemma {:induction false} NoHeader(headers: seq<Header>, name: string)
    requires forall j :: 0 <= j < |headers| ==> headers[j].0 != name
    ensures Find(headers, name) == None && Count(headers, name) == 0 && Tokens(headers, name) == []
  {
    if headers != [] {
      NoHeader(headers[1..], name);
    }
  }

  // ---- The two ends accept each other ----

  /** What a client must be configured with for its request to be a request. */
  ghost predicate IsRequestable(host: string, path: string, nonce: bytes) {
    IsLine(host) && IsLine(path) && path != "" && ' ' !in path && |nonce| == 16
  }

  lemma RequestLineReads(path: string)
    requires path != "" && ' ' !in path
    ensures RequestParts(RequestLine(path)) == Some(("GET", path))
  {
    hide IndexOf;
    var rest := path + " HTTP/1.1";
    assert RequestLine(path) == "GET" + (" " + rest);
    assert rest == path + (" " + "HTTP/1.1");
    SplitsAtSpace("GET", rest);
    SplitsAtSpace(path, "HTTP/1.1");
  }

  lemma SplitsAtSpace(a: string, b: string)
    requires ' ' !in a
    ensures var s := a + (" " + b); (IndexOf(s, ' ') == |a| < |s| && s[..|a|] == a && s[|a| + 1..] == b)
  {
    var s := a + (" " + b);
    assert forall k :: 0 <= k < |a| ==> s[k] == a[k];
    FirstAt(s, ' ', |a|);
  }

  lemma FirstAt(s: string, c: char, i: nat)
    requires i < |s| && s[i] == c && forall k :: 0 <= k < i ==> s[k] != c
    ensures IndexOf(s, c) == i
  {
  }

  lemma DigitsAreTrimmed(s: string)
    requires forall i :: 0 <= i < |s| ==> s[i] == '=' || Base64.DigitValue(s[i]).Some?
    ensures IsLine(s) && IsTrimmed(s) && IsOctets(s)
  {
  }

  lemma {:induction false} EncodedDigits(b: bytes)
    ensures forall i :: 0 <= i < |Base64.Encoded(b)| ==>
              Base64.Encoded(b)[i] == '=' || Base64.DigitValue(Base64.Encoded(b)[i]).Some?
  {
    if |b| >= 3 {
      EncodedDigits(b[3..]);
    }
  }

  /** The fixed names and values of both messages, as the reader lowers and trims them. */
  lemma FixedNames()
    ensures Lower("Host") == "host" && Lower("Upgrade") == "upgrade" && Lower("Connection") == "connection"
    ensures Lower("Sec-WebSocket-Key") == "sec-websocket-key"
    ensures Lower("Sec-WebSocket-Version") == "sec-websocket-version"
    ensures Lower("Sec-WebSocket-Protocol") == "sec-websocket-protocol"
    ensures Lower("Sec-WebSocket-Accept") == "sec-websocket-accept"
    ensures Lower("websocket") == "websocket"
  {
    hide Lower;
    ShortNames();
    ProtocolName();
    AcceptName();
    OwnNames();
  }

  lemma ShortNames()
    ensures Lower("Host") == "host" && Lower("Upgrade") == "upgrade" && Lower("Connection") == "connection"
    ensures Lower("websocket") == "websocket"
  {
  }

  lemma OwnNames()
    ensures Lower("Sec-WebSocket-Key") == "sec-websocket-key"
    ensures Lower("Sec-WebSocket-Version") == "sec-websocket-version"
  {
  }

  lemma ProtocolName()
    ensures Lower("Sec-WebSocket-Protocol") == "sec-websocket-protocol"
  {
  }

  lemma AcceptName()
    ensures Lower("Sec-WebSocket-Accept") == "sec-websocket-accept"
  {
  }

  lemma WordIsFound(word: string, lower: string)
    requires word != "" && IsTrimmed(word) && ',' !in word && Lower(word) == lower
    ensures ContainsToken(SplitTokens(Trim(word)), lower)
  {
    TrimKeeps(word);
    WordIsOneToken(word);
    assert word in [word];
  }

  /** The fields both messages carry, and those only one does. */
  lemma SharedFieldsRead()
    ensures IsField(("Upgrade", "websocket")) && IsField(("Connection", "Upgrade"))
    ensures IsField(("Sec-WebSocket-Protocol", SUBPROTOCOL))
  {
    hide IsField;
    UpgradeFieldsRead();
    ProtocolFieldIsRead();
  }

  lemma UpgradeFieldsRead()
    ensures IsField(("Upgrade", "websocket")) && IsField(("Connection", "Upgrade"))
  {
  }

  lemma ProtocolFieldIsRead()
    ensures IsField(("Sec-WebSocket-Protocol", SUBPROTOCOL))
  {
  }

  lemma OwnFieldsRead(value: string)
    requires IsLine(value)
    ensures IsField(("Host", value)) && IsField(("Sec-WebSocket-Key", value)) && IsField(("Sec-WebSocket-Accept", value))
    ensures IsField(("Sec-WebSocket-Version", "13"))
  {
  }

  lemma RequestFieldsRead(host: string, key: string)
    requires IsLine(host) && IsLine(key)
    ensures forall f :: f in RequestFields(host, key) ==> IsField(f)
  {
    hide IsField, IsLine;
    SharedFieldsRead();
    OwnFieldsRead(host);
    OwnFieldsRead(key);
  }

  /** The names of the request's headers, which differ in length. */
  ghost predicate RequestNames(headers: seq<Header>) {
    |headers| == 6 && forall j :: 0 <= j < 6 ==> |headers[j].0| == [4, 7, 10, 17, 21, 22][j]
  }

  lemma RequestUpgrades(headers: seq<Header>)
    requires RequestNames(headers)
    requires headers[1] == ("upgrade", "websocket") && headers[2] == ("connection", "Upgrade")
    ensures ContainsToken(Tokens(headers, "upgrade"), "websocket")
    ensures ContainsToken(Tokens(headers, "connection"), "upgrade")
  {
    hide Tokens, ContainsToken, SplitTokens, Lower, Trim;
    OnlyOfItsLength(headers, 1, "upgrade", "websocket");
    OnlyOfItsLength(headers, 2, "connection", "Upgrade");
    UpgradeWords();
  }

  lemma RequestOffers(headers: seq<Header>)
    requires RequestNames(headers)
    requires headers[0].0 == "host" && headers[5] == ("sec-websocket-protocol", SUBPROTOCOL)
    ensures Find(headers, "origin") == None && Count(headers, "host") == 1
    ensures SUBPROTOCOL in Tokens(headers, "sec-websocket-protocol")
  {
    assert |"origin"| == 6;
    NoHeader(headers, "origin");
    OnlyOfItsLength(headers, 0, "host", headers[0].1);
    OnlyOfItsLength(headers, 5, "sec-websocket-protocol", SUBPROTOCOL);
    ProtocolWord();
  }

  lemma RequestKeys(headers: seq<Header>, key: string)
    requires RequestNames(headers)
    requires headers[3] == ("sec-websocket-key", key) && headers[4] == ("sec-websocket-version", "13")
    ensures Find(headers, "sec-websocket-key") == Some(key) && Count(headers, "sec-websocket-key") == 1
    ensures Find(headers, "sec-websocket-version") == Some("13") && Count(headers, "sec-websocket-version") == 1
  {
    OnlyOfItsLength(headers, 3, "sec-websocket-key", key);
    OnlyOfItsLength(headers, 4, "sec-websocket-version", "13");
  }

  /** The fixed values are each their own one token. */
  lemma UpgradeWords()
    ensures ContainsToken(SplitTokens("websocket"), "websocket") && Trim("websocket") == "websocket"
    ensures ContainsToken(SplitTokens("Upgrade"), "upgrade") && Trim("Upgrade") == "Upgrade"
  {
    hide Lower, SplitTokens, ContainsToken, Trim;
    FixedNames();
    TrimKeeps("websocket");
    TrimKeeps("Upgrade");
    WordIsFound("websocket", "websocket");
    WordIsFound("Upgrade", "upgrade");
  }

  lemma ProtocolWord()
    ensures SUBPROTOCOL in SplitTokens(SUBPROTOCOL) && Trim(SUBPROTOCOL) == SUBPROTOCOL && Trim("13") == "13"
  {
    TrimKeeps("13");
    TrimKeeps(SUBPROTOCOL);
    assert forall i :: 0 <= i < |SUBPROTOCOL| ==> SUBPROTOCOL[i] != ',';
    WordIsOneToken(SUBPROTOCOL);
    assert SUBPROTOCOL in [SUBPROTOCOL];
  }

  ghost predicate AreRequestHeaders(headers: seq<Header>, key: string) {
    && RequestNames(headers) && headers[0].0 == "host"
    && headers[1] == ("upgrade", "websocket") && headers[2] == ("connection", "Upgrade")
    && headers[3] == ("sec-websocket-key", key) && headers[4] == ("sec-websocket-version", "13")
    && headers[5] == ("sec-websocket-protocol", SUBPROTOCOL)
  }

  lemma RequestNamesAre(headers: seq<Header>)
    requires |headers| == 6 && headers[0].0 == "host" && headers[1].0 == "upgrade" && headers[2].0 == "connection"
    requires headers[3].0 == "sec-websocket-key" && headers[4].0 == "sec-websocket-version"
    requires headers[5].0 == "sec-websocket-protocol"
    ensures RequestNames(headers)
  {
    forall j | 0 <= j < 6
      ensures |headers[j].0| == [4, 7, 10, 17, 21, 22][j]
    {
      if j == 0 || j == 1 || j == 2 {} else if j == 3 || j == 4 {}
    }
  }

  lemma RequestFieldsAre(host: string, key: string)
    requires IsTrimmed(key)
    ensures AreRequestHeaders(ReadFields(RequestFields(host, key)), key)
  {
    var fields, headers := RequestFields(host, key), ReadFields(RequestFields(host, key));
    FixedNames();
    assert headers[0].0 == "host" && headers[1].0 == "upgrade" && headers[2].0 == "connection";
    assert headers[3].0 == "sec-websocket-key" && headers[4].0 == "sec-websocket-version";
    assert headers[5].0 == "sec-websocket-protocol";
    RequestNamesAre(headers);
    RequestValuesAre(fields, headers, key);
  }

  lemma RequestValuesAre(fields: seq<Header>, headers: seq<Header>, key: string)
    requires IsTrimmed(key) && |headers| == |fields| == 6
    requires forall i :: 0 <= i < 6 ==> headers[i].1 == Trim(fields[i].1)
    requires fields[1].1 == "websocket" && fields[2].1 == "Upgrade" && fields[3].1 == key
    requires fields[4].1 == "13" && fields[5].1 == SUBPROTOCOL
    ensures headers[1].1 == "websocket" && headers[2].1 == "Upgrade" && headers[3].1 == key
    ensures headers[4].1 == "13" && headers[5].1 == SUBPROTOCOL
  {
    UpgradeWords();
    ProtocolWord();
    TrimKeeps(key);
  }

  lemma RequestHeadersAccepted(sha1: string -> bytes, headers: seq<Header>, nonce: bytes, path: string,
                               allowed: seq<string>)
    requires |nonce| == 16 && AreRequestHeaders(headers, Base64.Encoded(nonce))
    ensures AnswerRequest(sha1, "GET", path, headers, path, allowed)
         == Answer(NoRefusal, 101, WriteUpgradeResponse(AcceptKey(sha1, Base64.Encoded(nonce))), "")
  {
    hide RequestNames, Tokens, ContainsToken, SplitTokens, Lower, Find, Count, Base64.Encoded, Base64.Decoded, AcceptKey,
         WriteUpgradeResponse;
    RequestUpgrades(headers);
    RequestOffers(headers);
    RequestKeys(headers, Base64.Encoded(nonce));
    Base64.DecodedOfEncoded(nonce);
  }

  /** The server accepts what the client writes, and answers its key. */
  lemma RequestIsAccepted(sha1: string -> bytes, host: string, path: string, nonce: bytes, allowed: seq<string>)
    requires IsRequestable(host, path, nonce)
    ensures var key := Base64.Encoded(nonce);
            (AnswerUpgrade(sha1, WriteUpgradeRequest(host, path, key), path, allowed)
             == Answer(NoRefusal, 101, WriteUpgradeResponse(AcceptKey(sha1, key)), ""))
  {
    var key := Base64.Encoded(nonce);
    EncodedDigits(nonce);
    DigitsAreTrimmed(key);
    RequestFieldsRead(host, key);
    MessageReads(RequestLine(path), RequestFields(host, key));
    RequestLineReads(path);
    RequestFieldsAre(host, key);
    RequestHeadersAccepted(sha1, ReadFields(RequestFields(host, key)), nonce, path, allowed);
  }

  ghost predicate AreResponseHeaders(headers: seq<Header>, accept: string) {
    && |headers| == 4 && (forall j :: 0 <= j < 4 ==> |headers[j].0| == [7, 10, 20, 22][j])
    && headers[0] == ("upgrade", "websocket") && headers[1] == ("connection", "Upgrade")
    && headers[2] == ("sec-websocket-accept", accept)
    && headers[3] == ("sec-websocket-protocol", SUBPROTOCOL)
  }

  lemma ResponseFieldsAre(accept: string)
    requires IsTrimmed(accept)
    ensures AreResponseHeaders(ReadFields(ResponseFields(accept)), accept)
  {
    hide Lower, SplitTokens, ContainsToken, Trim;
    FixedNames();
    UpgradeWords();
    ProtocolWord();
    TrimKeeps(accept);
  }

  lemma ResponseUpgrades(headers: seq<Header>, accept: string)
    requires AreResponseHeaders(headers, accept)
    ensures ContainsToken(Tokens(headers, "upgrade"), "websocket")
    ensures ContainsToken(Tokens(headers, "connection"), "upgrade")
  {
    OnlyOfItsLength(headers, 0, "upgrade", "websocket");
    OnlyOfItsLength(headers, 1, "connection", "Upgrade");
    UpgradeWords();
  }

  /** The written answer completes the upgrade for the accept value it carries, and for no other. */
  lemma ResponseHeadersComplete(headers: seq<Header>, accept: string, expected: string)
    requires AreResponseHeaders(headers, accept)
    ensures HeadersComplete(headers, expected) <==> expected == accept
  {
    hide Find, Count, Tokens, SplitTokens, ContainsToken;
    ResponseUpgrades(headers, accept);
    assert |"sec-websocket-extensions"| == 24;
    NoHeader(headers, "sec-websocket-extensions");
    OnlyOfItsLength(headers, 2, "sec-websocket-accept", accept);
    OnlyOfItsLength(headers, 3, "sec-websocket-protocol", SUBPROTOCOL);
  }

  lemma ResponseFieldsRead(accept: string)
    requires IsLine(accept)
    ensures forall f :: f in ResponseFields(accept) ==> IsField(f)
    ensures IsLine(RESPONSE_LINE) && ResponseStatus(RESPONSE_LINE) == Some(101)
  {
    hide IsField;
    SharedFieldsRead();
    OwnFieldsRead(accept);
    assert RESPONSE_LINE[..9] == "HTTP/1.1 ";
  }

  /** A client takes an answer exactly when it was given to a key that hashes as its own does. */
  lemma AnswerIsForItsKey(sha1: string -> bytes, answered: string, key: string)
    ensures CheckUpgradeResponse(sha1, WriteUpgradeResponse(AcceptKey(sha1, answered)), key)
         == (sha1(answered + ACCEPT_GUID) == sha1(key + ACCEPT_GUID), 101)
  {
    hide HeadersComplete;
    var accept := AcceptKey(sha1, answered);
    EncodedDigits(sha1(answered + ACCEPT_GUID));
    DigitsAreTrimmed(accept);
    ResponseFieldsRead(accept);
    MessageReads(RESPONSE_LINE, ResponseFields(accept));
    ResponseFieldsAre(accept);
    ResponseHeadersComplete(ReadFields(ResponseFields(accept)), accept, AcceptKey(sha1, key));
    Base64.DecodedOfEncoded(sha1(answered + ACCEPT_GUID));
    Base64.DecodedOfEncoded(sha1(key + ACCEPT_GUID));
  }

  /** The client accepts what the server answers. */
  lemma ResponseIsAccepted(sha1: string -> bytes, key: string)
    ensures CheckUpgradeResponse(sha1, WriteUpgradeResponse(AcceptKey(sha1, key)), key) == (true, 101)
  {
    AnswerIsForItsKey(sha1, key, key);
  }

  // ---- Both messages as the heads of their streams ----

  lemma {:induction false} FieldLinesAreOctets(fields: seq<Header>)
    requires forall f :: f in fields ==> IsOctets(f.0) && IsOctets(f.1)
    ensures forall l :: l in FieldLines(fields) ==> IsOctets(l)
  {
    if fields != [] {
      assert fields[0] in fields;
      FieldLinesAreOctets(fields[1..]);
    }
  }

  lemma {:induction false} LinesAreOctets(lines: seq<string>)
    requires forall l :: l in lines ==> IsOctets(l)
    ensures IsOctets(LineText(lines)) && IsOctets(WriteHead(lines))
  {
    if lines != [] {
      assert lines[0] in lines;
      LinesAreOctets(lines[1..]);
    }
  }

  /** The fixed names and values are plain ASCII. */
  lemma SharedNamesAreOctets()
    ensures IsOctets("Upgrade") && IsOctets("Connection") && IsOctets("websocket")
    ensures IsOctets("Sec-WebSocket-Protocol") && IsOctets(SUBPROTOCOL)
  {
  }

  lemma OwnNamesAreOctets()
    ensures IsOctets("Host") && IsOctets("Sec-WebSocket-Key") && IsOctets("Sec-WebSocket-Version") && IsOctets("13")
    ensures IsOctets("Sec-WebSocket-Accept") && IsOctets(RESPONSE_LINE)
  {
  }

  lemma RequestFieldsAreOctets(host: string, key: string)
    requires IsOctets(host) && IsOctets(key)
    ensures forall f :: f in RequestFields(host, key) ==> IsOctets(f.0) && IsOctets(f.1)
  {
    hide IsOctets;
    SharedNamesAreOctets();
    OwnNamesAreOctets();
  }

  lemma ResponseFieldsAreOctets(key: string)
    requires IsOctets(key)
    ensures forall f :: f in ResponseFields(key) ==> IsOctets(f.0) && IsOctets(f.1)
    ensures IsOctets(RESPONSE_LINE)
  {
    hide IsOctets;
    SharedNamesAreOctets();
    OwnNamesAreOctets();
  }

  lemma RequestLineIsLine(path: string)
    requires IsLine(path) && IsOctets(path)
    ensures IsLine(RequestLine(path)) && IsOctets(RequestLine(path)) && RequestLine(path) != ""
  {
  }

  lemma RequestOctets(host: string, path: string, nonce: bytes)
    requires IsRequestable(host, path, nonce) && IsOctets(host) && IsOctets(path)
    ensures IsOctets(WriteUpgradeRequest(host, path, Base64.Encoded(nonce)))
    ensures forall l :: l in [RequestLine(path)] + FieldLines(RequestFields(host, Base64.Encoded(nonce))) ==>
              IsLine(l) && l != "" && IsOctets(l)
  {
    hide RequestFields, RequestLine, FieldLines, LineText, WriteHead, IsLine, IsOctets, ParseHeaders;
    var key := Base64.Encoded(nonce);
    EncodedDigits(nonce);
    DigitsAreTrimmed(key);
    RequestFieldsRead(host, key);
    FieldLinesRead(RequestFields(host, key));
    RequestFieldsAreOctets(host, key);
    FieldLinesAreOctets(RequestFields(host, key));
    RequestLineIsLine(path);
    LinesAreOctets([RequestLine(path)] + FieldLines(RequestFields(host, key)));
  }

  lemma RequestHeadEnd(host: string, path: string, nonce: bytes, rest: bytes)
    requires IsRequestable(host, path, nonce) && IsOctets(host) && IsOctets(path)
    ensures var head := WriteUpgradeRequest(host, path, Base64.Encoded(nonce));
            FindHeadEnd(Octets(head) + rest) == |head| >= 4
  {
    RequestOctets(host, path, nonce);
    HeadEndOfWritten([RequestLine(path)] + FieldLines(RequestFields(host, Base64.Encoded(nonce))), rest);
  }

  lemma ResponseOctets(sha1: string -> bytes, key: string)
    ensures IsOctets(WriteUpgradeResponse(AcceptKey(sha1, key)))
    ensures forall l :: l in [RESPONSE_LINE] + FieldLines(ResponseFields(AcceptKey(sha1, key))) ==>
              IsLine(l) && l != "" && IsOctets(l)
  {
    hide ResponseFields, FieldLines, LineText, WriteHead, IsLine, IsOctets, ParseHeaders, ResponseStatus;
    var accept := AcceptKey(sha1, key);
    EncodedDigits(sha1(key + ACCEPT_GUID));
    DigitsAreTrimmed(accept);
    ResponseFieldsRead(accept);
    FieldLinesRead(ResponseFields(accept));
    ResponseFieldsAreOctets(accept);
    FieldLinesAreOctets(ResponseFields(accept));
    LinesAreOctets([RESPONSE_LINE] + FieldLines(ResponseFields(accept)));
  }

  lemma ResponseHeadEnd(sha1: string -> bytes, key: string, rest: bytes)
    ensures var head := WriteUpgradeResponse(AcceptKey(sha1, key));
            FindHeadEnd(Octets(head) + rest) == |head| >= 4
  {
    ResponseOctets(sha1, key);
    HeadEndOfWritten([RESPONSE_LINE] + FieldLines(ResponseFields(AcceptKey(sha1, key))), rest);
  }

  lemma {:induction false} EncodedLength(b: bytes)
    ensures |Base64.Encoded(b)| == (|b| + 2) / 3 * 4
  {
    hide Base64.Group;
    if |b| >= 3 {
      EncodedLength(b[3..]);
    }
  }

  lemma LineTextLength(lines: seq<string>)
    requires lines != []
    ensures |LineText(lines)| == |lines[0]| + 2 + |LineText(lines[1..])|
  {
  }

  /** With a 20-byte digest the answer is far below the bound on a head. */
  lemma ResponseIsShort(sha1: string -> bytes, key: string)
    requires |sha1(key + ACCEPT_GUID)| == 20
    ensures |WriteUpgradeResponse(AcceptKey(sha1, key))| <= 8192
  {
    EncodedLength(sha1(key + ACCEPT_GUID));
    var fields := ResponseFields(AcceptKey(sha1, key));
    ShortFields(fields);
    assert |RESPONSE_LINE| == 32;
    LineTextLength([RESPONSE_LINE] + FieldLines(fields));
    assert ([RESPONSE_LINE] + FieldLines(fields))[1..] == FieldLines(fields);
  }

  lemma {:induction false} ShortFields(fields: seq<Header>)
    requires forall f :: f in fields ==> |f.0| + |f.1| <= 60
    ensures |LineText(FieldLines(fields))| <= 64 * |fields|
  {
    if fields != [] {
      assert fields[0] in fields;
      ShortFields(fields[1..]);
      LineTextLength(FieldLines(fields));
      assert FieldLines(fields)[1..] == FieldLines(fields[1..]);
    }
  }
}
