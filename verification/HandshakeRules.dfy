/**
 The rules of the opening handshake on the text itself: which heads are read and as what, when a request
 is answered 101, 400, 403 or 404 and with which bytes, and when a client takes an answer.
 */
module HandshakeRules {
  import opened Bytes
  import opened Handshake
  import Base64

  // ---- The grammar of a head, RFC 7230 sections 3 and 3.2 ----

  predicate IsSpace(c: char) {
    c == ' ' || c == '\t'
  }

  /** `v` is `raw` without the blanks around it. */
  predicate Trims(raw: string, v: string) {
    exists i, j :: 0 <= i <= j <= |raw| && TrimsAt(raw, v, i, j)
  }

  predicate TrimsAt(raw: string, v: string, i: nat, j: nat)
    requires i <= j <= |raw|
  {
    && v == raw[i..j] && (v != "" ==> !IsSpace(v[0]) && !IsSpace(v[|v| - 1]))
    && (forall k :: 0 <= k < i ==> IsSpace(raw[k])) && (forall k :: j <= k < |raw| ==> IsSpace(raw[k]))
  }

  /** The characters of a token. */
  predicate IsTchar(c: char) {
    c in "!#$%&'*+-.^_`|~" || c in "0123456789" || c in "abcdefghijklmnopqrstuvwxyz" || c in "ABCDEFGHIJKLMNOPQRSTUVWXYZ"
  }

  /** `lower` is `s` with its capitals made small. */
  predicate IsLowered(s: string, lower: string) {
    |s| == |lower| && forall k :: 0 <= k < |s| ==> IsSmall(s[k], lower[k])
  }

  predicate IsSmall(c: char, small: char) {
    if 'A' <= c <= 'Z' then small as int - 'a' as int == c as int - 'A' as int else small == c
  }

  /** A field line: a token, a colon, and the value between blanks. */
  predicate SpellsField(line: string, f: Header) {
    exists colon :: 0 < colon < |line| && line[colon] == ':' && (forall k :: 0 <= k < colon ==> IsTchar(line[k]))
                 && IsLowered(line[..colon], f.0) && Trims(line[colon + 1..], f.1)
  }

  predicate Unbroken(line: string) {
    forall k :: 0 <= k < |line| - 1 ==> !(line[k] == '\r' && line[k + 1] == '\n')
  }

  function Ended(lines: seq<string>): string {
    if lines == [] then "" else lines[0] + "\r\n" + Ended(lines[1..])
  }

  /** A start line, the field lines and an empty line, each ended by CR LF. */
  ghost predicate SpellsHead(head: string, start: string, headers: seq<Header>) {
    exists lines: seq<string> ::
      && head == start + "\r\n" + Ended(lines) + "\r\n" && '\r' !in start && '\n' !in start
      && |lines| == |headers| && forall i :: 0 <= i < |lines| ==> Unbroken(lines[i]) && SpellsField(lines[i], headers[i])
  }

  // ---- Trimming and lowering ----

  lemma {:induction false} LeftIs(s: string) returns (i: nat)
    ensures i <= |s| && TrimLeft(s) == s[i..] && (forall k :: 0 <= k < i ==> IsSpace(s[k]))
    ensures TrimLeft(s) != "" ==> !IsSpace(TrimLeft(s)[0])
  {
    if s != "" && IsBlank(s[0]) {
      var k := LeftIs(s[1..]);
      i := k + 1;
      assert s[1..][k..] == s[i..];
      forall k | 0 <= k < i
        ensures IsSpace(s[k])
      {
        assert k > 0 ==> s[k] == s[1..][k - 1];
      }
    } else {
      i := 0;
    }
  }

  lemma {:induction false} RightIs(s: string) returns (j: nat)
    ensures j <= |s| && TrimRight(s) == s[..j] && (forall k :: j <= k < |s| ==> IsSpace(s[k]))
    ensures TrimRight(s) != "" ==> !IsSpace(TrimRight(s)[|TrimRight(s)| - 1])
  {
    if s != "" && IsBlank(s[|s| - 1]) {
      j := RightIs(s[..|s| - 1]);
      forall k | j <= k < |s|
        ensures IsSpace(s[k])
      {
        assert k < |s| - 1 ==> s[k] == s[..|s| - 1][k];
      }
    } else {
      j := |s|;
    }
  }

  lemma TrimIs(raw: string)
    ensures Trims(raw, Trim(raw))
  {
    var i := LeftIs(raw);
    var left := TrimLeft(raw);
    var n := RightIs(left);
    var j := i + n;
    assert Trim(raw) == raw[i..j];
    forall k | j <= k < |raw|
      ensures IsSpace(raw[k])
    {
      assert raw[k] == left[k - i];
    }
    if Trim(raw) != "" {
      assert Trim(raw)[0] == left[0];
    }
    assert TrimsAt(raw, Trim(raw), i, j);
  }

  lemma TrimsOnce(raw: string, v: string, w: string)
    requires Trims(raw, v) && Trims(raw, w)
    ensures v == w
  {
    var i, j :| 0 <= i <= j <= |raw| && TrimsAt(raw, v, i, j);
    var m, n :| 0 <= m <= n <= |raw| && TrimsAt(raw, w, m, n);
    TrimsWithin(raw, v, i, j, w, m, n);
    TrimsWithin(raw, w, m, n, v, i, j);
  }

  lemma TrimsWithin(raw: string, v: string, i: nat, j: nat, w: string, m: nat, n: nat)
    requires i <= j <= |raw| && TrimsAt(raw, v, i, j) && m <= n <= |raw| && TrimsAt(raw, w, m, n)
    ensures v != "" ==> m <= i && j <= n && w != ""
  {
    if v != "" {
      assert v[0] == raw[i] && v[|v| - 1] == raw[j - 1];
    }
  }

  lemma TrimIff(raw: string, v: string)
    ensures Trim(raw) == v <==> Trims(raw, v)
  {
    hide Trim, Trims;
    TrimIs(raw);
    if Trims(raw, v) {
      TrimsOnce(raw, v, Trim(raw));
    }
  }

  lemma LowerIff(s: string, lower: string)
    ensures Lower(s) == lower <==> IsLowered(s, lower)
  {
    forall k | 0 <= k < |s|
      ensures IsSmall(s[k], Lower(s)[k])
    {
      assert 'A' <= s[k] <= 'Z' ==> Lower(s)[k] as int == s[k] as int + 32;
    }
    if IsLowered(s, lower) {
      forall k | 0 <= k < |s|
        ensures lower[k] == Lower(s)[k]
      {
        assert IsSmall(s[k], lower[k]);
        SmallOnce(s[k], lower[k], Lower(s)[k]);
      }
    }
  }

  lemma SmallOnce(c: char, d: char, e: char)
    requires IsSmall(c, d) && IsSmall(c, e)
    ensures d == e
  {
    assert d as int == e as int;
  }

  lemma TcharIs(c: char)
    ensures IsTokenChar(c) <==> IsTchar(c)
  {
    SmallLetters(c);
    CapitalLetters(c);
    Digits(c);
  }

  lemma SmallLetters(c: char)
    ensures 'a' <= c <= 'z' <==> c in "abcdefghijklmnopqrstuvwxyz"
  {
    var s := "abcdefghijklmnopqrstuvwxyz";
    if 'a' <= c <= 'z' {
      assert s[c as int - 'a' as int] == c;
    }
  }

  lemma CapitalLetters(c: char)
    ensures 'A' <= c <= 'Z' <==> c in "ABCDEFGHIJKLMNOPQRSTUVWXYZ"
  {
    var s := "ABCDEFGHIJKLMNOPQRSTUVWXYZ";
    if 'A' <= c <= 'Z' {
      assert s[c as int - 'A' as int] == c;
    }
  }

  lemma Digits(c: char)
    ensures '0' <= c <= '9' <==> c in "0123456789"
  {
    var s := "0123456789";
    if '0' <= c <= '9' {
      assert s[c as int - '0' as int] == c;
    }
  }

  // ---- Heads ----

  lemma FieldIff(line: string, f: Header)
    ensures ParseHeader(line) == Some(f) <==> SpellsField(line, f)
  {
    hide Trim, Trims, Lower, IsLowered, IsTokenChar, IsTchar;
    forall c
      ensures IsTokenChar(c) <==> IsTchar(c)
    {
      TcharIs(c);
    }
    var colon := IndexOf(line, ':');
    if colon < |line| {
      LowerIff(line[..colon], f.0);
      TrimIff(line[colon + 1..], f.1);
      assert forall k :: 0 <= k < colon ==> line[k] == line[..colon][k];
    }
    NoColon();
    if at :| 0 < at < |line| && line[at] == ':' && (forall k :: 0 <= k < at ==> IsTchar(line[k]))
             && IsLowered(line[..at], f.0) && Trims(line[at + 1..], f.1) {
      forall k | 0 <= k < colon
        ensures line[k] != ':'
      {
        assert line[k] in line[..colon];
      }
      assert at == colon;
    }
  }

  lemma NoColon()
    ensures !IsTchar(':')
  {
  }

  lemma {:induction false} BreakIs(s: string)
    ensures var i := FindCrLf(s);
            && (forall k :: 0 <= k < i && k + 1 < |s| ==> !(s[k] == '\r' && s[k + 1] == '\n'))
            && (i < |s| ==> s[i] == '\r' && s[i + 1] == '\n')
  {
    if |s| >= 2 && !(s[0] == '\r' && s[1] == '\n') {
      BreakIs(s[1..]);
      var i := FindCrLf(s);
      forall k | 0 <= k < i && k + 1 < |s|
        ensures !(s[k] == '\r' && s[k + 1] == '\n')
      {
        if k > 0 {
          assert s[k] == s[1..][k - 1] && s[k + 1] == s[1..][k];
        }
      }
    }
  }

  lemma BreakAfter(line: string, rest: string)
    requires Unbroken(line)
    ensures FindCrLf(line + "\r\n" + rest) == |line|
  {
    var s := line + "\r\n" + rest;
    BreakIs(s);
    assert s[|line|] == '\r' && s[|line| + 1] == '\n';
    forall k | 0 <= k < |line|
      ensures !(s[k] == '\r' && s[k + 1] == '\n')
    {
      assert s[k] == line[k];
      assert k + 1 < |line| ==> s[k + 1] == line[k + 1];
    }
  }

  lemma {:induction false} LinesOfEnded(lines: seq<string>)
    requires forall l :: l in lines ==> Unbroken(l)
    ensures Lines(Ended(lines)) == lines
  {
    if lines != [] {
      assert lines[0] in lines;
      var s := Ended(lines);
      BreakAfter(lines[0], Ended(lines[1..]));
      assert s[..|lines[0]|] == lines[0] && s[|lines[0]| + 2..] == Ended(lines[1..]);
      LinesOfEnded(lines[1..]);
    }
  }

  predicate EndsBroken(s: string) {
    s == "" || (|s| >= 2 && s[|s| - 2] == '\r' && s[|s| - 1] == '\n')
  }

  lemma HasBreak(s: string)
    requires EndsBroken(s) && s != ""
    ensures FindCrLf(s) <= |s| - 2
  {
    hide FindCrLf;
    BreakIs(s);
  }

  /** The first line of a text that ends with a break, and what follows it. */
  lemma FirstLine(s: string)
    requires EndsBroken(s) && s != ""
    ensures var i := FindCrLf(s);
            && i + 2 <= |s| && Unbroken(s[..i]) && s == s[..i] + "\r\n" + s[i + 2..] && EndsBroken(s[i + 2..])
  {
    hide FindCrLf, EndsBroken;
    BreakIs(s);
    var i := FindCrLf(s);
    var line := s[..i];
    assert i <= |s| - 2 by { HasBreak(s); }
    BehindBreak(s, i);
    forall k | 0 <= k < |line| - 1
      ensures !(line[k] == '\r' && line[k + 1] == '\n')
    {
      assert line[k] == s[k] && line[k + 1] == s[k + 1];
    }
    BreakSplits(s, i);
  }

  lemma BreakSplits(s: string, i: nat)
    requires i + 2 <= |s| && s[i] == '\r' && s[i + 1] == '\n'
    ensures s == s[..i] + "\r\n" + s[i + 2..]
  {
    assert s[i..i + 2] == "\r\n";
    assert s == s[..i] + s[i..i + 2] + s[i + 2..];
  }

  lemma BehindBreak(s: string, i: nat)
    requires EndsBroken(s) && i + 2 <= |s| && s[i + 1] == '\n'
    ensures EndsBroken(s[i + 2..])
  {
    var rest := s[i + 2..];
    assert |rest| != 1;
    assert |rest| >= 2 ==> rest[|rest| - 2] == s[|s| - 2] && rest[|rest| - 1] == s[|s| - 1];
  }

  lemma {:induction false} EndedOfLines(s: string)
    requires EndsBroken(s)
    ensures Ended(Lines(s)) == s && forall l :: l in Lines(s) ==> Unbroken(l)
    decreases |s|
  {
    hide FindCrLf, Unbroken, EndsBroken;
    if s == "" {
      assert Lines(s) == [];
    } else {
      FirstLine(s);
      var i := FindCrLf(s);
      var line, rest := s[..i], s[i + 2..];
      EndedOfLines(rest);
      assert Lines(s) == [line] + Lines(rest);
      assert Ended(Lines(s)) == line + "\r\n" + Ended(Lines(rest));
    }
  }

  lemma {:induction false} FieldsIff(lines: seq<string>, headers: seq<Header>)
    ensures ParseHeaders(lines) == Some(headers) <==>
              |lines| == |headers| && forall i :: 0 <= i < |lines| ==> SpellsField(lines[i], headers[i])
  {
    hide ParseHeader, SpellsField;
    if lines != [] && headers != [] {
      FieldIff(lines[0], headers[0]);
      FieldsIff(lines[1..], headers[1..]);
      assert headers == [headers[0]] + headers[1..];
      if |lines| == |headers| && forall i :: 0 <= i < |lines| ==> SpellsField(lines[i], headers[i]) {
        forall i | 0 <= i < |lines[1..]|
          ensures SpellsField(lines[1..][i], headers[1..][i])
        {
          assert SpellsField(lines[i + 1], headers[i + 1]);
        }
      }
      if |lines[1..]| == |headers[1..]| && SpellsField(lines[0], headers[0])
         && forall i :: 0 <= i < |lines[1..]| ==> SpellsField(lines[1..][i], headers[1..][i]) {
        forall i | 0 <= i < |lines|
          ensures SpellsField(lines[i], headers[i])
        {
          assert i > 0 ==> lines[i] == lines[1..][i - 1] && headers[i] == headers[1..][i - 1];
        }
      }
    }
  }

  lemma LinesOfHead(head: string)
    requires |head| >= 4 && head[|head| - 4..] == "\r\n\r\n"
    ensures Ended(Lines(head[..|head| - 2])) == head[..|head| - 2]
    ensures forall l :: l in Lines(head[..|head| - 2]) ==> Unbroken(l)
    ensures head == head[..|head| - 2] + "\r\n"
  {
    var s := head[..|head| - 2];
    assert s[|s| - 2] == head[|head| - 4..][0] && s[|s| - 1] == head[|head| - 4..][1];
    EndedOfLines(s);
  }

  lemma HeadIsSpelled(head: string)
    requires ParseHeadLines(head).Some?
    ensures var h := ParseHeadLines(head).value; SpellsHead(head, h.start, h.headers)
  {
    hide ParseHeaders, Lines, SpellsField, Unbroken;
    LinesOfHead(head);
    var h := ParseHeadLines(head).value;
    var all := Lines(head[..|head| - 2]);
    var lines := all[1..];
    FieldsIff(lines, h.headers);
    assert all == [h.start] + lines;
    assert Ended(all) == h.start + "\r\n" + Ended(lines);
    forall i | 0 <= i < |lines|
      ensures Unbroken(lines[i])
    {
      assert lines[i] in all;
    }
  }

  lemma SpelledIsHead(head: string, start: string, headers: seq<Header>)
    requires SpellsHead(head, start, headers)
    ensures ParseHeadLines(head) == Some(Head(start, headers))
  {
    hide ParseHeaders, Lines, SpellsField;
    var lines: seq<string> :|
      && head == start + "\r\n" + Ended(lines) + "\r\n" && '\r' !in start && '\n' !in start
      && |lines| == |headers| && forall i :: 0 <= i < |lines| ==> Unbroken(lines[i]) && SpellsField(lines[i], headers[i]);
    var s := head[..|head| - 2];
    assert s == start + "\r\n" + Ended(lines) == Ended([start] + lines) by {
      assert ([start] + lines)[1..] == lines;
    }
    LinesOfEnded([start] + lines);
    FieldsIff(lines, headers);
    assert ([start] + lines)[1..] == lines;
    EndsTwice(start, lines);
  }

  lemma EndsTwice(start: string, lines: seq<string>)
    ensures var head := start + "\r\n" + Ended(lines) + "\r\n"; |head| >= 4 && head[|head| - 4..] == "\r\n\r\n"
  {
    var s := start + "\r\n" + Ended(lines);
    EndsInBreak([start] + lines);
    assert ([start] + lines)[1..] == lines;
    assert s == Ended([start] + lines);
    var head := s + "\r\n";
    assert head[|head| - 4..] == s[|s| - 2..] + "\r\n";
  }

  lemma {:induction false} EndsInBreak(lines: seq<string>)
    requires lines != []
    ensures |Ended(lines)| >= 2 && Ended(lines)[|Ended(lines)| - 2..] == "\r\n"
  {
    if |lines| > 1 {
      EndsInBreak(lines[1..]);
      var rest := Ended(lines[1..]);
      assert Ended(lines)[|Ended(lines)| - 2..] == rest[|rest| - 2..];
    } else {
      assert Ended(lines[1..]) == "";
    }
  }

  /** A text is read as a head exactly when it spells it. */
  lemma HeadIff(head: string, start: string, headers: seq<Header>)
    ensures ParseHeadLines(head) == Some(Head(start, headers)) <==> SpellsHead(head, start, headers)
  {
    hide ParseHeadLines, SpellsHead;
    if ParseHeadLines(head) == Some(Head(start, headers)) {
      HeadIsSpelled(head);
    } else if SpellsHead(head, start, headers) {
      SpelledIsHead(head, start, headers);
    }
  }

  predicate EmptyLineAt(u: bytes, k: nat) {
    k + 4 <= |u| && u[k] == 13 && u[k + 1] == 10 && u[k + 2] == 13 && u[k + 3] == 10
  }

  /** The head of a stream ends behind the first empty line. */
  lemma {:induction false} HeadEndIs(u: bytes)
    ensures var n := FindHeadEnd(u);
            if n == 0 then forall k :: !EmptyLineAt(u, k)
            else n >= 4 && EmptyLineAt(u, n - 4) && forall k :: 0 <= k < n - 4 ==> !EmptyLineAt(u, k)
  {
    if |u| >= 4 && !EmptyLineAt(u, 0) {
      HeadEndIs(u[1..]);
      forall k: nat | k > 0
        ensures EmptyLineAt(u, k) <==> EmptyLineAt(u[1..], k - 1)
      {
      }
    }
  }

  // ---- Fields and list items, RFC 7230 section 7 ----

  predicate HasField(headers: seq<Header>, name: string) {
    exists i :: 0 <= i < |headers| && headers[i].0 == name
  }

  /** The first field of this name has this value. */
  predicate FirstField(headers: seq<Header>, name: string, value: string) {
    exists i :: 0 <= i < |headers| && headers[i] == (name, value) && forall k :: 0 <= k < i ==> headers[k].0 != name
  }

  /** It is the only one of its name. */
  predicate OnlyField(headers: seq<Header>, name: string, value: string) {
    exists i :: 0 <= i < |headers| && headers[i] == (name, value)
             && forall k :: 0 <= k < |headers| && k != i ==> headers[k].0 != name
  }

  /** One of the values between the commas. */
  predicate IsItem(value: string, item: string) {
    exists a, b :: 0 <= a <= b <= |value| && ItemAt(value, item, a, b)
  }

  predicate ItemAt(value: string, item: string, a: nat, b: nat)
    requires a <= b <= |value|
  {
    && item != "" && Trims(value[a..b], item) && ',' !in value[a..b]
    && (a == 0 || value[a - 1] == ',') && (b == |value| || value[b] == ',')
  }

  predicate ListsItem(headers: seq<Header>, name: string, item: string) {
    exists i :: 0 <= i < |headers| && headers[i].0 == name && IsItem(headers[i].1, item)
  }

  /** Some item of the fields of this name is this word, in capitals or small letters. */
  ghost predicate ListsWord(headers: seq<Header>, name: string, word: string) {
    exists item :: ListsItem(headers, name, item) && IsLowered(item, word)
  }

  lemma {:induction false} FirstIff(headers: seq<Header>, name: string, value: string)
    ensures Find(headers, name) == Some(value) <==> FirstField(headers, name, value)
    ensures Find(headers, name).None? <==> !HasField(headers, name)
  {
    if headers != [] {
      var rest := headers[1..];
      FirstIff(rest, name, value);
      if headers[0].0 != name {
        if i :| 0 <= i < |rest| && rest[i] == (name, value) && forall k :: 0 <= k < i ==> rest[k].0 != name {
          assert headers[i + 1] == (name, value);
          assert forall k :: 0 < k < i + 1 ==> headers[k] == rest[k - 1];
        }
        if i :| 0 <= i < |headers| && headers[i] == (name, value) && forall k :: 0 <= k < i ==> headers[k].0 != name {
          assert rest[i - 1] == (name, value);
          assert forall k :: 0 <= k < i - 1 ==> rest[k] == headers[k + 1];
        }
        if i :| 0 <= i < |rest| && rest[i].0 == name {
          assert headers[i + 1].0 == name;
        }
        if i :| 0 <= i < |headers| && headers[i].0 == name {
          assert rest[i - 1].0 == name;
        }
      }
    }
  }

  lemma {:induction false} CountIs(headers: seq<Header>, name: string)
    ensures Count(headers, name) == 0 <==> !HasField(headers, name)
  {
    if headers != [] {
      var rest := headers[1..];
      CountIs(rest, name);
      if i :| 0 <= i < |rest| && rest[i].0 == name {
        assert headers[i + 1].0 == name;
      }
      if headers[0].0 != name {
        if i :| 0 <= i < |headers| && headers[i].0 == name {
          assert rest[i - 1].0 == name;
        }
      }
    }
  }

  lemma {:induction false} OnlyIff(headers: seq<Header>, name: string, value: string)
    ensures Find(headers, name) == Some(value) && Count(headers, name) == 1 <==> OnlyField(headers, name, value)
  {
    if headers != [] {
      var rest := headers[1..];
      if headers[0].0 == name {
        CountIs(rest, name);
        assert HasField(rest, name) <==> exists k :: 0 < k < |headers| && headers[k].0 == name by {
          if i :| 0 <= i < |rest| && rest[i].0 == name {
            assert headers[i + 1].0 == name;
          }
          if k :| 0 < k < |headers| && headers[k].0 == name {
            assert rest[k - 1].0 == name;
          }
        }
      } else {
        OnlyIff(rest, name, value);
        if i :| 0 <= i < |rest| && rest[i] == (name, value) && forall k :: 0 <= k < |rest| && k != i ==> rest[k].0 != name {
          assert headers[i + 1] == (name, value);
          assert forall k :: 0 < k < |headers| ==> headers[k] == rest[k - 1];
        }
        if i :| 0 <= i < |headers| && headers[i] == (name, value) && forall k :: 0 <= k < |headers| && k != i ==> headers[k].0 != name {
          assert rest[i - 1] == (name, value);
          assert forall k :: 0 <= k < |rest| ==> rest[k] == headers[k + 1];
        }
      }
    }
  }

  /** The items of a list are those of what stands before its first comma and of what stands behind it. */
  lemma ItemsSplit(value: string, comma: nat, item: string)
    requires comma <= |value| && ',' !in value[..comma] && (comma < |value| ==> value[comma] == ',')
    ensures IsItem(value, item) <==>
              (item != "" && Trims(value[..comma], item)) || (comma < |value| && IsItem(value[comma + 1..], item))
  {
    hide Trims;
    var rest := if comma < |value| then value[comma + 1..] else "";
    if IsItem(value, item) {
      var a, b :| 0 <= a <= b <= |value| && ItemAt(value, item, a, b);
      NoCommaWithin(value, a, b);
      NoCommaBefore(value, comma);
      if a <= comma {
        assert b <= comma;
        assert b == comma;
        assert a == 0;
        assert value[0..comma] == value[..comma];
      } else {
        BehindComma(value, comma, item, a, b);
      }
    }
    if item != "" && Trims(value[..comma], item) {
      assert value[0..comma] == value[..comma];
      assert ItemAt(value, item, 0, comma);
    }
    if comma < |value| && IsItem(rest, item) {
      var a, b :| 0 <= a <= b <= |rest| && ItemAt(rest, item, a, b);
      assert rest[a..b] == value[a + comma + 1..b + comma + 1];
      assert a > 0 ==> rest[a - 1] == value[a + comma];
      assert b < |rest| ==> rest[b] == value[b + comma + 1];
      assert ItemAt(value, item, a + comma + 1, b + comma + 1);
    }
  }

  lemma BehindComma(value: string, comma: nat, item: string, a: nat, b: nat)
    requires comma < a <= b <= |value| && ItemAt(value, item, a, b) && value[comma] == ','
    ensures IsItem(value[comma + 1..], item)
  {
    hide Trims;
    var rest := value[comma + 1..];
    assert value[a..b] == rest[a - comma - 1..b - comma - 1];
    assert a - comma - 1 > 0 ==> rest[a - comma - 2] == value[a - 1];
    assert b < |value| ==> rest[b - comma - 1] == value[b];
    assert ItemAt(rest, item, a - comma - 1, b - comma - 1);
  }

  lemma NoCommaWithin(value: string, a: nat, b: nat)
    requires a <= b <= |value| && ',' !in value[a..b]
    ensures forall k :: a <= k < b ==> value[k] != ','
  {
    forall k | a <= k < b
      ensures value[k] != ','
    {
      assert value[k] == value[a..b][k - a];
      assert value[k] in value[a..b];
    }
  }

  lemma NoCommaBefore(value: string, comma: nat)
    requires comma <= |value| && ',' !in value[..comma]
    ensures forall k :: 0 <= k < comma ==> value[k] != ','
  {
    forall k | 0 <= k < comma
      ensures value[k] != ','
    {
      assert value[k] in value[..comma];
    }
  }

  lemma {:induction false} ItemsIff(value: string, item: string)
    ensures item in SplitTokens(value) <==> IsItem(value, item)
    decreases |value|
  {
    hide Trims, Trim;
    if value == "" {
      NothingListed(item);
    } else {
      var comma := IndexOf(value, ',');
      var first, rest := Trim(value[..comma]), if comma == |value| then [] else SplitTokens(value[comma + 1..]);
      assert SplitTokens(value) == (if first == "" then [] else [first]) + rest;
      ItemsSplit(value, comma, item);
      TrimIff(value[..comma], item);
      if comma < |value| {
        ItemsIff(value[comma + 1..], item);
      }
    }
  }

  lemma NothingListed(item: string)
    ensures !IsItem("", item)
  {
  }

  lemma {:induction false} ListsIff(headers: seq<Header>, name: string, item: string)
    ensures item in Tokens(headers, name) <==> ListsItem(headers, name, item)
  {
    hide SplitTokens, IsItem;
    if headers != [] {
      var rest := headers[1..];
      ItemsIff(headers[0].1, item);
      ListsIff(rest, name, item);
      if i :| 0 <= i < |rest| && rest[i].0 == name && IsItem(rest[i].1, item) {
        assert headers[i + 1] == rest[i];
      }
      if i :| 0 < i < |headers| && headers[i].0 == name && IsItem(headers[i].1, item) {
        assert headers[i] == rest[i - 1];
      }
    }
  }

  lemma WordIff(headers: seq<Header>, name: string, word: string)
    ensures ContainsToken(Tokens(headers, name), word) <==> ListsWord(headers, name, word)
  {
    hide Tokens, Lower, ListsItem, IsLowered;
    forall item
      ensures item in Tokens(headers, name) <==> ListsItem(headers, name, item)
      ensures Lower(item) == word <==> IsLowered(item, word)
    {
      ListsIff(headers, name, item);
      LowerIff(item, word);
    }
  }

  // ---- When a request is answered how ----

  /** A key of sixteen bytes: twenty-two digits and two of padding. */
  predicate IsKey(key: string) {
    |key| == 24 && key[22..] == "==" && forall k :: 0 <= k < 22 ==> key[k] in Base64.ALPHABET
  }

  /** A request from a page that the server does not let in. */
  ghost predicate IsShutOut(headers: seq<Header>, allowed: seq<string>) {
    HasField(headers, "origin") && forall origin :: origin in allowed ==> !OnlyField(headers, "origin", origin)
  }

  /** All that an upgrade takes, beside its target and its origin. */
  ghost predicate IsUpgrade(verb: string, headers: seq<Header>, key: string) {
    && verb == "GET"
    && ListsWord(headers, "upgrade", "websocket")
    && ListsWord(headers, "connection", "upgrade")
    && (exists host :: OnlyField(headers, "host", host))
    && OnlyField(headers, "sec-websocket-version", "13")
    && OnlyField(headers, "sec-websocket-key", key) && IsKey(key)
    && ListsItem(headers, "sec-websocket-protocol", "openstrata.motion.frame.v1")
  }

  /** A message as it stands on the wire. */
  function OnWire(start: string, fields: seq<Header>): string {
    start + "\r\n" + FieldText(fields) + "\r\n"
  }

  function FieldText(fields: seq<Header>): string {
    if fields == [] then "" else fields[0].0 + ": " + fields[0].1 + "\r\n" + FieldText(fields[1..])
  }

  function Granting(accept: string): string {
    OnWire("HTTP/1.1 101 Switching Protocols",
           [("Upgrade", "websocket"), ("Connection", "Upgrade"), ("Sec-WebSocket-Accept", accept),
            ("Sec-WebSocket-Protocol", "openstrata.motion.frame.v1")])
  }

  /** The four refusals there are; only the first says which version this server speaks. */
  function Refusing(status: nat): string {
    match status
    case 400 =>
      OnWire("HTTP/1.1 400 Bad Request", [("Sec-WebSocket-Version", "13"), ("Connection", "close"), ("Content-Length", "0")])
    case 403 => OnWire("HTTP/1.1 403 Forbidden", [("Connection", "close"), ("Content-Length", "0")])
    case 404 => OnWire("HTTP/1.1 404 Not Found", [("Connection", "close"), ("Content-Length", "0")])
    case _ => OnWire("HTTP/1.1 503 Service Unavailable", [("Connection", "close"), ("Content-Length", "0")])
  }

  function Asking(host: string, path: string, key: string): string {
    OnWire("GET " + path + " HTTP/1.1",
           [("Host", host), ("Upgrade", "websocket"), ("Connection", "Upgrade"), ("Sec-WebSocket-Key", key),
            ("Sec-WebSocket-Version", "13"), ("Sec-WebSocket-Protocol", "openstrata.motion.frame.v1")])
  }

  lemma {:induction false} FieldsAreWritten(fields: seq<Header>)
    ensures LineText(FieldLines(fields)) == FieldText(fields)
  {
    if fields != [] {
      FieldsAreWritten(fields[1..]);
      assert FieldLines(fields)[1..] == FieldLines(fields[1..]);
    }
  }

  lemma MessageIsWritten(start: string, fields: seq<Header>)
    ensures WriteMessage(start, fields) == OnWire(start, fields)
  {
    FieldsAreWritten(fields);
    assert ([start] + FieldLines(fields))[1..] == FieldLines(fields);
  }

  /** What each end writes, in full. */
  lemma WrittenInFull(accept: string, status: nat, host: string, path: string, key: string)
    ensures WriteUpgradeResponse(accept) == Granting(accept)
    ensures WriteHttpRefusal(status) == Refusing(status)
    ensures WriteUpgradeRequest(host, path, key) == Asking(host, path, key)
  {
    hide WriteMessage, OnWire;
    forall start, fields
      ensures WriteMessage(start, fields) == OnWire(start, fields)
    {
      MessageIsWritten(start, fields);
    }
    assert "GET " + path + " HTTP/1.1" == "GET " + (path + " HTTP/1.1");
    var rest := [("Connection", "close"), ("Content-Length", "0")];
    assert [("Sec-WebSocket-Version", "13")] + rest == [("Sec-WebSocket-Version", "13"), ("Connection", "close"), ("Content-Length", "0")];
    assert [] + rest == rest;
  }

  lemma KeyIff(key: string)
    ensures IsKey(key) <==> Base64.Decoded(key).Some? && |Base64.Decoded(key).value| == 16
  {
    Base64.SixteenBytes(key);
  }

  lemma OriginIff(headers: seq<Header>, allowed: seq<string>)
    ensures var origin := Find(headers, "origin");
            IsShutOut(headers, allowed) <==> origin.Some? && (Count(headers, "origin") != 1 || origin.value !in allowed)
    ensures var origin := Find(headers, "origin"); origin.Some? ==> FirstField(headers, "origin", origin.value)
    ensures Find(headers, "origin").None? <==> !HasField(headers, "origin")
  {
    hide Find, Count, FirstField, HasField;
    var origin := Find(headers, "origin");
    FirstIff(headers, "origin", if origin.Some? then origin.value else "");
    forall value
      ensures origin == Some(value) && Count(headers, "origin") == 1 <==> OnlyField(headers, "origin", value)
    {
      OnlyIff(headers, "origin", value);
    }
  }

  /** The answer's status, as the conditions stand in the program; `key` is the first key there is. */
  lemma UpgradeIff(verb: string, headers: seq<Header>, key: string)
    requires Find(headers, "sec-websocket-key") == Some(key)
    ensures IsUpgrade(verb, headers, key) <==>
              && verb == "GET"
              && ContainsToken(Tokens(headers, "upgrade"), "websocket")
              && ContainsToken(Tokens(headers, "connection"), "upgrade")
              && Count(headers, "host") == 1
              && Find(headers, "sec-websocket-version") == Some("13") && Count(headers, "sec-websocket-version") == 1
              && Count(headers, "sec-websocket-key") == 1
              && Base64.Decoded(key).Some? && |Base64.Decoded(key).value| == 16
              && SUBPROTOCOL in Tokens(headers, "sec-websocket-protocol")
  {
    hide ContainsToken, Tokens, Find, Count, OnlyField, ListsWord, ListsItem, IsKey, Base64.Decoded;
    WordIff(headers, "upgrade", "websocket");
    WordIff(headers, "connection", "upgrade");
    HostIff(headers);
    OnlyIff(headers, "sec-websocket-version", "13");
    OnlyIff(headers, "sec-websocket-key", key);
    KeyIff(key);
    ListsIff(headers, "sec-websocket-protocol", "openstrata.motion.frame.v1");
  }

  lemma HostIff(headers: seq<Header>)
    ensures Count(headers, "host") == 1 <==> exists host :: OnlyField(headers, "host", host)
  {
    hide Find, Count, OnlyField;
    var host := Find(headers, "host");
    FirstIff(headers, "host", "");
    CountIs(headers, "host");
    forall value
      ensures host == Some(value) && Count(headers, "host") == 1 <==> OnlyField(headers, "host", value)
    {
      OnlyIff(headers, "host", value);
    }
    assert host.Some? && Count(headers, "host") == 1 ==> OnlyField(headers, "host", host.value);
  }

  lemma NoKeyNoUpgrade(verb: string, headers: seq<Header>)
    requires Find(headers, "sec-websocket-key").None?
    ensures forall key :: !IsUpgrade(verb, headers, key)
  {
    hide Find, Count, OnlyField, ListsWord, ListsItem, IsKey;
    forall key
      ensures !OnlyField(headers, "sec-websocket-key", key)
    {
      OnlyIff(headers, "sec-websocket-key", key);
    }
  }

  lemma KeyIsFirst(verb: string, headers: seq<Header>, key: string)
    requires IsUpgrade(verb, headers, key)
    ensures Find(headers, "sec-websocket-key") == Some(key)
  {
    hide Find, Count, OnlyField, ListsWord, ListsItem, IsKey;
    OnlyIff(headers, "sec-websocket-key", key);
  }

  /** What a request is answered, by its own fields. */
  ghost predicate IsAnswered(sha1: string -> bytes, verb: string, target: string, headers: seq<Header>, path: string,
                             allowed: seq<string>, a: Answer)
  {
    if IsShutOut(headers, allowed) then
      FirstField(headers, "origin", a.origin) && a == Answer(OriginRefused, 403, Refusing(403), a.origin)
    else if target != path then a == Answer(HandshakeRefused, 404, Refusing(404), "")
    else if exists key :: IsUpgrade(verb, headers, key) then
      && (exists key :: IsUpgrade(verb, headers, key) && a.response
            == Granting(Base64.Encoded(sha1(key + "258EAFA5-E914-47DA-95CA-C5AB0DC85B11"))))
      && a == Answer(NoRefusal, 101, a.response, a.origin)
      && if HasField(headers, "origin") then FirstField(headers, "origin", a.origin) else a.origin == ""
    else a == Answer(HandshakeRefused, 400, Refusing(400), "")
  }

  lemma {:induction false} RefusalsInFull()
    ensures forall status :: WriteHttpRefusal(status) == Refusing(status)
  {
    hide WriteHttpRefusal, Refusing;
    forall status
      ensures WriteHttpRefusal(status) == Refusing(status)
    {
      WrittenInFull("", status, "", "", "");
    }
  }

  lemma RequestIsAnswered(sha1: string -> bytes, verb: string, target: string, headers: seq<Header>, path: string,
                          allowed: seq<string>)
    ensures IsAnswered(sha1, verb, target, headers, path, allowed, AnswerRequest(sha1, verb, target, headers, path, allowed))
  {
    hide Find, Count, Tokens, ContainsToken, IsShutOut, IsUpgrade, FirstField, HasField, WriteHttpRefusal, Refusing,
         WriteUpgradeResponse, Granting, Base64.Decoded, Base64.Encoded;
    OriginIff(headers, allowed);
    RefusalsInFull();
    var key := Find(headers, "sec-websocket-key");
    if key.None? {
      NoKeyNoUpgrade(verb, headers);
    } else {
      UpgradeIff(verb, headers, key.value);
      WrittenInFull(AcceptKey(sha1, key.value), 400, "", "", "");
      forall k | IsUpgrade(verb, headers, k)
        ensures k == key.value
      {
        KeyIsFirst(verb, headers, k);
      }
    }
  }

  /** A start line of a method, a target and the version. */
  predicate IsRequestLine(start: string, verb: string, target: string) {
    verb != "" && target != "" && ' ' !in verb && ' ' !in target && start == verb + " " + target + " HTTP/1.1"
  }

  lemma PartsAreLine(start: string)
    requires RequestParts(start).Some?
    ensures IsRequestLine(start, RequestParts(start).value.0, RequestParts(start).value.1)
  {
    var first := IndexOf(start, ' ');
    var rest := start[first + 1..];
    var second := IndexOf(rest, ' ');
    var verb, target := start[..first], rest[..second];
    SplitsAt(start, first);
    SplitsAt(rest, second);
    Joined(verb, target, rest[second + 1..]);
    VersionIs();
  }

  lemma VersionIs()
    ensures " " + "HTTP/1.1" == " HTTP/1.1"
  {
  }

  lemma Joined(a: string, b: string, c: string)
    ensures a + " " + (b + " " + c) == a + " " + b + (" " + c)
  {
  }

  lemma SplitsAt(s: string, i: nat)
    requires i < |s| && s[i] == ' '
    ensures s == s[..i] + " " + s[i + 1..]
  {
  }

  lemma LineIsParts(start: string, verb: string, target: string)
    requires IsRequestLine(start, verb, target)
    ensures RequestParts(start) == Some((verb, target))
  {
    hide IndexOf;
    var version := "HTTP/1.1";
    var rest := target + " " + version;
    Joined(verb, target, version);
    VersionIs();
    assert start == verb + " " + rest;
    SpaceAfter(verb, rest);
    SpaceAfter(target, version);
    VersionHasNoSpace();
  }

  lemma VersionHasNoSpace()
    ensures ' ' !in "HTTP/1.1"
  {
  }

  lemma RequestLineIff(start: string, verb: string, target: string)
    ensures RequestParts(start) == Some((verb, target)) <==> IsRequestLine(start, verb, target)
  {
    hide RequestParts, IsRequestLine;
    if RequestParts(start) == Some((verb, target)) {
      PartsAreLine(start);
    } else if IsRequestLine(start, verb, target) {
      LineIsParts(start, verb, target);
    }
  }

  lemma SpaceAfter(word: string, rest: string)
    requires ' ' !in word
    ensures var s := word + " " + rest; IndexOf(s, ' ') == |word| && s[..|word|] == word && s[|word| + 1..] == rest
  {
    var s := word + " " + rest;
    var i := IndexOf(s, ' ');
    assert s[|word|] == ' ';
    assert i <= |word| by {
      assert s[..i][..] == s[..i];
      forall k | 0 <= k < i
        ensures s[k] != ' '
      {
        assert s[k] in s[..i];
      }
    }
    forall k | 0 <= k < |word|
      ensures s[k] != ' '
    {
      assert s[k] == word[k] && word[k] in word;
    }
  }

  /** Every head a server is sent is answered by the rules: 400 where it spells no request, and by its fields where it does. */
  lemma HeadIsAnswered(sha1: string -> bytes, head: string, path: string, allowed: seq<string>)
    ensures var a := AnswerUpgrade(sha1, head, path, allowed);
            || (exists start, verb, target, headers :: SpellsHead(head, start, headers) && IsRequestLine(start, verb, target)
                  && IsAnswered(sha1, verb, target, headers, path, allowed, a))
            || (a == Answer(HandshakeRefused, 400, Refusing(400), "")
                && forall start, verb, target, headers :: SpellsHead(head, start, headers) ==> !IsRequestLine(start, verb, target))
  {
    hide ParseHeadLines, RequestParts, SpellsHead, IsRequestLine, IsAnswered, AnswerRequest, WriteHttpRefusal, Refusing;
    RefusalsInFull();
    var parsed := ParseHeadLines(head);
    if parsed.Some? && RequestParts(parsed.value.start).Some? {
      var (verb, target) := RequestParts(parsed.value.start).value;
      HeadIff(head, parsed.value.start, parsed.value.headers);
      RequestLineIff(parsed.value.start, verb, target);
      RequestIsAnswered(sha1, verb, target, parsed.value.headers, path, allowed);
    } else {
      forall start, verb, target, headers | SpellsHead(head, start, headers)
        ensures !IsRequestLine(start, verb, target)
      {
        HeadIff(head, start, headers);
        RequestLineIff(start, verb, target);
      }
    }
  }

  // ---- When a client takes an answer ----

  predicate IsFigure(c: char) {
    c in "0123456789"
  }

  /** A status line: the version, three figures, and after a space whatever the server says. */
  predicate IsStatusLine(start: string, status: nat) {
    && |start| >= 12 && start[..9] == "HTTP/1.1 " && (|start| == 12 || start[12] == ' ')
    && IsFigure(start[9]) && IsFigure(start[10]) && IsFigure(start[11])
    && status == (start[9] as int - '0' as int) * 100 + (start[10] as int - '0' as int) * 10 + (start[11] as int - '0' as int)
  }

  ghost predicate IsGrant(headers: seq<Header>, accept: string) {
    && ListsWord(headers, "upgrade", "websocket")
    && ListsWord(headers, "connection", "upgrade")
    && FirstField(headers, "sec-websocket-accept", accept)
    && OnlyField(headers, "sec-websocket-protocol", "openstrata.motion.frame.v1")
    && !HasField(headers, "sec-websocket-extensions")
  }

  lemma StatusIff(start: string, status: nat)
    ensures ResponseStatus(start) == Some(status) <==> IsStatusLine(start, status)
  {
    if |start| >= 12 {
      Digits(start[9]);
      Digits(start[10]);
      Digits(start[11]);
      assert (forall i :: 9 <= i < 12 ==> '0' <= start[i] <= '9') <==>
             ('0' <= start[9] <= '9' && '0' <= start[10] <= '9' && '0' <= start[11] <= '9');
    }
  }

  lemma GrantIff(headers: seq<Header>, accept: string)
    ensures HeadersComplete(headers, accept) <==> IsGrant(headers, accept)
  {
    hide ContainsToken, Tokens, Find, Count, OnlyField, ListsWord, FirstField, HasField;
    WordIff(headers, "upgrade", "websocket");
    WordIff(headers, "connection", "upgrade");
    FirstIff(headers, "sec-websocket-accept", accept);
    OnlyIff(headers, "sec-websocket-protocol", "openstrata.motion.frame.v1");
    FirstIff(headers, "sec-websocket-extensions", "");
  }

  /** A client takes an answer exactly when it is a 101 that grants its own key, and learns the status of every other. */
  lemma AnswerIsJudged(sha1: string -> bytes, head: string, key: string)
    ensures var (taken, status) := CheckUpgradeResponse(sha1, head, key);
            || (exists start, headers :: SpellsHead(head, start, headers) && IsStatusLine(start, status)
                  && taken == (status == 101
                               && IsGrant(headers, Base64.Encoded(sha1(key + "258EAFA5-E914-47DA-95CA-C5AB0DC85B11")))))
            || (!taken && status == 0
                && forall start, headers, s: nat :: SpellsHead(head, start, headers) ==> !IsStatusLine(start, s))
  {
    hide ParseHeadLines, ResponseStatus, SpellsHead, IsStatusLine, IsGrant, HeadersComplete, Base64.Encoded;
    var parsed := ParseHeadLines(head);
    if parsed.Some? && ResponseStatus(parsed.value.start).Some? {
      HeadIff(head, parsed.value.start, parsed.value.headers);
      StatusIff(parsed.value.start, ResponseStatus(parsed.value.start).value);
      GrantIff(parsed.value.headers, AcceptKey(sha1, key));
    } else {
      forall start, headers, s: nat | SpellsHead(head, start, headers)
        ensures !IsStatusLine(start, s)
      {
        HeadIff(head, start, headers);
        StatusIff(start, s);
      }
    }
  }
}
