/** Reading what the capture writer wrote gives the capture back. */
module CaptureRoundTrip {
  import opened Bytes
  import opened Text
  import opened PacketCapture

  /** A magic line's first word: it must not read as a comment. */
  predicate IsMagic(magic: string) {
    IsWord(magic) && magic[0] != '#'
  }

  predicate IsField(s: string) {
    s == "" || IsWord(s)
  }

  /** A datagram the format can hold: a time not before zero, a peer of one word other than the sign for none, and a payload that fits. */
  predicate IsRecordable(d: Datagram) {
    d.receiveTime >= 0.0 && IsField(d.peer) && d.peer != "-" && |d.payload| <= 65507
  }

  predicate InOrder(datagrams: seq<Datagram>) {
    forall i :: 0 <= i < |datagrams| - 1 ==> datagrams[i].receiveTime <= datagrams[i + 1].receiveTime
  }

  predicate IsWritable(c: Capture) {
    && IsField(c.sender) && IsField(c.device) && IsField(c.sourceId) && IsField(c.listen) && IsField(c.peer)
    && c.datagrams != [] && InOrder(c.datagrams) && AreRecordable(c.datagrams)
  }

  predicate AreWords(words: seq<string>) {
    words != [] && forall i :: 0 <= i < |words| ==> IsWord(words[i])
  }

  // ---- Lines of words ----

  lemma {:induction false} SpacedIsPlain(words: seq<string>)
    requires AreWords(words)
    ensures Spaced(words) != "" && Spaced(words)[0] == words[0][0]
    ensures !IsSpace(Spaced(words)[|Spaced(words)| - 1]) && IsLine(Spaced(words))
  {
    if |words| > 1 {
      SpacedIsPlain(words[1..]);
    }
  }

  /** How a line of words reaches the reader. */
  lemma PlainLine(words: seq<string>)
    requires AreWords(words) && words[0][0] != '#'
    ensures var line := Spaced(words);
            && Uncarried(line) == line && FirstNonBlank(line) == 0 < |line| && line[0] != '#' && Words(line) == words
  {
    hide IsWord;
    SpacedIsPlain(words);
    var line := Spaced(words);
    SpacedIsRead(words, "");
    assert line + "" == line;
    assert !IsSpace(words[0][0]) by { FirstIsNoSpace(words[0]); }
    assert !IsBlank(line[0]);
  }

  lemma FirstIsNoSpace(w: string)
    requires IsWord(w)
    ensures w != "" && !IsSpace(w[0])
  {
  }

  lemma BlankLineIsSkipped(magic: string, r: Reading)
    ensures StepLine(magic, r, "") == Some(r)
  {
  }

  lemma OneIsRead()
    ensures ReadInteger("1") == Some(1) && IsWord("1")
  {
    DecimalIsRead(1);
    assert Decimal(1) == "1";
  }

  lemma MagicIsRead(magic: string)
    requires IsMagic(magic)
    ensures StepLine(magic, BLANK, Spaced([magic, "1"])) == Some(BLANK.(sawMagic := true))
  {
    hide ReadInteger, Spaced, Words, TakePeer, TakeRecord, TakeHex, TakeHeader;
    OneIsRead();
    PlainLine([magic, "1"]);
  }

  lemma PeerIsRead(magic: string, r: Reading, peer: string)
    requires r.sawMagic && r.open.None? && IsField(peer) && peer != "-"
    ensures StepLine(magic, r, Spaced(["p", if peer == "" then "-" else peer])) == Some(r.(peer := peer, sawPeerLine := true))
  {
    hide Spaced, Words, TakeMagic, TakeRecord, TakeHex, TakeHeader;
    PlainLine(["p", if peer == "" then "-" else peer]);
  }

  // ---- Header fields ----

  /** The reader's header after one more field. */
  function WithField(c: Capture, key: string, value: string): Capture {
    match key
    case "sender" => c.(sender := value)
    case "device" => c.(device := value)
    case "sourceId" => c.(sourceId := value)
    case "listen" => c.(listen := value)
    case _ => c.(peer := value)
  }

  predicate IsKey(key: string) {
    key == "sender" || key == "device" || key == "sourceId" || key == "listen" || key == "peer"
  }

  function FieldOf(c: Capture, key: string): string {
    match key
    case "sender" => c.sender
    case "device" => c.device
    case "sourceId" => c.sourceId
    case "listen" => c.listen
    case _ => c.peer
  }

  predicate AtHeader(r: Reading) {
    r.sawMagic && r.open.None? && !r.sawPeerLine && r.result.datagrams == []
  }

  lemma HeaderIsTaken(r: Reading, key: string, value: string)
    requires IsKey(key) && FieldOf(r.result, key) == ""
    ensures TakeHeader(r, [key, value]) == Some(r.(result := WithField(r.result, key, value)))
    ensures IsWord(key) && key[0] != '#' && key != "p" && key != "d"
  {
  }

  lemma FieldIsRead(magic: string, r: Reading, key: string, value: string)
    requires AtHeader(r) && IsKey(key) && IsField(value) && FieldOf(r.result, key) == ""
    ensures ReadLines(magic, r, FieldLine(key, value)) == Some(r.(result := WithField(r.result, key, value)))
  {
    hide Spaced, Words, TakeMagic, TakePeer, TakeRecord, TakeHex, TakeHeader, WithField;
    if value == "" {
      NoFieldIsRead(r, key);
    } else {
      HeaderIsTaken(r, key, value);
      PlainLine([key, value]);
      var line := Spaced([key, value]);
      assert [line][1..] == [];
      assert StepLine(magic, r, line) == TakeHeader(r, [key, value]);
    }
  }

  lemma NoFieldIsRead(r: Reading, key: string)
    requires IsKey(key) && FieldOf(r.result, key) == ""
    ensures WithField(r.result, key, "") == r.result
  {
  }

  lemma {:induction false} ReadOn(magic: string, r: Reading, a: seq<string>, b: seq<string>)
    requires ReadLines(magic, r, a).Some?
    ensures ReadLines(magic, r, a + b) == ReadLines(magic, ReadLines(magic, r, a).value, b)
    decreases |a|
  {
    hide StepLine;
    if a == [] {
      assert a + b == b;
    } else {
      assert (a + b)[1..] == a[1..] + b;
      ReadOn(magic, StepLine(magic, r, a[0]).value, a[1..], b);
    }
  }

  lemma HeaderIsRead(magic: string, c: Capture)
    requires IsMagic(magic) && IsWritable(c)
    ensures ReadLines(magic, BLANK, HeaderLines(magic, c))
         == Some(BLANK.(sawMagic := true, result := c.(datagrams := [])))
  {
    hide StepLine, Spaced, FieldLine;
    MagicIsRead(magic);
    var first := Spaced([magic, "1"]);
    assert [first][1..] == [];
    var r0 := BLANK.(sawMagic := true);
    assert ReadLines(magic, BLANK, [first]) == Some(r0);
    var r1 := r0.(result := r0.result.(sender := c.sender));
    var r2 := r1.(result := r1.result.(device := c.device));
    var r3 := r2.(result := r2.result.(sourceId := c.sourceId));
    var r4 := r3.(result := r3.result.(listen := c.listen));
    FieldIsRead(magic, r0, "sender", c.sender);
    FieldIsRead(magic, r1, "device", c.device);
    FieldIsRead(magic, r2, "sourceId", c.sourceId);
    FieldIsRead(magic, r3, "listen", c.listen);
    FieldIsRead(magic, r4, "peer", c.peer);
    var a := [first] + FieldLine("sender", c.sender);
    var b := a + FieldLine("device", c.device);
    var d := b + FieldLine("sourceId", c.sourceId);
    var e := d + FieldLine("listen", c.listen);
    ReadOn(magic, BLANK, [first], FieldLine("sender", c.sender));
    ReadOn(magic, BLANK, a, FieldLine("device", c.device));
    ReadOn(magic, BLANK, b, FieldLine("sourceId", c.sourceId));
    ReadOn(magic, BLANK, d, FieldLine("listen", c.listen));
    ReadOn(magic, BLANK, e, FieldLine("peer", c.peer));
  }

  // ---- Records ----

  lemma {:induction false} FirstOfAfter(s: string, c: char, rest: string)
    requires forall i :: 0 <= i < |s| ==> s[i] != c
    ensures FirstOf(s + [c] + rest, c) == |s|
  {
    if s != "" {
      assert (s + [c] + rest)[1..] == s[1..] + [c] + rest;
      FirstOfAfter(s[1..], c, rest);
    }
  }

  /** A time as six decimals keep it. */
  function Rounded(t: real): (r: real)
    requires t >= 0.0
    ensures r >= 0.0
  {
    MicrosOf(t) as real / 1000000.0
  }

  lemma {:induction false} NoneOf(s: string, c: char)
    requires forall i :: 0 <= i < |s| ==> s[i] != c
    ensures FirstOf(s, c) == |s|
  {
    if s != "" {
      NoneOf(s[1..], c);
    }
  }

  lemma DigitsLack(s: string, c: char)
    requires AreDigits(s) && !IsDigit(c)
    ensures forall i :: 0 <= i < |s| ==> s[i] != c
    ensures forall i :: 0 <= i < |s| ==> !IsSpace(s[i])
  {
  }

  lemma PointIsFound(whole: string, part: string)
    requires whole != "" && AreDigits(whole) && AreDigits(part)
    ensures ReadPlain(whole + "." + part) == Some(PointValue(whole, part))
  {
    hide PointValue, FirstOf, AreDigits;
    var s := whole + "." + part;
    DigitsLack(whole, '.');
    FirstOfAfter(whole, '.', part);
    assert s[..|whole|] == whole && s[|whole| + 1..] == part;
  }

  lemma PlainIsRead(whole: string, part: string)
    requires whole != "" && AreDigits(whole) && AreDigits(part)
    ensures ReadTime(whole + "." + part) == Some(PointValue(whole, part)) && IsWord(whole + "." + part)
  {
    hide ReadPlain, PointValue, FirstOf, AreDigits;
    var s := whole + "." + part;
    PointIsFound(whole, part);
    DigitsLack(whole, 'e');
    DigitsLack(part, 'e');
    DigitsLack(whole, 'E');
    DigitsLack(part, 'E');
    DigitsLack(whole, '-');
    DigitsLack(whole, '+');
    NoneOf(s, 'e');
    NoneOf(s, 'E');
    assert s[..|s|] == s && Magnitude(s) == s;
  }

  lemma SixDecimals(n: nat)
    ensures PointValue(Decimal(n / MICROS), Padded(n % MICROS, 6)) == n as real / 1000000.0
  {
    hide Decimal, Padded, NumberIn;
    DecimalIsRead(n / MICROS);
    assert Tens(6) == MICROS;
    PaddedIsRead(n % MICROS, 6);
  }

  /** A written time is read as the whole microseconds nearest to it. */
  lemma TimeIsRead(t: real)
    requires t >= 0.0
    ensures ReadTime(TimeText(t)) == Some(Rounded(t)) && IsWord(TimeText(t))
  {
    hide ReadTime, IsWord, PointValue, MicrosOf, Decimal, Padded;
    var n := MicrosOf(t);
    PlainIsRead(Decimal(n / MICROS), Padded(n % MICROS, 6));
    SixDecimals(n);
  }

  lemma LengthIsRead(n: nat)
    ensures ReadInteger(Decimal(n)) == Some(n) && IsWord(Decimal(n))
  {
    DecimalIsRead(n);
    WordsOfDigits(Decimal(n));
    assert IsDigit(Decimal(n)[0]);
  }

  /** Rounding keeps order. */
  lemma RoundingKeepsOrder(t: real, u: real)
    requires 0.0 <= t <= u
    ensures Rounded(t) <= Rounded(u)
  {
    NearestKeepsOrder(t * 1000000.0, u * 1000000.0);
  }

  lemma NearestKeepsOrder(x: real, y: real)
    requires x <= y
    ensures Nearest(x) <= Nearest(y)
  {
    assert x.Floor <= y.Floor;
  }

  /** A whole number of microseconds. */
  predicate IsWhole(t: real) {
    (t * 1000000.0).Floor as real == t * 1000000.0
  }

  /** A time is kept by rounding exactly when it is a whole number of microseconds. */
  lemma RoundingKeepsWhole(t: real)
    requires t >= 0.0
    ensures Rounded(t) == t <==> IsWhole(t)
    ensures IsWhole(Rounded(t))
  {
    var n := MicrosOf(t);
    assert Rounded(t) * 1000000.0 == n as real;
    assert (n as real).Floor == n;
  }

  function RoundedDatagram(d: Datagram): Datagram
    requires d.receiveTime >= 0.0
  {
    d.(receiveTime := Rounded(d.receiveTime))
  }

  /** The reader once a datagram's own line is read. */
  function Begun(r: Reading, d: Datagram): Reading {
    var start := r.(previous := Some(d.receiveTime), declared := |d.payload|);
    if d.payload == [] then Finish(start, d) else start.(open := Some(d.(payload := [])))
  }

  lemma RecordIsRead(magic: string, r: Reading, d: Datagram)
    requires r.sawMagic && r.open.None? && IsRecordable(d) && r.peer == d.peer
    requires r.previous.None? || r.previous.value <= Rounded(d.receiveTime)
    ensures StepLine(magic, r, Spaced(["d", TimeText(d.receiveTime), Decimal(|d.payload|)])) == Some(Begun(r, RoundedDatagram(d)))
  {
    hide Spaced, Words, TimeText, ReadTime, Decimal, ReadInteger, Rounded, TakeMagic, TakePeer, TakeHex, TakeHeader;
    TimeIsRead(d.receiveTime);
    LengthIsRead(|d.payload|);
    PlainLine(["d", TimeText(d.receiveTime), Decimal(|d.payload|)]);
    if d.payload == [] {
      assert RoundedDatagram(d) == Datagram(Rounded(d.receiveTime), r.peer, []);
    }
  }

  lemma ByteIsRead(b: byte)
    ensures ByteIn(HexWord(b)) == Some(b) && IsWord(HexWord(b))
  {
  }

  lemma {:induction false} BytesAreRead(s: bytes)
    ensures BytesIn(HexWords(s)) == Some(s)
  {
    hide ByteIn, HexWord;
    if s != [] {
      BytesAreRead(s[1..]);
      ByteIsRead(s[0]);
      assert HexWords(s)[1..] == HexWords(s[1..]) && HexWords(s)[0] == HexWord(s[0]);
      assert s == [s[0]] + s[1..];
    }
  }

  lemma HexWordsAreWords(s: bytes)
    requires s != []
    ensures AreWords(HexWords(s))
  {
    hide HexWord;
    forall i | 0 <= i < |s|
      ensures IsWord(HexWords(s)[i])
    {
      ByteIsRead(s[i]);
    }
  }

  lemma {:induction false} NoBar(words: seq<string>)
    requires forall i, k :: 0 <= i < |words| && 0 <= k < |words[i]| ==> words[i][k] != '|'
    ensures forall k :: 0 <= k < |Spaced(words)| ==> Spaced(words)[k] != '|'
  {
    if |words| > 1 {
      NoBar(words[1..]);
    }
  }

  /** The part of a row before its gutter. */
  function Before(row: bytes): string {
    var hex := Spaced(HexWords(row));
    "  " + hex + Spaces(if |hex| < HEX_COLUMN then HEX_COLUMN - |hex| else 0) + "  "
  }

  lemma BeforeIsRead(row: bytes)
    requires row != []
    ensures Words(Before(row)) == HexWords(row)
    ensures forall k :: 0 <= k < |Before(row)| ==> Before(row)[k] != '|'
    ensures IsLine(Before(row)) && |Before(row)| > 2 && FirstNonBlank(Before(row)) == 2 && Before(row)[2] == HexChar(row[0] / 16)
  {
    hide Words;
    var words := HexWords(row);
    var hex := Spaced(words);
    var pad := Spaces(if |hex| < HEX_COLUMN then HEX_COLUMN - |hex| else 0) + "  ";
    HexWordsAreWords(row);
    NoBar(words);
    SpacedIsPlain(words);
    assert Before(row) == "  " + (hex + pad);
    BlankThenRest("  ", hex + pad);
    SpacedIsRead(words, pad);
    TwoBlanks(Before(row));
  }

  lemma TwoBlanks(s: string)
    requires |s| > 2 && s[0] == ' ' && s[1] == ' ' && !IsBlank(s[2])
    ensures FirstNonBlank(s) == 2
  {
  }

  lemma {:induction false} PastLastIsEnd(s: string)
    requires s != "" && s[|s| - 1] == '|'
    ensures PastLast(s, '|') == |s|
  {
  }

  /** A row's own hex and gutter read back as its bytes, whatever they look like. */
  lemma RowIsRead(row: bytes)
    requires row != []
    ensures HexLine(HexText(row)) == Some(row)
  {
    hide Words, Gutter, BytesIn, Before, HexWords;
    var line, before := HexText(row), Before(row);
    HexTextSplits(row);
    BeforeIsRead(row);
    FirstOfAfter(before, '|', Gutter(row) + "|");
    assert line == before + "|" + (Gutter(row) + "|");
    PastLastIsEnd(line);
    assert line[|line|..] == "" && line[..|before|] == before;
    assert line[|before| + 1..|line| - 1] == Gutter(row);
    BytesAreRead(row);
  }

  lemma HexTextSplits(row: bytes)
    ensures HexText(row) == Before(row) + "|" + Gutter(row) + "|"
  {
  }

  /** How a row's line reaches the hex reader: as neither a comment nor a peer nor a record. */
  lemma RowLine(row: bytes)
    requires row != []
    ensures var line := HexText(row);
            && Uncarried(line) == line && FirstNonBlank(line) == 2 < |line| && line[2] != '#' && IsLine(line)
            && Words(line) != [] && |Words(line)[0]| == 2
  {
    hide Words, Gutter, HexWords, Before;
    var line, before := HexText(row), Before(row);
    HexTextSplits(row);
    BeforeIsRead(row);
    TwoBlanks(line);
    NotAComment(row[0] / 16);
    GutterIsPlain(row);
    var rest := FirstWord(row);
  }

  lemma NotAComment(n: nat)
    requires n < 16
    ensures HexChar(n) != '#' && !IsBlank(HexChar(n))
  {
  }

  lemma GutterIsPlain(row: bytes)
    ensures IsLine(Gutter(row))
  {
  }

  /** A row's first word is its first byte. */
  lemma FirstWord(row: bytes) returns (rest: string)
    requires row != []
    ensures Words(HexText(row)) == [HexWord(row[0])] + Words(rest)
  {
    hide Words, Gutter, HexWord;
    var words := HexWords(row);
    var hex := Spaced(words);
    var tail := Spaces(if |hex| < HEX_COLUMN then HEX_COLUMN - |hex| else 0) + "  |" + Gutter(row) + "|";
    ByteIsRead(row[0]);
    rest := if |row| == 1 then tail else " " + Spaced(words[1..]) + tail;
    assert hex + tail == words[0] + rest;
    assert HexText(row) == "  " + (words[0] + rest);
    BlankThenRest("  ", words[0] + rest);
    WordThenRest(words[0], rest);
  }

  /** One row read into the record left open. */
  lemma RowIsTaken(magic: string, r: Reading, row: bytes)
    requires r.sawMagic && r.open.Some? && row != [] && |r.open.value.payload| + |row| <= r.declared
    ensures StepLine(magic, r, HexText(row)) == Some(Grown(r, row))
  {
    hide Words, HexText, HexLine, TakeMagic, TakePeer, TakeRecord, TakeHeader;
    RowIsRead(row);
    RowLine(row);
  }

  /** The reader once a row has joined the record left open. */
  function Grown(r: Reading, row: bytes): Reading
    requires r.open.Some?
  {
    var d := r.open.value.(payload := r.open.value.payload + row);
    if |d.payload| == r.declared then Finish(r, d) else r.(open := Some(d))
  }

  lemma {:induction false} TwoDigitsEach(words: seq<string>, k: nat)
    requires k < |words| && forall w :: w in words ==> |w| == 2
    ensures |Spaced(words)| == 3 * |words| - 1
    ensures Spaced(words)[3 * k..3 * k + 2] == words[k]
  {
    assert words[0] in words;
    if |words| > 1 {
      TwoDigitsEach(words[1..], if k == 0 then 0 else k - 1);
      var rest := Spaced(words[1..]);
      assert Spaced(words) == words[0] + " " + rest;
      assert k > 0 ==> Spaced(words)[3 * k..3 * k + 2] == rest[3 * (k - 1)..3 * (k - 1) + 2];
    }
  }

  /** A row of at most sixteen bytes: two digits a byte, three columns apart, and the gutter between bars from column 51. */
  lemma RowIsLaidOut(row: bytes, k: nat)
    requires k < |row| <= 16
    ensures var text, figures := HexText(row), "0123456789abcdef";
            && |text| == 53 + |row| && text[51] == '|' && text[52 + |row|] == '|' && text[52..52 + |row|] == Gutter(row)
            && text[2 + 3 * k] == figures[row[k] / 16] && text[3 + 3 * k] == figures[row[k] % 16]
  {
    hide Spaced;
    var hex := Spaced(HexWords(row));
    TwoDigitsEach(HexWords(row), k);
    FigureIs(row[k] / 16);
    FigureIs(row[k] % 16);
    var text, before := HexText(row), Before(row);
    assert text == before + ("|" + Gutter(row) + "|");
    assert hex[3 * k] == HexWords(row)[k][0] && hex[3 * k + 1] == HexWords(row)[k][1];
  }

  /** Between two microseconds as near the even one is taken, and otherwise the nearer. */
  lemma NearestIsNearest(x: real, n: int)
    ensures Nearest(x) == n <==> -0.5 <= n as real - x <= 0.5 && (n as real - x == 0.5 || n as real - x == -0.5 ==> n % 2 == 0)
  {
    var below := x.Floor;
    var over := x - below as real;
    assert 0.0 <= over < 1.0;
    if -0.5 <= n as real - x <= 0.5 {
      assert n == below || n == below + 1;
    }
  }

  /** The gutter shows what is printable, from a space to a tilde, and dots for all else. */
  lemma GutterShows(row: bytes, k: nat)
    requires k < |row|
    ensures Gutter(row)[k] == if ' ' as int <= row[k] as int <= '~' as int then row[k] as int as char else '.'
  {
  }

  lemma FigureIs(n: nat)
    requires n < 16
    ensures HexChar(n) == "0123456789abcdef"[n]
  {
  }

  /** A payload stands in rows of sixteen bytes, the last one shorter. */
  lemma {:induction false} RowsAreOfSixteen(s: bytes, i: nat)
    requires 16 * i < |s|
    ensures |HexRows(s)| == (|s| + 15) / 16 && i < |HexRows(s)|
    ensures HexRows(s)[i] == HexText(s[16 * i..if 16 * i + 16 < |s| then 16 * i + 16 else |s|])
    decreases |s|
  {
    hide HexText, HexRows;
    RowsSplit(s);
    if |s| <= 16 {
      assert s[0..|s|] == s;
    } else {
      var rest := s[16..];
      RowsAreOfSixteen(rest, if i == 0 then 0 else i - 1);
      if i > 0 {
        var j := i - 1;
        assert rest[16 * j..if 16 * j + 16 < |rest| then 16 * j + 16 else |rest|] == s[16 * i..if 16 * i + 16 < |s| then 16 * i + 16 else |s|];
      }
    }
  }

  lemma RowsSplit(rest: bytes)
    requires rest != []
    ensures |rest| <= BYTES_PER_LINE ==> HexRows(rest) == [HexText(rest)]
    ensures |rest| > BYTES_PER_LINE ==>
              HexRows(rest) == [HexText(rest[..BYTES_PER_LINE])] + HexRows(rest[BYTES_PER_LINE..])
  {
    hide HexText;
  }

  lemma {:induction false} RowsAreRead(magic: string, r: Reading, rest: bytes)
    requires r.sawMagic && r.open.Some? && rest != [] && |r.open.value.payload| + |rest| == r.declared
    ensures ReadLines(magic, r, HexRows(rest)) == Some(Finish(r, r.open.value.(payload := r.open.value.payload + rest)))
    decreases |rest|
  {
    hide StepLine, HexText, HexRows;
    var done := r.open.value.payload;
    RowsSplit(rest);
    if |rest| <= BYTES_PER_LINE {
      RowIsTaken(magic, r, rest);
      assert [HexText(rest)][1..] == [];
    } else {
      var row, more := rest[..BYTES_PER_LINE], rest[BYTES_PER_LINE..];
      RowIsTaken(magic, r, row);
      var r' := Grown(r, row);
      RowsAreRead(magic, r', more);
      assert ([HexText(row)] + HexRows(more))[1..] == HexRows(more);
      assert done + rest == done + row + more;
    }
  }

  lemma RecordLinesAreRead(magic: string, r: Reading, d: Datagram)
    requires r.sawMagic && r.open.None? && IsRecordable(d) && r.peer == d.peer
    requires r.previous.None? || r.previous.value <= Rounded(d.receiveTime)
    ensures ReadLines(magic, r, RecordLines(d))
         == Some(Finish(r.(previous := Some(Rounded(d.receiveTime)), declared := |d.payload|), RoundedDatagram(d)))
  {
    hide StepLine, Spaced, HexRows, TimeText, Rounded;
    RecordIsRead(magic, r, d);
    var line := Spaced(["d", TimeText(d.receiveTime), Decimal(|d.payload|)]);
    assert RecordLines(d)[0] == line && RecordLines(d)[1..] == HexRows(d.payload);
    if d.payload == [] {
      NoRows();
    } else {
      RowsAreRead(magic, Begun(r, RoundedDatagram(d)), d.payload);
      assert [] + d.payload == d.payload;
    }
  }

  lemma NoRows()
    ensures HexRows([]) == []
  {
  }

  /** The lines before a datagram's own: a blank one, and its peer where that changes. */
  function PeerLines(peer: string, changes: bool): seq<string> {
    [""] + if changes then [Spaced(["p", if peer == "" then "-" else peer])] else []
  }

  lemma PeerLinesAreRead(magic: string, r: Reading, peer: string, changes: bool)
    requires r.sawMagic && r.open.None? && IsField(peer) && peer != "-" && (!changes ==> r.peer == peer)
    ensures ReadLines(magic, r, PeerLines(peer, changes)) == Some(r.(peer := peer, sawPeerLine := r.sawPeerLine || changes))
  {
    hide StepLine, Spaced;
    BlankLineIsSkipped(magic, r);
    var lines := PeerLines(peer, changes);
    assert lines[0] == "";
    if changes {
      PeerIsRead(magic, r, peer);
      var line := Spaced(["p", if peer == "" then "-" else peer]);
      assert lines[1..] == [line] && [line][1..] == [];
      assert ReadLines(magic, r, [line]) == StepLine(magic, r, line);
      assert ReadLines(magic, r, lines) == ReadLines(magic, r, [line]);
    } else {
      assert lines[1..] == [];
    }
  }

  predicate AreRecordable(datagrams: seq<Datagram>) {
    forall i :: 0 <= i < |datagrams| ==> IsRecordable(datagrams[i])
  }

  function AllRounded(datagrams: seq<Datagram>): (r: seq<Datagram>)
    requires AreRecordable(datagrams)
    ensures |r| == |datagrams|
  {
    seq(|datagrams|, i requires 0 <= i < |datagrams| => RoundedDatagram(datagrams[i]))
  }

  lemma {:induction false} DatagramsAreRead(magic: string, r: Reading, datagrams: seq<Datagram>, emitted: string, emittedAny: bool)
    requires r.sawMagic && r.open.None? && r.peer == emitted && (!emittedAny ==> emitted == "")
    requires InOrder(datagrams) && AreRecordable(datagrams)
    requires datagrams != [] && r.previous.Some? ==> r.previous.value <= Rounded(datagrams[0].receiveTime)
    ensures var end := ReadLines(magic, r, DatagramLines(datagrams, emitted, emittedAny));
            && end.Some? && end.value.sawMagic && end.value.open.None?
            && end.value.result == r.result.(datagrams := r.result.datagrams + AllRounded(datagrams))
    decreases |datagrams|
  {
    hide ReadLines, RecordLines, PeerLines, Rounded, IsField;
    if datagrams == [] {
      NothingIsRead(magic, r);
      assert r.result.datagrams + [] == r.result.datagrams;
    } else {
      var d, rest := datagrams[0], datagrams[1..];
      if rest != [] {
        RoundingKeepsOrder(d.receiveTime, rest[0].receiveTime);
      }
      var changes := PeerChanges(d.peer, emitted, emittedAny);
      var next, any := if changes then d.peer else emitted, emittedAny || changes;
      RecordableHasAPeer(d);
      PeerLinesAreRead(magic, r, d.peer, changes);
      var r1 := r.(peer := d.peer, sawPeerLine := r.sawPeerLine || changes);
      RecordLinesAreRead(magic, r1, d);
      var r2 := Finish(r1.(previous := Some(Rounded(d.receiveTime)), declared := |d.payload|), RoundedDatagram(d));
      DatagramsAreRead(magic, r2, rest, next, any);
      var opening, body, after := PeerLines(d.peer, changes), RecordLines(d), DatagramLines(rest, next, any);
      ReadOn(magic, r, opening, body + after);
      ReadOn(magic, r1, body, after);
      DatagramLinesSplit(datagrams, emitted, emittedAny);
      assert AllRounded(datagrams) == [RoundedDatagram(d)] + AllRounded(rest);
      assert r.result.datagrams + AllRounded(datagrams) == r.result.datagrams + [RoundedDatagram(d)] + AllRounded(rest);
    }
  }

  lemma NothingIsRead(magic: string, r: Reading)
    ensures ReadLines(magic, r, []) == Some(r)
  {
  }

  lemma RecordableHasAPeer(d: Datagram)
    requires IsRecordable(d)
    ensures IsField(d.peer) && d.peer != "-"
  {
  }

  lemma DatagramLinesSplit(datagrams: seq<Datagram>, emitted: string, emittedAny: bool)
    requires datagrams != []
    ensures var d := datagrams[0];
            var changes := PeerChanges(d.peer, emitted, emittedAny);
            DatagramLines(datagrams, emitted, emittedAny)
            == PeerLines(d.peer, changes)
               + (RecordLines(d) + DatagramLines(datagrams[1..], if changes then d.peer else emitted, emittedAny || changes))
  {
    hide RecordLines, Spaced;
  }

  // ---- Every written line is one line ----

  lemma WordsAreALine(words: seq<string>)
    requires AreWords(words)
    ensures IsLine(Spaced(words))
  {
    SpacedIsPlain(words);
  }

  predicate AreLines(lines: seq<string>) {
    forall i :: 0 <= i < |lines| ==> IsLine(lines[i])
  }

  lemma LinesJoin(a: seq<string>, b: seq<string>)
    requires AreLines(a) && AreLines(b)
    ensures AreLines(a + b)
  {
  }

  lemma FieldLineIsALine(key: string, value: string)
    requires IsKey(key) && IsField(value)
    ensures AreLines(FieldLine(key, value))
  {
    hide Spaced;
    if value != "" {
      WordsAreALine([key, value]);
    }
  }

  lemma HeaderLinesAreLines(magic: string, c: Capture)
    requires IsMagic(magic) && IsWritable(c)
    ensures AreLines(HeaderLines(magic, c))
  {
    hide Spaced, FieldLine, IsField, IsLine;
    OneIsRead();
    WordsAreALine([magic, "1"]);
    FieldLineIsALine("sender", c.sender);
    FieldLineIsALine("device", c.device);
    FieldLineIsALine("sourceId", c.sourceId);
    FieldLineIsALine("listen", c.listen);
    FieldLineIsALine("peer", c.peer);
  }

  lemma {:induction false} RowsAreLines(s: bytes)
    ensures AreLines(HexRows(s))
    decreases |s|
  {
    hide HexText, IsLine;
    if s != [] {
      RowLine(if |s| <= BYTES_PER_LINE then s else s[..BYTES_PER_LINE]);
      if |s| > BYTES_PER_LINE {
        RowsAreLines(s[BYTES_PER_LINE..]);
      }
    }
  }

  lemma RecordLinesAreLines(d: Datagram)
    requires IsRecordable(d)
    ensures AreLines(RecordLines(d))
  {
    hide HexRows, Spaced, TimeText, Decimal;
    TimeIsRead(d.receiveTime);
    WordsOfDigits(Decimal(|d.payload|));
    WordsAreALine(["d", TimeText(d.receiveTime), Decimal(|d.payload|)]);
    RowsAreLines(d.payload);
  }

  lemma PeerLinesAreLines(peer: string, changes: bool)
    requires IsField(peer)
    ensures AreLines(PeerLines(peer, changes))
  {
    hide Spaced;
    if changes {
      WordsAreALine(["p", if peer == "" then "-" else peer]);
    }
  }

  lemma {:induction false} DatagramLinesAreLines(datagrams: seq<Datagram>, emitted: string, emittedAny: bool)
    requires forall i :: 0 <= i < |datagrams| ==> IsRecordable(datagrams[i])
    ensures AreLines(DatagramLines(datagrams, emitted, emittedAny))
    decreases |datagrams|
  {
    hide RecordLines, PeerLines, IsLine;
    if datagrams != [] {
      var d := datagrams[0];
      var changes := PeerChanges(d.peer, emitted, emittedAny);
      DatagramLinesAreLines(datagrams[1..], if changes then d.peer else emitted, emittedAny || changes);
      RecordLinesAreLines(d);
      PeerLinesAreLines(d.peer, changes);
      DatagramLinesSplit(datagrams, emitted, emittedAny);
    }
  }

  function RoundedCapture(c: Capture): Capture
    requires AreRecordable(c.datagrams)
  {
    c.(datagrams := AllRounded(c.datagrams))
  }

  /**
   Reading what was written returns the capture, its times to the nearest microsecond: header fields of one
   word, peers that change, go and come back, times that do not go backwards, and payloads of any bytes at all.
   */
  lemma WrittenIsRead(magic: string, c: Capture)
    requires IsMagic(magic) && IsWritable(c)
    ensures Read(magic, Written(magic, c)) == Some(RoundedCapture(c))
  {
    hide ReadLines, HeaderLines, DatagramLines, IsMagic, IsField, IsRecordable, Rounded;
    var header, body := HeaderLines(magic, c), DatagramLines(c.datagrams, "", false);
    HeaderLinesAreLines(magic, c);
    DatagramLinesAreLines(c.datagrams, "", false);
    LinesJoin(header, body);
    JoinedIsRead(header + body);
    HeaderIsRead(magic, c);
    var r := BLANK.(sawMagic := true, result := c.(datagrams := []));
    ReadOn(magic, BLANK, header, body);
    DatagramsAreRead(magic, r, c.datagrams, "", false);
    assert [] + AllRounded(c.datagrams) == AllRounded(c.datagrams);
  }

  predicate AreWhole(datagrams: seq<Datagram>) {
    forall i :: 0 <= i < |datagrams| ==> IsWhole(datagrams[i].receiveTime)
  }

  lemma RoundingKeepsIff(datagrams: seq<Datagram>)
    requires AreRecordable(datagrams)
    ensures AllRounded(datagrams) == datagrams <==> AreWhole(datagrams)
  {
    hide Rounded, IsWhole;
    var r := AllRounded(datagrams);
    forall i | 0 <= i < |datagrams|
      ensures r[i] == datagrams[i] <==> IsWhole(datagrams[i].receiveTime)
    {
      RoundingKeepsWhole(datagrams[i].receiveTime);
    }
  }

  /** Writing and reading returns the same capture exactly when every time is a whole number of microseconds. */
  lemma CaptureIsReadBack(magic: string, c: Capture)
    requires IsMagic(magic) && IsWritable(c)
    ensures Read(magic, Written(magic, c)) == Some(c) <==> AreWhole(c.datagrams)
  {
    hide Read, Written, IsMagic, IsField, IsRecordable, AreWhole;
    WrittenIsRead(magic, c);
    RoundingKeepsIff(c.datagrams);
  }
}
