/** Whatever the capture reader accepts, the writer can write, and writing it down again loses only what is finer than a microsecond. */
module CaptureReading {
  import opened Bytes
  import opened Text
  import opened PacketCapture
  import opened CaptureRoundTrip

  lemma {:induction false} WordEnds(s: string)
    ensures forall i :: 0 <= i < WordLength(s) ==> !IsSpace(s[i])
  {
    if s != "" && !IsSpace(s[0]) {
      WordEnds(s[1..]);
    }
  }

  lemma {:induction false} WordsAreWords(s: string)
    ensures forall i :: 0 <= i < |Words(s)| ==> IsWord(Words(s)[i])
    decreases |s|
  {
    if s != "" {
      if IsSpace(s[0]) {
        WordsAreWords(s[1..]);
      } else {
        WordEnds(s);
        WordsAreWords(s[WordLength(s)..]);
      }
    }
  }

  predicate HasFields(c: Capture) {
    IsField(c.sender) && IsField(c.device) && IsField(c.sourceId) && IsField(c.listen) && IsField(c.peer)
  }

  /** Nothing recorded so far is later than this. */
  predicate Until(datagrams: seq<Datagram>, time: Option<real>) {
    datagrams != [] ==> time.Some? && datagrams[|datagrams| - 1].receiveTime <= time.value
  }

  /** The record being filled can be recorded, at the clock's time, and its length is within the bound. */
  predicate CanFinish(r: Reading) {
    r.open.Some? ==>
      IsRecordable(r.open.value) && r.declared <= 65507 && r.previous == Some(r.open.value.receiveTime)
  }

  /** What holds between any two lines. */
  predicate Sane(r: Reading) {
    && HasFields(r.result) && IsField(r.peer) && r.peer != "-"
    && AreRecordable(r.result.datagrams) && InOrder(r.result.datagrams)
    && Until(r.result.datagrams, r.previous) && CanFinish(r)
  }

  lemma FinishKeeps(r: Reading, d: Datagram)
    requires Sane(r.(open := None)) && IsRecordable(d) && r.previous == Some(d.receiveTime)
    ensures Sane(Finish(r, d))
  {
    hide IsField;
  }

  lemma RecordKeeps(r: Reading, words: seq<string>)
    requires Sane(r) && TakeRecord(r, words).Some?
    ensures Sane(TakeRecord(r, words).value)
  {
    hide IsField, ReadTime, ReadInteger;
    var time, length := ReadTime(words[1]), ReadInteger(words[2]);
    var d, r' := Datagram(time.value, r.peer, []), r.(previous := time, declared := length.value);
    if length.value == 0 {
      FinishKeeps(r', d);
    }
  }

  lemma HexKeeps(r: Reading, line: string)
    requires Sane(r) && r.open.Some? && TakeHex(r, line).Some?
    ensures Sane(TakeHex(r, line).value)
  {
    hide IsField, HexLine;
    var d := r.open.value.(payload := r.open.value.payload + HexLine(line).value);
    if |d.payload| == r.declared {
      FinishKeeps(r, d);
    }
  }

  /** A header line changes one field of the header and nothing else. */
  lemma HeaderShape(r: Reading, words: seq<string>)
    requires TakeHeader(r, words).Some? && HasFields(r.result) && (|words| == 2 ==> IsField(words[1]))
    ensures var r' := TakeHeader(r, words).value;
            (r' == r.(result := r'.result) && r'.result.datagrams == r.result.datagrams && HasFields(r'.result))
  {
    hide IsField;
  }

  lemma WordIsAField(words: seq<string>)
    requires forall i :: 0 <= i < |words| ==> IsWord(words[i])
    ensures |words| == 2 ==> IsField(words[1])
  {
  }

  lemma HeaderKeeps(r: Reading, words: seq<string>)
    requires Sane(r) && TakeHeader(r, words).Some? && forall i :: 0 <= i < |words| ==> IsWord(words[i])
    ensures Sane(TakeHeader(r, words).value)
  {
    hide IsWord, IsRecordable, InOrder, TakeHeader, HasFields;
    WordIsAField(words);
    HeaderShape(r, words);
  }

  lemma LineKeeps(magic: string, r: Reading, raw: string)
    requires Sane(r) && StepLine(magic, r, raw).Some?
    ensures Sane(StepLine(magic, r, raw).value)
  {
    hide IsRecordable, InOrder, TakeRecord, TakeHex, TakeHeader, Words, FirstNonBlank;
    var line := Uncarried(raw);
    var words := Words(line);
    WordsAreWords(line);
    var keyword := if words == [] then "" else words[0];
    if FirstNonBlank(line) < |line| && line[FirstNonBlank(line)] != '#' && r.sawMagic && keyword != "p" {
      if keyword == "d" {
        RecordKeeps(r, words);
      } else if r.open.Some? {
        HexKeeps(r, line);
      } else {
        HeaderKeeps(r, words);
      }
    }
  }

  lemma {:induction false} LinesKeep(magic: string, r: Reading, lines: seq<string>)
    requires Sane(r) && ReadLines(magic, r, lines).Some?
    ensures Sane(ReadLines(magic, r, lines).value)
    decreases |lines|
  {
    hide StepLine, Sane;
    if lines != [] {
      LineKeeps(magic, r, lines[0]);
      LinesKeep(magic, StepLine(magic, r, lines[0]).value, lines[1..]);
    }
  }

  lemma BlankIsSane()
    ensures Sane(BLANK)
  {
  }

  /** Every capture read is one the writer's format can hold. */
  lemma ReadIsWritable(magic: string, text: string)
    requires Read(magic, text).Some?
    ensures IsWritable(Read(magic, text).value)
  {
    hide ReadLines, Lines, IsField, IsRecordable;
    BlankIsSane();
    LinesKeep(magic, BLANK, Lines(text));
  }

  /** However a capture was laid out, writing down what was read of it keeps every time to the nearest microsecond and all the rest. */
  lemma RewrittenIsRounded(magic: string, text: string)
    requires IsMagic(magic) && Read(magic, text).Some?
    ensures IsWritable(Read(magic, text).value)
    ensures Read(magic, Written(magic, Read(magic, text).value)) == Some(RoundedCapture(Read(magic, text).value))
  {
    hide Read, Written, IsMagic, IsField, IsRecordable;
    ReadIsWritable(magic, text);
    WrittenIsRead(magic, Read(magic, text).value);
  }

  /** What was read is read back from its rewriting exactly when every time it holds is a whole number of microseconds. */
  lemma RewrittenIsReadBack(magic: string, text: string)
    requires IsMagic(magic) && Read(magic, text).Some?
    ensures Read(magic, Written(magic, Read(magic, text).value)) == Read(magic, text)
      <==> AreWhole(Read(magic, text).value.datagrams)
  {
    hide Read, Written, IsWritable, IsMagic, AreWhole;
    ReadIsWritable(magic, text);
    CaptureIsReadBack(magic, Read(magic, text).value);
  }

  lemma RoundedIsWritable(c: Capture)
    requires IsWritable(c)
    ensures IsWritable(RoundedCapture(c)) && AreWhole(RoundedCapture(c).datagrams)
  {
    hide Rounded, IsWhole, IsField;
    var d, r := c.datagrams, AllRounded(c.datagrams);
    forall i | 0 <= i < |d|
      ensures IsRecordable(r[i]) && IsWhole(r[i].receiveTime)
      ensures i < |d| - 1 ==> r[i].receiveTime <= r[i + 1].receiveTime
    {
      assert IsRecordable(d[i]);
      RoundingKeepsWhole(d[i].receiveTime);
      if i < |d| - 1 {
        assert IsRecordable(d[i + 1]);
        RoundingKeepsOrder(d[i].receiveTime, d[i + 1].receiveTime);
      }
    }
  }

  /** Rewriting settles at once: what was rewritten and read is read back from every further rewriting. */
  lemma RewritingSettles(magic: string, text: string)
    requires IsMagic(magic) && Read(magic, text).Some?
    ensures var again := Read(magic, Written(magic, Read(magic, text).value));
            again.Some? && Read(magic, Written(magic, again.value)) == again
  {
    hide Read, Written, IsMagic, IsField, IsRecordable, AreWhole, AllRounded;
    var c := Read(magic, text).value;
    RewrittenIsRounded(magic, text);
    RoundedIsWritable(c);
    CaptureIsReadBack(magic, RoundedCapture(c));
  }

  // ---- A time too fine ----

  lemma SmallNumbers()
    ensures AreDigits("0") && NumberIn("0") == 0 && AreDigits("1") && NumberIn("1") == 1 && AreDigits("3") && NumberIn("3") == 3
    ensures AreDigits("5") && NumberIn("5") == 5 && AreDigits("7") && NumberIn("7") == 7 && AreDigits("") && NumberIn("") == 0
  {
    OneDigit("0", 0);
    OneDigit("1", 1);
    OneDigit("3", 3);
    OneDigit("5", 5);
    OneDigit("7", 7);
  }

  lemma OneDigit(s: string, n: nat)
    requires n < 10 && s == [Digit(n)]
    ensures AreDigits(s) && NumberIn(s) == n
  {
    assert s[..0] == "" && NumberIn("") == 0;
  }

  lemma TenMillionths()
    ensures AreDigits("0000001") && NumberIn("0000001") == 1
    ensures Tens(0) == 1 && Tens(1) == 10 && Tens(7) == 10_000_000
  {
    assert Tens(6) == 1_000_000 && Tens(7) == 10 * Tens(6);
    PaddedIsRead(1, 7);
    assert Padded(0, 1) == "0" && Padded(0, 2) == "00" && Padded(0, 3) == "000" && Padded(0, 4) == "0000";
    assert Padded(0, 5) == "00000" && Padded(0, 6) == "000000" && Padded(1, 7) == "0000001";
  }

  lemma WholeTime()
    ensures ReadTime("3") == Some(3.0)
  {
    hide NumberIn, Tens, FirstOf;
    SmallNumbers();
    TenMillionths();
    NoneOf("3", '.');
    NoneOf("3", 'e');
    NoneOf("3", 'E');
    assert "3"[..1] == "3" && "3" + "" == "3";
  }

  lemma ExponentTime()
    ensures ReadTime("1e-7") == Some(0.0000001)
  {
    hide NumberIn, Tens, FirstOf;
    SmallNumbers();
    TenMillionths();
    FirstOfAfter("1", 'e', "-7");
    assert "1" + ['e'] + "-7" == "1e-7";
    NoneOf("1e-7", 'E');
    NoneOf("1", '.');
    assert "1e-7"[..1] == "1" && "1e-7"[2..] == "-7" && "-7"[1..] == "7" && "1"[..1] == "1" && "1" + "" == "1";
    assert ReadPlain("1") == Some(1.0);
  }

  /** Times are read in every spelling: no point, few decimals, many, or an exponent. */
  lemma SpellingsOfTimes()
    ensures ReadTime("3") == Some(3.0) && ReadTime("0.5") == Some(0.5) && ReadTime("0.0000001") == Some(0.0000001)
    ensures ReadTime("1e-7") == Some(0.0000001)
  {
    hide ReadTime, NumberIn, Tens;
    WholeTime();
    ExponentTime();
    SmallNumbers();
    TenMillionths();
    PlainIsRead("0", "5");
    PlainIsRead("0", "0000001");
    assert "0" + "." + "5" == "0.5" && "0" + "." + "0000001" == "0.0000001";
  }

  lemma FineLine(magic: string, r: Reading)
    requires r.sawMagic && r.open.None? && r.previous.None?
    ensures StepLine(magic, r, "d 0.0000001 0")
         == Some(Finish(r.(previous := Some(0.0000001), declared := 0), Datagram(0.0000001, r.peer, [])))
  {
    hide Words, ReadTime, ReadInteger, TakeMagic, TakePeer, TakeHex, TakeHeader;
    SpellingsOfTimes();
    var words := ["d", "0.0000001", "0"];
    assert words[1..] == ["0.0000001", "0"] && words[1..][1..] == ["0"];
    assert Spaced(words[1..]) == "0.0000001 0";
    assert Spaced(words) == "d 0.0000001 0";
    LengthIsRead(0);
    assert Decimal(0) == "0";
    PlainLine(words);
  }

  lemma MagicIsALine(magic: string)
    requires IsMagic(magic)
    ensures IsLine(Spaced([magic, "1"])) && IsLine("d 0.0000001 0")
  {
    OneIsRead();
    WordsAreALine([magic, "1"]);
  }

  /** A capture with a time finer than a microsecond is accepted, and is not read back from its rewriting. */
  lemma FineTimeIsLost(magic: string)
    requires IsMagic(magic)
    ensures var text := Joined([Spaced([magic, "1"]), "d 0.0000001 0"]);
            Read(magic, text).Some? && Read(magic, Written(magic, Read(magic, text).value)) != Read(magic, text)
  {
    hide IsMagic, Spaced, StepLine, Written, ReadTime;
    var first, line := Spaced([magic, "1"]), "d 0.0000001 0";
    var r := BLANK.(sawMagic := true);
    MagicIsRead(magic);
    FineLine(magic, r);
    MagicIsALine(magic);
    JoinedIsRead([first, line]);
    var d := Datagram(0.0000001, "", []);
    assert [first, line][1..] == [line] && [line][1..] == [];
    assert ReadLines(magic, r, [line]) == StepLine(magic, r, line);
    var text := Joined([first, line]);
    assert Read(magic, text).value.datagrams == [d];
    RewrittenIsReadBack(magic, text);
    assert !IsWhole(d.receiveTime);
    assert [d][0] == d;
  }
}
