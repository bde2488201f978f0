/** Words, lines and decimal numbers in text, as formatted input and output of the classic locale has them. */
module Text {
  import opened Bytes

  predicate IsSpace(c: char) {
    c as int == 32 || 9 <= c as int <= 13
  }

  predicate IsWord(s: string) {
    s != "" && forall i :: 0 <= i < |s| ==> !IsSpace(s[i])
  }

  // ---- Words ----

  function WordLength(s: string): (n: nat)
    ensures n <= |s|
    ensures s != "" && !IsSpace(s[0]) ==> n > 0
  {
    if s == "" || IsSpace(s[0]) then 0 else 1 + WordLength(s[1..])
  }

  /** The words of a line. */
  function Words(s: string): seq<string>
    decreases |s|
  {
    if s == "" then []
    else if IsSpace(s[0]) then Words(s[1..])
    else [s[..WordLength(s)]] + Words(s[WordLength(s)..])
  }

  lemma {:induction false} WordGoesOn(w: string, rest: string)
    requires forall i :: 0 <= i < |w| ==> !IsSpace(w[i])
    requires rest == "" || IsSpace(rest[0])
    ensures WordLength(w + rest) == |w|
  {
    if w == "" {
      assert w + rest == rest;
    } else {
      assert (w + rest)[1..] == w[1..] + rest;
      WordGoesOn(w[1..], rest);
    }
  }

  lemma WordThenRest(w: string, rest: string)
    requires IsWord(w) && (rest == "" || IsSpace(rest[0]))
    ensures Words(w + rest) == [w] + Words(rest)
  {
    WordGoesOn(w, rest);
    assert (w + rest)[0] == w[0] && !IsSpace(w[0]);
    assert (w + rest)[..|w|] == w && (w + rest)[|w|..] == rest;
  }

  lemma {:induction false} BlankThenRest(blank: string, rest: string)
    requires forall i :: 0 <= i < |blank| ==> IsSpace(blank[i])
    ensures Words(blank + rest) == Words(rest)
  {
    if blank == "" {
      assert blank + rest == rest;
    } else {
      assert (blank + rest)[1..] == blank[1..] + rest;
      BlankThenRest(blank[1..], rest);
    }
  }

  /** Words with one space between. */
  function Spaced(words: seq<string>): string {
    if words == [] then ""
    else if |words| == 1 then words[0]
    else words[0] + " " + Spaced(words[1..])
  }

  lemma {:induction false} SpacedIsRead(words: seq<string>, rest: string)
    requires words != [] && forall i :: 0 <= i < |words| ==> IsWord(words[i])
    requires forall i :: 0 <= i < |rest| ==> IsSpace(rest[i])
    ensures Words(Spaced(words) + rest) == words
  {
    hide IsWord;
    if |words| == 1 {
      WordThenRest(words[0], rest);
      BlankThenRest(rest, "");
      assert rest + "" == rest && words == [words[0]] + [];
    } else {
      SpacedIsRead(words[1..], rest);
      var after := Spaced(words[1..]) + rest;
      assert Spaced(words) + rest == words[0] + (" " + after);
      WordThenRest(words[0], " " + after);
      BlankThenRest(" ", after);
      assert words == [words[0]] + words[1..];
    }
  }

  // ---- Lines ----

  function LineLength(s: string): (n: nat)
    ensures n <= |s| && (n < |s| ==> s[n] == '\n')
    ensures forall k :: 0 <= k < n ==> s[k] != '\n'
  {
    if s == "" || s[0] == '\n' then 0 else 1 + LineLength(s[1..])
  }

  /** The lines of a text; a last line needs no line feed, and an empty one after it is none. */
  function Lines(s: string): seq<string>
    decreases |s|
  {
    if s == "" then []
    else
      var n := LineLength(s);
      [s[..n]] + if n < |s| then Lines(s[n + 1..]) else []
  }

  function Joined(lines: seq<string>): string {
    if lines == [] then "" else lines[0] + "\n" + Joined(lines[1..])
  }

  predicate IsLine(s: string) {
    forall i :: 0 <= i < |s| ==> s[i] != '\n'
  }

  lemma {:induction false} LineEnds(line: string, rest: string)
    requires IsLine(line)
    ensures LineLength(line + "\n" + rest) == |line|
  {
    var s := line + "\n" + rest;
    if line == "" {
      assert s[0] == '\n';
    } else {
      assert s[1..] == line[1..] + "\n" + rest;
      LineEnds(line[1..], rest);
    }
  }

  lemma FirstLine(line: string, rest: string)
    requires IsLine(line)
    ensures Lines(line + "\n" + rest) == [line] + Lines(rest)
  {
    hide IsLine, LineLength;
    var s := line + "\n" + rest;
    LineEnds(line, rest);
    assert s[..|line|] == line && s[|line| + 1..] == rest;
  }

  lemma {:induction false} JoinedIsRead(lines: seq<string>)
    requires forall i :: 0 <= i < |lines| ==> IsLine(lines[i])
    ensures Lines(Joined(lines)) == lines
  {
    hide IsLine, Lines;
    if lines != [] {
      JoinedIsRead(lines[1..]);
      FirstLine(lines[0], Joined(lines[1..]));
    } else {
      NoLines();
    }
  }

  lemma NoLines()
    ensures Lines("") == []
  {
  }

  // ---- Numbers ----

  predicate IsDigit(c: char) {
    '0' <= c <= '9'
  }

  function Digit(n: nat): (c: char)
    requires n < 10
    ensures IsDigit(c)
  {
    (n + 48) as char
  }

  function Value(c: char): (n: nat)
    requires IsDigit(c)
    ensures n < 10
  {
    c as int - 48
  }

  predicate AreDigits(s: string) {
    forall i :: 0 <= i < |s| ==> IsDigit(s[i])
  }

  /** The decimal of a number, without leading zeros. */
  function Decimal(n: nat): (s: string)
    ensures s != "" && AreDigits(s)
  {
    if n < 10 then [Digit(n)] else Decimal(n / 10) + [Digit(n % 10)]
  }

  /** The last `width` digits of a number. */
  function Padded(n: nat, width: nat): (s: string)
    ensures |s| == width && AreDigits(s)
  {
    if width == 0 then "" else Padded(n / 10, width - 1) + [Digit(n % 10)]
  }

  function NumberIn(s: string): nat
    requires AreDigits(s)
  {
    if s == "" then 0 else NumberIn(s[..|s| - 1]) * 10 + Value(s[|s| - 1])
  }

  /** A number written in digits, and nothing else. */
  function ReadNumber(s: string): Option<nat> {
    if s == "" || !AreDigits(s) then None else Some(NumberIn(s))
  }

  lemma {:induction false} DecimalIsRead(n: nat)
    ensures ReadNumber(Decimal(n)) == Some(n)
  {
    var s := Decimal(n);
    if n >= 10 {
      DecimalIsRead(n / 10);
      assert s[..|s| - 1] == Decimal(n / 10);
    } else {
      assert s == [Digit(n)] && s[..0] == "" && NumberIn("") == 0;
      assert NumberIn(s) == Value(Digit(n));
    }
  }

  function Tens(n: nat): (r: nat)
    ensures r > 0
  {
    if n == 0 then 1 else 10 * Tens(n - 1)
  }

  lemma {:induction false} PaddedIsRead(n: nat, width: nat)
    requires n < Tens(width)
    ensures NumberIn(Padded(n, width)) == n
  {
    if width > 0 {
      PaddedIsRead(n / 10, width - 1);
      var s := Padded(n, width);
      assert s[..width - 1] == Padded(n / 10, width - 1);
    }
  }

  lemma WordsOfDigits(s: string)
    requires s != "" && AreDigits(s)
    ensures IsWord(s)
  {
  }

  /** Digits without a leading zero are the decimal of the number they write. */
  lemma {:induction false} DecimalIsUnique(s: string)
    requires s != "" && AreDigits(s) && (|s| > 1 ==> s[0] != '0')
    ensures Decimal(NumberIn(s)) == s && (s[0] != '0' ==> NumberIn(s) > 0)
  {
    var front, last := s[..|s| - 1], s[|s| - 1];
    assert s == front + [last] && Digit(Value(last)) == last;
    if front == "" {
      assert NumberIn(front) == 0;
    } else {
      DecimalIsUnique(front);
      assert NumberIn(s) / 10 == NumberIn(front) && NumberIn(s) % 10 == Value(last);
    }
  }
}
