/**
 An operator's statement of which tracker sits on which body region: its text, its validity, and what
 it binds in an observation, as TrackerAssignment.cpp and TrackerRegion.cpp do it.
 */
module TrackerAssignment {
  import opened Bytes
  import opened Text

  /** `NoRegion` and `NoPolicy` stand for a value outside the enumeration. */
  datatype Region =
    | Head | Chest | Hips
    | LeftElbow | LeftHand | LeftKnee | LeftFoot
    | RightElbow | RightHand | RightKnee | RightFoot
    | NoRegion

  datatype Policy = Refuse | Ignore | Hold | NoPolicy

  datatype Statement = Statement(tracker: string, region: Region)

  datatype Spec = Spec(statements: seq<Statement>, unplaced: Policy)

  datatype Refusal = NoRefusal | SpecInvalid | ObservationInvalid | UnplacedTracker | Held | NothingPlaced

  datatype Binding = Binding(region: Region, observedIndex: nat)

  datatype Assignment = Assignment(
    refusal: Refusal,
    bound: seq<Binding>,
    unplaced: seq<nat>,
    absent: seq<Region>,
    observedTrackers: seq<string>)

  predicate Placed(a: Assignment) {
    a.refusal.NoRefusal?
  }

  // ---- Region names ----

  function RegionName(r: Region): string {
    match r
    case Head => "head"
    case Chest => "chest"
    case Hips => "hips"
    case LeftElbow => "leftElbow"
    case LeftHand => "leftHand"
    case LeftKnee => "leftKnee"
    case LeftFoot => "leftFoot"
    case RightElbow => "rightElbow"
    case RightHand => "rightHand"
    case RightKnee => "rightKnee"
    case RightFoot => "rightFoot"
    case NoRegion => ""
  }

  const REGIONS := [Head, Chest, Hips, LeftElbow, LeftHand, LeftKnee, LeftFoot, RightElbow, RightHand, RightKnee, RightFoot]

  /** The first region from position `i` of the vocabulary whose name this is. */
  function RegionFrom(name: string, i: nat): (region: Option<Region>)
    requires i <= |REGIONS|
    ensures region.Some? ==> !region.value.NoRegion? && RegionName(region.value) == name
    decreases |REGIONS| - i
  {
    if i == |REGIONS| then None
    else if RegionName(REGIONS[i]) == name then Some(REGIONS[i])
    else RegionFrom(name, i + 1)
  }

  method ParseRegion(name: string) returns (region: Option<Region>)
    ensures region == RegionFrom(name, 0)
  {
    hide RegionName;
    for i := 0 to |REGIONS|
      invariant RegionFrom(name, i) == RegionFrom(name, 0)
    {
      if RegionName(REGIONS[i]) == name {
        return Some(REGIONS[i]);
      }
    }
    region := None;
  }

  lemma NamesDiffer(r: Region, q: Region)
    requires RegionName(r) == RegionName(q)
    ensures r == q
  {
  }

  lemma {:induction false} SearchReaches(r: Region, i: nat, k: nat)
    requires i <= k < |REGIONS| && REGIONS[k] == r
    ensures RegionFrom(RegionName(r), i).Some?
    decreases k - i
  {
    hide RegionName;
    if i < k {
      SearchReaches(r, i + 1, k);
    }
  }

  /** A region's name is read back as that region. */
  lemma NameIsReadBack(r: Region)
    requires !r.NoRegion?
    ensures RegionFrom(RegionName(r), 0) == Some(r)
  {
    hide RegionName, RegionFrom;
    assert r in REGIONS;
    var k :| 0 <= k < |REGIONS| && REGIONS[k] == r;
    SearchReaches(r, 0, k);
    NamesDiffer(RegionFrom(RegionName(r), 0).value, r);
  }

  /** The vocabulary, name by name; any other name is no region's. */
  lemma RegionOfName(name: string)
    ensures RegionFrom(name, 0) ==
      if name == "head" then Some(Head)
      else if name == "chest" then Some(Chest)
      else if name == "hips" then Some(Hips)
      else if name == "leftElbow" then Some(LeftElbow)
      else if name == "leftHand" then Some(LeftHand)
      else if name == "leftKnee" then Some(LeftKnee)
      else if name == "leftFoot" then Some(LeftFoot)
      else if name == "rightElbow" then Some(RightElbow)
      else if name == "rightHand" then Some(RightHand)
      else if name == "rightKnee" then Some(RightKnee)
      else if name == "rightFoot" then Some(RightFoot)
      else None
  {
    hide RegionFrom;
    var region := RegionFrom(name, 0);
    forall r: Region | !r.NoRegion?
      ensures RegionFrom(RegionName(r), 0) == Some(r)
    {
      NameIsReadBack(r);
    }
    assert RegionName(Head) == "head";
    assert RegionName(Chest) == "chest";
    assert RegionName(Hips) == "hips";
    assert RegionName(LeftElbow) == "leftElbow";
    assert RegionName(LeftHand) == "leftHand";
    assert RegionName(LeftKnee) == "leftKnee";
    assert RegionName(LeftFoot) == "leftFoot";
    assert RegionName(RightElbow) == "rightElbow";
    assert RegionName(RightHand) == "rightHand";
    assert RegionName(RightKnee) == "rightKnee";
    assert RegionName(RightFoot) == "rightFoot";
  }

  // ---- Valid statements ----

  predicate IsSeparator(c: char) {
    IsSpace(c) || c == ','
  }

  predicate EndsToken(c: char) {
    IsSeparator(c) || c == '#'
  }

  /** A tracker's name that a statement can be written down with. */
  predicate IsWritable(tracker: string) {
    tracker != "" && forall i :: 0 <= i < |tracker| ==> !EndsToken(tracker[i]) && tracker[i] != '='
  }

  predicate ValidStatements(statements: seq<Statement>, n: nat)
    requires n <= |statements|
  {
    && (forall i :: 0 <= i < n ==> IsWritable(statements[i].tracker) && !statements[i].region.NoRegion?)
    && forall i, j :: 0 <= j < i < n ==>
         statements[j].tracker != statements[i].tracker && statements[j].region != statements[i].region
  }

  predicate ValidSpec(spec: Spec) {
    spec.statements != [] && !spec.unplaced.NoPolicy? && ValidStatements(spec.statements, |spec.statements|)
  }

  method IsWritableIdentity(tracker: string) returns (writable: bool)
    ensures writable <==> IsWritable(tracker)
  {
    if tracker == "" {
      return false;
    }
    for i := 0 to |tracker|
      invariant forall k :: 0 <= k < i ==> !EndsToken(tracker[k]) && tracker[k] != '='
    {
      if IsSpace(tracker[i]) || tracker[i] == '=' || tracker[i] == ',' || tracker[i] == '#' {
        return false;
      }
    }
    writable := true;
  }

  method ValidateTrackerAssignmentSpec(spec: Spec) returns (valid: bool)
    ensures valid <==> ValidSpec(spec)
  {
    hide IsWritable;
    if spec.statements == [] || spec.unplaced.NoPolicy? {
      return false;
    }
    for i := 0 to |spec.statements|
      invariant ValidStatements(spec.statements, i)
    {
      var statement := spec.statements[i];
      var writable := IsWritableIdentity(statement.tracker);
      if !writable || statement.region.NoRegion? {
        return false;
      }
      for j := 0 to i
        invariant forall k :: 0 <= k < j ==>
          spec.statements[k].tracker != statement.tracker && spec.statements[k].region != statement.region
      {
        if spec.statements[j].tracker == statement.tracker || spec.statements[j].region == statement.region {
          return false;
        }
      }
    }
    valid := true;
  }

  // ---- The text ----

  /** How many characters of the text belong to the token it begins with. */
  function TokenLength(text: string): (n: nat)
    ensures n <= |text|
    ensures text != "" && !EndsToken(text[0]) ==> n > 0
  {
    if text == "" || EndsToken(text[0]) then 0 else 1 + TokenLength(text[1..])
  }

  function Tokens(text: string): seq<string>
    decreases |text|
  {
    if text == "" then []
    else if IsSeparator(text[0]) then Tokens(text[1..])
    else if text[0] == '#' then Tokens(text[LineLength(text)..])
    else [text[..TokenLength(text)]] + Tokens(text[TokenLength(text)..])
  }

  function IndexOf(s: string, c: char): (i: nat)
    ensures i <= |s| && (i < |s| ==> s[i] == c)
    ensures forall k :: 0 <= k < i ==> s[k] != c
  {
    if s == "" || s[0] == c then 0 else 1 + IndexOf(s[1..], c)
  }

  /** What one token states: a tracker before its first equals sign and a region's name after it. */
  function StatementIn(token: string): Option<Statement> {
    var split := IndexOf(token, '=');
    if split == |token| then None
    else
      var region := RegionFrom(token[split + 1..], 0);
      if region.None? then None else Some(Statement(token[..split], region.value))
  }

  function Statements(tokens: seq<string>): Option<seq<Statement>> {
    if tokens == [] then Some([])
    else
      var first, rest := StatementIn(tokens[0]), Statements(tokens[1..]);
      if first.None? || rest.None? then None else Some([first.value] + rest.value)
  }

  /** The specification a text states, under the policy its caller already had. */
  function Parsed(text: string, unplaced: Policy): (spec: Option<Spec>)
    ensures spec.Some? ==> ValidSpec(spec.value)
  {
    var statements := Statements(Tokens(text));
    if statements.Some? && ValidSpec(Spec(statements.value, unplaced)) then Some(Spec(statements.value, unplaced))
    else None
  }

  lemma {:induction false} StatementsAppend(a: seq<string>, b: seq<string>)
    requires Statements(a).Some?
    ensures Statements(a + b) == if Statements(b).None? then None else Some(Statements(a).value + Statements(b).value)
  {
    hide StatementIn;
    if a == [] {
      assert a + b == b;
      if Statements(b).Some? {
        assert [] + Statements(b).value == Statements(b).value;
      }
    } else {
      assert (a + b)[1..] == a[1..] + b;
      StatementsAppend(a[1..], b);
      if Statements(b).Some? {
        var first := StatementIn(a[0]).value;
        assert [first] + (Statements(a[1..]).value + Statements(b).value) == ([first] + Statements(a[1..]).value) + Statements(b).value;
      }
    }
  }

  /** The end of the comment that begins at `i`: its line feed, or the end of the text. */
  method SkipComment(text: string, i: nat) returns (end: nat)
    requires i < |text| && text[i] == '#'
    ensures i < end <= |text| && Tokens(text[i..]) == Tokens(text[end..])
  {
    hide Tokens;
    CommentIsSkipped(text[i..]);
    end := i;
    while end < |text| && text[end] != '\n'
      invariant i <= end <= |text|
      invariant LineLength(text[i..]) == end - i + LineLength(text[end..])
    {
      assert text[end..][1..] == text[end + 1..];
      end := end + 1;
    }
    assert text[i..][end - i..] == text[end..];
  }

  lemma CommentIsSkipped(text: string)
    requires text != "" && text[0] == '#'
    ensures Tokens(text) == Tokens(text[LineLength(text)..])
  {
  }

  /** The end of the token that begins at `i`. */
  method TakeToken(text: string, i: nat) returns (end: nat)
    requires i < |text| && !EndsToken(text[i])
    ensures i < end <= |text| && Tokens(text[i..]) == [text[i..end]] + Tokens(text[end..])
  {
    hide Tokens;
    TokenComesFirst(text[i..]);
    end := i;
    while end < |text| && !IsSeparator(text[end]) && text[end] != '#'
      invariant i <= end <= |text|
      invariant TokenLength(text[i..]) == end - i + TokenLength(text[end..])
    {
      assert text[end..][1..] == text[end + 1..];
      end := end + 1;
    }
    assert text[i..][..end - i] == text[i..end] && text[i..][end - i..] == text[end..];
    assert text[i..][0] == text[i];
  }

  lemma TokenComesFirst(text: string)
    requires text != "" && !EndsToken(text[0])
    ensures Tokens(text) == [text[..TokenLength(text)]] + Tokens(text[TokenLength(text)..])
  {
  }

  method ParseTrackerAssignmentSpec(text: string, unplaced: Policy) returns (out: Option<Spec>)
    ensures out == Parsed(text, unplaced)
  {
    hide StatementIn, ValidSpec, IsSeparator, Statements, Tokens;
    var statements := [];
    ghost var done: seq<string> := [];
    NoStatements();
    var i := 0;
    while i < |text|
      invariant 0 <= i <= |text|
      invariant Tokens(text) == done + Tokens(text[i..])
      invariant Statements(done) == Some(statements)
    {
      if IsSeparator(text[i]) {
        SeparatorIsSkipped(text, i);
        i := i + 1;
      } else if text[i] == '#' {
        i := SkipComment(text, i);
      } else {
        var end := TakeToken(text, i);
        var token := text[i..end];
        var statement := ReadStatement(token);
        StatementOfOne(token);
        if statement.None? {
          StatementsRefused(done, token, Tokens(text[end..]));
          return None;
        }
        StatementsAppend(done, [token]);
        statements := statements + [statement.value];
        assert done + ([token] + Tokens(text[end..])) == done + [token] + Tokens(text[end..]);
        done := done + [token];
        i := end;
      }
    }
    assert text[|text|..] == "" && done + [] == done;
    var valid := ValidateTrackerAssignmentSpec(Spec(statements, unplaced));
    out := if valid then Some(Spec(statements, unplaced)) else None;
  }

  lemma SeparatorIsSkipped(text: string, i: nat)
    requires i < |text| && IsSeparator(text[i])
    ensures Tokens(text[i..]) == Tokens(text[i + 1..])
  {
    assert text[i..][1..] == text[i + 1..];
  }

  lemma NoStatements()
    ensures Statements([]) == Some([]) && Tokens("") == []
  {
  }

  lemma StatementOfOne(token: string)
    ensures Statements([token]) == if StatementIn(token).None? then None else Some([StatementIn(token).value])
  {
    hide StatementIn;
    assert [token][1..] == [];
    assert Statements([token][1..]) == Some([]);
    if StatementIn(token).Some? {
      assert [StatementIn(token).value] + [] == [StatementIn(token).value];
    }
  }

  lemma StatementsRefused(done: seq<string>, token: string, rest: seq<string>)
    requires Statements(done).Some? && StatementIn(token).None?
    ensures Statements(done + ([token] + rest)).None?
  {
    hide StatementIn;
    StatementsAppend(done, [token] + rest);
  }

  method ReadStatement(token: string) returns (statement: Option<Statement>)
    ensures statement == StatementIn(token)
  {
    var split := 0;
    while split < |token| && token[split] != '='
      invariant split <= |token|
      invariant IndexOf(token, '=') == split + IndexOf(token[split..], '=')
    {
      assert token[split..][1..] == token[split + 1..];
      split := split + 1;
    }
    if split == |token| {
      return None;
    }
    var region := ParseRegion(token[split + 1..]);
    statement := if region.None? then None else Some(Statement(token[..split], region.value));
  }

  // ---- Printing and reading back ----

  /** Text between statements: separators, and comments that end with their line. */
  predicate IsBlank(gap: string)
    decreases |gap|
  {
    || gap == ""
    || (IsSeparator(gap[0]) && IsBlank(gap[1..]))
    || (gap[0] == '#' && LineLength(gap) < |gap| && IsBlank(gap[LineLength(gap)..]))
  }

  function Printed(s: Statement): string {
    s.tracker + "=" + RegionName(s.region)
  }

  /** Statements each followed by a gap, in any layout. */
  function Layout(statements: seq<Statement>, gaps: seq<string>): string
    requires |gaps| == |statements|
  {
    if statements == [] then "" else Printed(statements[0]) + gaps[0] + Layout(statements[1..], gaps[1..])
  }

  lemma {:induction false} BlankIsSkipped(gap: string, rest: string)
    requires IsBlank(gap)
    ensures Tokens(gap + rest) == Tokens(rest)
    decreases |gap|
  {
    if gap == "" {
      assert gap + rest == rest;
    } else if IsSeparator(gap[0]) {
      assert (gap + rest)[1..] == gap[1..] + rest;
      BlankIsSkipped(gap[1..], rest);
    } else {
      LineGoesOn(gap, rest);
      var n := LineLength(gap);
      assert (gap + rest)[n..] == gap[n..] + rest;
      BlankIsSkipped(gap[n..], rest);
    }
  }

  lemma {:induction false} LineGoesOn(line: string, rest: string)
    requires LineLength(line) < |line|
    ensures LineLength(line + rest) == LineLength(line)
  {
    if line[0] != '\n' {
      assert (line + rest)[1..] == line[1..] + rest;
      LineGoesOn(line[1..], rest);
    }
  }

  lemma {:induction false} TokenGoesOn(token: string, rest: string)
    requires forall i :: 0 <= i < |token| ==> !EndsToken(token[i])
    requires rest == "" || EndsToken(rest[0])
    ensures TokenLength(token + rest) == |token|
  {
    if token == "" {
      assert token + rest == rest;
    } else {
      assert (token + rest)[1..] == token[1..] + rest;
      TokenGoesOn(token[1..], rest);
    }
  }

  lemma NamesAreWords(r: Region)
    ensures forall i :: 0 <= i < |RegionName(r)| ==> !EndsToken(RegionName(r)[i])
  {
    var name := RegionName(r);
    forall i | 0 <= i < |name|
      ensures !EndsToken(name[i])
    {
      assert 'A' <= name[i] <= 'z';
    }
  }

  lemma {:induction false} FirstIndex(s: string, c: char, rest: string)
    requires forall i :: 0 <= i < |s| ==> s[i] != c
    ensures IndexOf(s + [c] + rest, c) == |s|
  {
    if s != "" {
      FirstIndex(s[1..], c, rest);
      assert (s + [c] + rest)[1..] == s[1..] + [c] + rest;
    }
  }

  lemma PrintedIsRead(s: Statement)
    requires IsWritable(s.tracker) && !s.region.NoRegion?
    ensures StatementIn(Printed(s)) == Some(s)
    ensures Printed(s) != "" && forall i :: 0 <= i < |Printed(s)| ==> !EndsToken(Printed(s)[i])
  {
    hide RegionName;
    NameIsReadBack(s.region);
    NamesAreWords(s.region);
    FirstIndex(s.tracker, '=', RegionName(s.region));
    var token := Printed(s);
    assert token[..|s.tracker|] == s.tracker && token[|s.tracker| + 1..] == RegionName(s.region);
  }

  lemma {:induction false} LayoutIsRead(statements: seq<Statement>, gaps: seq<string>)
    requires |gaps| == |statements| && ValidStatements(statements, |statements|)
    requires forall i :: 0 <= i < |gaps| ==> IsBlank(gaps[i])
    requires forall i :: 0 <= i < |gaps| - 1 ==> gaps[i] != ""
    ensures Statements(Tokens(Layout(statements, gaps))) == Some(statements)
  {
    hide IsBlank, IsWritable, EndsToken, StatementIn, Printed, IsSeparator, Tokens, Statements;
    NoStatements();
    if statements != [] {
      var s, gap, rest := statements[0], gaps[0], Layout(statements[1..], gaps[1..]);
      LayoutIsRead(statements[1..], gaps[1..]);
      PrintedIsRead(s);
      if gap != "" {
        GapEndsToken(gap);
      }
      BlankIsSkipped(gap, rest);
      TokenThenRest(Printed(s), gap + rest);
      StatementFirst(Printed(s), Tokens(rest));
      assert Layout(statements, gaps) == Printed(s) + (gap + rest);
      assert statements == [s] + statements[1..];
    }
  }

  lemma StatementFirst(token: string, rest: seq<string>)
    requires StatementIn(token).Some? && Statements(rest).Some?
    ensures Statements([token] + rest) == Some([StatementIn(token).value] + Statements(rest).value)
  {
    hide StatementIn;
    assert ([token] + rest)[1..] == rest;
  }

  lemma GapEndsToken(gap: string)
    requires gap != "" && IsBlank(gap)
    ensures EndsToken(gap[0])
  {
  }

  lemma TokenThenRest(token: string, rest: string)
    requires token != "" && forall i :: 0 <= i < |token| ==> !EndsToken(token[i])
    requires rest == "" || EndsToken(rest[0])
    ensures Tokens(token + rest) == [token] + Tokens(rest)
  {
    TokenGoesOn(token, rest);
    assert !EndsToken(token[0]) && (token + rest)[0] == token[0];
    assert (token + rest)[..|token|] == token && (token + rest)[|token|..] == rest;
  }

  /** Whatever the layout and the comments, a valid specification's text is read back as it. */
  lemma SpecIsReadBack(spec: Spec, lead: string, gaps: seq<string>)
    requires ValidSpec(spec) && |gaps| == |spec.statements| && IsBlank(lead)
    requires forall i :: 0 <= i < |gaps| ==> IsBlank(gaps[i])
    requires forall i :: 0 <= i < |gaps| - 1 ==> gaps[i] != ""
    ensures Parsed(lead + Layout(spec.statements, gaps), spec.unplaced) == Some(spec)
  {
    LayoutIsRead(spec.statements, gaps);
    BlankIsSkipped(lead, Layout(spec.statements, gaps));
  }

  // ---- Assigning ----

  /** Where `tracker` first stands among the observed ones, from position `i`. */
  function IndexFrom(observed: seq<string>, tracker: string, i: nat): (at: Option<nat>)
    requires i <= |observed|
    ensures at.Some? ==> i <= at.value < |observed| && observed[at.value] == tracker
    ensures at.None? ==> forall k :: i <= k < |observed| ==> observed[k] != tracker
    decreases |observed| - i
  {
    if i == |observed| then None else if observed[i] == tracker then Some(i) else IndexFrom(observed, tracker, i + 1)
  }

  function BoundOf(statements: seq<Statement>, observed: seq<string>): seq<Binding> {
    if statements == [] then []
    else
      var last := statements[|statements| - 1];
      var at := IndexFrom(observed, last.tracker, 0);
      BoundOf(statements[..|statements| - 1], observed) + if at.Some? then [Binding(last.region, at.value)] else []
  }

  function AbsentOf(statements: seq<Statement>, observed: seq<string>): seq<Region> {
    if statements == [] then []
    else
      var last := statements[|statements| - 1];
      AbsentOf(statements[..|statements| - 1], observed)
      + if IndexFrom(observed, last.tracker, 0).None? then [last.region] else []
  }

  predicate Binds(bound: seq<Binding>, index: nat) {
    exists b :: 0 <= b < |bound| && bound[b].observedIndex == index
  }

  /** The first `n` observed trackers that nothing binds. */
  function UnplacedOf(bound: seq<Binding>, n: nat): (unplaced: seq<nat>)
    ensures forall i: nat :: i in unplaced <==> (i < n && !Binds(bound, i))
    ensures forall i :: 0 <= i < |unplaced| ==> unplaced[i] < n
    ensures forall i, k :: 0 <= i < k < |unplaced| ==> unplaced[i] < unplaced[k]
  {
    if n == 0 then [] else UnplacedOf(bound, n - 1) + if Binds(bound, n - 1) then [] else [n - 1]
  }

  /** Every observed tracker is named, and none twice. */
  predicate IsObservation(observed: seq<string>, n: nat)
    requires n <= |observed|
  {
    && (forall i :: 0 <= i < n ==> observed[i] != "")
    && forall i, j :: 0 <= j < i < n ==> observed[j] != observed[i]
  }

  function Assigned(spec: Spec, observed: seq<string>): Assignment {
    if !ValidSpec(spec) then Assignment(SpecInvalid, [], [], [], [])
    else
      var bound, absent := BoundOf(spec.statements, observed), AbsentOf(spec.statements, observed);
      var unplaced := UnplacedOf(bound, |observed|);
      var refusal :=
        if !IsObservation(observed, |observed|) then ObservationInvalid
        else if spec.unplaced.Hold? && (unplaced != [] || absent != []) then Held
        else if spec.unplaced.Refuse? && unplaced != [] then UnplacedTracker
        else if bound == [] then NothingPlaced
        else NoRefusal;
      Assignment(refusal, bound, unplaced, absent, observed)
  }

  method CheckObservation(observed: seq<string>) returns (valid: bool)
    ensures valid <==> IsObservation(observed, |observed|)
  {
    for i := 0 to |observed|
      invariant IsObservation(observed, i)
    {
      if observed[i] == "" {
        return false;
      }
      for j := 0 to i
        invariant forall k :: 0 <= k < j ==> observed[k] != observed[i]
      {
        if observed[j] == observed[i] {
          return false;
        }
      }
    }
    valid := true;
  }

  method BindStatements(statements: seq<Statement>, observed: seq<string>)
    returns (bound: seq<Binding>, absent: seq<Region>)
    ensures bound == BoundOf(statements, observed) && absent == AbsentOf(statements, observed)
  {
    bound, absent := [], [];
    for s := 0 to |statements|
      invariant bound == BoundOf(statements[..s], observed)
      invariant absent == AbsentOf(statements[..s], observed)
    {
      var statement := statements[s];
      assert statements[..s + 1][..s] == statements[..s];
      var i := 0;
      while i < |observed| && observed[i] != statement.tracker
        invariant i <= |observed|
        invariant IndexFrom(observed, statement.tracker, i) == IndexFrom(observed, statement.tracker, 0)
      {
        i := i + 1;
      }
      if i < |observed| {
        bound := bound + [Binding(statement.region, i)];
      } else {
        absent := absent + [statement.region];
      }
    }
    assert statements[..|statements|] == statements;
  }

  method IsBound(bound: seq<Binding>, index: nat) returns (placed: bool)
    ensures placed <==> Binds(bound, index)
  {
    for b := 0 to |bound|
      invariant forall k :: 0 <= k < b ==> bound[k].observedIndex != index
    {
      if bound[b].observedIndex == index {
        return true;
      }
    }
    placed := false;
  }

  lemma UnplacedStep(bound: seq<Binding>, n: nat)
    ensures UnplacedOf(bound, 0) == []
    ensures UnplacedOf(bound, n + 1) == UnplacedOf(bound, n) + if Binds(bound, n) then [] else [n]
  {
    hide Binds;
  }

  method FindUnplaced(bound: seq<Binding>, count: nat) returns (unplaced: seq<nat>)
    ensures unplaced == UnplacedOf(bound, count)
  {
    hide Binds, UnplacedOf;
    UnplacedStep(bound, 0);
    unplaced := [];
    for i := 0 to count
      invariant unplaced == UnplacedOf(bound, i)
    {
      UnplacedStep(bound, i);
      var placed := IsBound(bound, i);
      if !placed {
        unplaced := unplaced + [i];
      }
    }
  }

  method AssignTrackers(spec: Spec, observed: seq<string>) returns (assignment: Assignment)
    ensures assignment == Assigned(spec, observed)
  {
    hide ValidSpec, IsObservation, BoundOf, AbsentOf, UnplacedOf;
    var valid := ValidateTrackerAssignmentSpec(spec);
    if !valid {
      return Assignment(SpecInvalid, [], [], [], []);
    }
    var bound, absent := BindStatements(spec.statements, observed);
    var unplaced := FindUnplaced(bound, |observed|);
    var refusal := NoRefusal;
    var sound := CheckObservation(observed);
    if !sound {
      refusal := ObservationInvalid;
    } else if spec.unplaced.Hold? && (unplaced != [] || absent != []) {
      refusal := Held;
    } else if spec.unplaced.Refuse? && unplaced != [] {
      refusal := UnplacedTracker;
    } else if bound == [] {
      refusal := NothingPlaced;
    }
    assignment := Assignment(refusal, bound, unplaced, absent, observed);
  }

  // ---- Applying ----

  predicate BindingsApply(bound: seq<Binding>, n: nat, observedCount: nat)
    requires n <= |bound|
  {
    && (forall i :: 0 <= i < n ==> !bound[i].region.NoRegion? && bound[i].observedIndex < observedCount)
    && forall i, j :: 0 <= j < i < n ==>
         bound[j].region != bound[i].region && bound[j].observedIndex != bound[i].observedIndex
  }

  /** The assignment may be read against this observation. */
  predicate Applies(a: Assignment, observed: seq<string>) {
    && Placed(a) && a.bound != [] && BindingsApply(a.bound, |a.bound|, |observed|)
    && a.observedTrackers == observed && IsObservation(observed, |observed|)
  }

  method ValidateTrackerAssignmentObservation(a: Assignment, observed: seq<string>) returns (applies: bool)
    ensures applies <==> Applies(a, observed)
  {
    if !Placed(a) || a.bound == [] {
      return false;
    }
    for i := 0 to |a.bound|
      invariant BindingsApply(a.bound, i, |observed|)
    {
      var binding := a.bound[i];
      if binding.region.NoRegion? || binding.observedIndex >= |observed| {
        return false;
      }
      for j := 0 to i
        invariant forall k :: 0 <= k < j ==>
          a.bound[k].region != binding.region && a.bound[k].observedIndex != binding.observedIndex
      {
        if a.bound[j].region == binding.region || a.bound[j].observedIndex == binding.observedIndex {
          return false;
        }
      }
    }
    if |a.observedTrackers| != |observed| {
      return false;
    }
    for i := 0 to |observed|
      invariant IsObservation(observed, i) && a.observedTrackers[..i] == observed[..i]
    {
      if observed[i] == "" || a.observedTrackers[i] != observed[i] {
        return false;
      }
      for j := 0 to i
        invariant forall k :: 0 <= k < j ==> observed[k] != observed[i]
      {
        if observed[j] == observed[i] {
          return false;
        }
      }
    }
    applies := true;
  }

  // ---- What an assignment promises ----

  /** Which statement each binding came from. */
  lemma {:induction false} BoundComesFrom(statements: seq<Statement>, observed: seq<string>, b: nat) returns (k: nat)
    requires b < |BoundOf(statements, observed)|
    ensures k < |statements| && IndexFrom(observed, statements[k].tracker, 0).Some?
    ensures BoundOf(statements, observed)[b]
         == Binding(statements[k].region, IndexFrom(observed, statements[k].tracker, 0).value)
    ensures b == |BoundOf(statements[..k], observed)|
  {
    var front := statements[..|statements| - 1];
    if b < |BoundOf(front, observed)| {
      k := BoundComesFrom(front, observed, b);
      assert front[..k] == statements[..k];
    } else {
      k := |statements| - 1;
    }
  }

  /** No binding repeats a region or an observed tracker. */
  lemma BoundApplies(statements: seq<Statement>, observed: seq<string>)
    requires ValidStatements(statements, |statements|)
    ensures BindingsApply(BoundOf(statements, observed), |BoundOf(statements, observed)|, |observed|)
  {
    hide BoundOf, IndexFrom;
    var bound := BoundOf(statements, observed);
    forall i | 0 <= i < |bound|
      ensures !bound[i].region.NoRegion? && bound[i].observedIndex < |observed|
    {
      var k := BoundComesFrom(statements, observed, i);
    }
    forall i, j | 0 <= j < i < |bound|
      ensures bound[j].region != bound[i].region && bound[j].observedIndex != bound[i].observedIndex
    {
      var k := BoundComesFrom(statements, observed, i);
      var l := BoundComesFrom(statements, observed, j);
      assert k != l;
    }
  }

  /** Each stated region is bound or absent, each list in the order of the statements. */
  lemma {:induction false} StatedRegionsSplit(statements: seq<Statement>, observed: seq<string>)
    ensures multiset(RegionsBound(BoundOf(statements, observed))) + multiset(AbsentOf(statements, observed))
         == multiset(RegionsStated(statements))
  {
    if statements != [] {
      var front, last := statements[..|statements| - 1], statements[|statements| - 1];
      StatedRegionsSplit(front, observed);
      RegionsAppend(front, last);
      assert statements == front + [last];
      if IndexFrom(observed, last.tracker, 0).Some? {
        BoundRegionsAppend(BoundOf(front, observed), Binding(last.region, IndexFrom(observed, last.tracker, 0).value));
        assert AbsentOf(statements, observed) == AbsentOf(front, observed);
      } else {
        assert BoundOf(statements, observed) == BoundOf(front, observed);
      }
    }
  }

  lemma BoundRegionsAppend(bound: seq<Binding>, b: Binding)
    ensures RegionsBound(bound + [b]) == RegionsBound(bound) + [b.region]
  {
  }

  function RegionsBound(bound: seq<Binding>): (regions: seq<Region>)
    ensures |regions| == |bound|
  {
    seq(|bound|, i requires 0 <= i < |bound| => bound[i].region)
  }

  function RegionsStated(statements: seq<Statement>): (regions: seq<Region>)
    ensures |regions| == |statements|
  {
    seq(|statements|, i requires 0 <= i < |statements| => statements[i].region)
  }

  lemma RegionsAppend(statements: seq<Statement>, s: Statement)
    ensures RegionsStated(statements + [s]) == RegionsStated(statements) + [s.region]
  {
  }

  /** A statement's region is bound to the observed tracker of that name, whenever there is one. */
  lemma {:induction false} StatedIsBound(statements: seq<Statement>, observed: seq<string>, k: nat)
    requires k < |statements| && statements[k].tracker in observed
    ensures exists b :: 0 <= b < |BoundOf(statements, observed)|
              && BoundOf(statements, observed)[b].region == statements[k].region
              && BoundOf(statements, observed)[b].observedIndex < |observed|
              && observed[BoundOf(statements, observed)[b].observedIndex] == statements[k].tracker
  {
    var front := statements[..|statements| - 1];
    if k < |front| {
      StatedIsBound(front, observed, k);
      var b :| 0 <= b < |BoundOf(front, observed)|
               && BoundOf(front, observed)[b].region == statements[k].region
               && BoundOf(front, observed)[b].observedIndex < |observed|
               && observed[BoundOf(front, observed)[b].observedIndex] == statements[k].tracker;
      assert BoundOf(statements, observed)[b] == BoundOf(front, observed)[b];
    } else {
      var b := |BoundOf(front, observed)|;
      assert BoundOf(statements, observed)[b].region == statements[k].region;
    }
  }

  /** A placed assignment applies to the observation it was made from, and to no other. */
  lemma PlacedApplies(spec: Spec, observed: seq<string>, other: seq<string>)
    requires Placed(Assigned(spec, observed))
    ensures Applies(Assigned(spec, observed), other) <==> other == observed
  {
    BoundApplies(spec.statements, observed);
  }

  /**
   Exactly when an assignment is placed: the statement and the observation are well formed, one stated
   tracker at least is observed, and the policy bears with whatever the two do not share.
   */
  lemma PlacedIff(spec: Spec, observed: seq<string>)
    ensures Placed(Assigned(spec, observed)) <==>
      (&& ValidSpec(spec) && IsObservation(observed, |observed|)
       && (exists k :: 0 <= k < |spec.statements| && spec.statements[k].tracker in observed)
       && (spec.unplaced.Refuse? || spec.unplaced.Hold? ==> forall i :: 0 <= i < |observed| ==> IsStated(spec, observed[i]))
       && (spec.unplaced.Hold? ==> forall k :: 0 <= k < |spec.statements| ==> spec.statements[k].tracker in observed))
  {
    if ValidSpec(spec) && IsObservation(observed, |observed|) {
      SomethingIsBound(spec.statements, observed);
      EverythingIsPresent(spec.statements, observed);
      UnplacedIffUnstated(spec, observed);
    }
  }

  predicate IsStated(spec: Spec, tracker: string) {
    exists k :: 0 <= k < |spec.statements| && spec.statements[k].tracker == tracker
  }

  lemma {:induction false} SomethingIsBound(statements: seq<Statement>, observed: seq<string>)
    ensures BoundOf(statements, observed) != [] <==>
            exists k :: 0 <= k < |statements| && statements[k].tracker in observed
  {
    hide BoundOf;
    if BoundOf(statements, observed) != [] {
      var k := BoundComesFrom(statements, observed, 0);
    }
    if k :| 0 <= k < |statements| && statements[k].tracker in observed {
      StatedIsBound(statements, observed, k);
    }
  }

  lemma {:induction false} EverythingIsPresent(statements: seq<Statement>, observed: seq<string>)
    ensures AbsentOf(statements, observed) == [] <==>
            forall k :: 0 <= k < |statements| ==> statements[k].tracker in observed
  {
    if statements != [] {
      EverythingIsPresent(statements[..|statements| - 1], observed);
    }
  }

  lemma UnplacedIffUnstated(spec: Spec, observed: seq<string>)
    requires ValidSpec(spec) && IsObservation(observed, |observed|)
    ensures UnplacedOf(BoundOf(spec.statements, observed), |observed|) == [] <==>
            forall i :: 0 <= i < |observed| ==> IsStated(spec, observed[i])
  {
    var bound := BoundOf(spec.statements, observed);
    forall i | 0 <= i < |observed|
      ensures Binds(bound, i) <==> IsStated(spec, observed[i])
    {
      hide BoundOf;
      if Binds(bound, i) {
        var b :| 0 <= b < |bound| && bound[b].observedIndex == i;
        var k := BoundComesFrom(spec.statements, observed, b);
      }
      if IsStated(spec, observed[i]) {
        var k :| 0 <= k < |spec.statements| && spec.statements[k].tracker == observed[i];
        StatedIsBound(spec.statements, observed, k);
      }
    }
    var unplaced := UnplacedOf(bound, |observed|);
    if unplaced != [] {
      assert unplaced[0] in unplaced;
    }
  }
}
