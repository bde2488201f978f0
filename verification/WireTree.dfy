/**
 The value tree a wire message is parsed to, and what FrameWire.cpp's reader and writer share: keys found
 and checked, words of a fixed vocabulary, counters spelled one way, and channels kept in name order.
 */
module WireTree {
  import opened Bytes
  import opened Text

  datatype Value =
    | Null
    | Bool(b: bool)
    | Number(text: string)
    | Str(text: string)
    | Arr(elements: seq<Value>)
    | Obj(members: seq<Member>)

  datatype Member = Member(key: string, value: Value)

  // ---- Objects ----

  /** The value of the first member with this key. */
  function Find(members: seq<Member>, key: string): (found: Option<Value>)
    ensures found.Some? ==> exists m :: 0 <= m < |members| && members[m] == Member(key, found.value)
  {
    if members == [] then None
    else if members[0].key == key then Some(members[0].value)
    else
      var found := Find(members[1..], key);
      assert forall m :: 0 <= m < |members[1..]| ==> members[1..][m] == members[m + 1];
      found
  }

  /** No member but the allowed ones, and each that is needed. */
  predicate KeysFit(members: seq<Member>, allowed: seq<string>, needed: seq<bool>)
    requires |allowed| == |needed|
  {
    && (forall m :: 0 <= m < |members| ==> members[m].key in allowed)
    && forall i :: 0 <= i < |allowed| && needed[i] ==> Find(members, allowed[i]).Some?
  }

  method Keys(members: seq<Member>, allowed: seq<string>, needed: seq<bool>) returns (fit: bool)
    requires |allowed| == |needed|
    ensures fit <==> KeysFit(members, allowed, needed)
  {
    for m := 0 to |members|
      invariant forall k :: 0 <= k < m ==> members[k].key in allowed
    {
      if members[m].key !in allowed {
        return false;
      }
    }
    for i := 0 to |allowed|
      invariant forall k :: 0 <= k < i && needed[k] ==> Find(members, allowed[k]).Some?
    {
      if needed[i] && Find(members, allowed[i]).None? {
        return false;
      }
    }
    fit := true;
  }

  /** The members of an object whose keys are written in this order, each only where it has a value. */
  function Build(keys: seq<string>, values: seq<Option<Value>>): seq<Member>
    requires |keys| == |values|
  {
    if keys == [] then []
    else
      var rest := Build(keys[1..], values[1..]);
      if values[0].Some? then [Member(keys[0], values[0].value)] + rest else rest
  }

  lemma {:induction false} BuiltFrom(keys: seq<string>, values: seq<Option<Value>>, m: nat)
    requires |keys| == |values| && m < |Build(keys, values)|
    ensures exists i :: 0 <= i < |keys| && values[i] == Some(Build(keys, values)[m].value) && keys[i] == Build(keys, values)[m].key
  {
    var built := Build(keys, values);
    if values[0].Some? && m == 0 {
      assert values[0] == Some(built[0].value);
    } else {
      var at := if values[0].Some? then m - 1 else m;
      BuiltFrom(keys[1..], values[1..], at);
      var i :| 0 <= i < |keys[1..]| && values[1..][i] == Some(built[m].value) && keys[1..][i] == built[m].key;
      assert values[i + 1] == Some(built[m].value);
    }
  }

  lemma {:induction false} NotBuilt(keys: seq<string>, values: seq<Option<Value>>, key: string)
    requires |keys| == |values| && key !in keys
    ensures Find(Build(keys, values), key) == None
  {
    if keys != [] {
      NotBuilt(keys[1..], values[1..], key);
      assert values[0].Some? ==> Build(keys, values)[1..] == Build(keys[1..], values[1..]);
    }
  }

  /** What is built under a key is found under it. */
  lemma {:induction false} BuiltIsFound(keys: seq<string>, values: seq<Option<Value>>, i: nat)
    requires |keys| == |values| && i < |keys| && DistinctWords(keys)
    ensures Find(Build(keys, values), keys[i]) == values[i]
  {
    assert values[0].Some? ==> Build(keys, values)[1..] == Build(keys[1..], values[1..]);
    if i == 0 {
      NotBuilt(keys[1..], values[1..], keys[0]);
    } else {
      BuiltIsFound(keys[1..], values[1..], i - 1);
    }
  }

  /** A written object has only its keys, and its reader finds every value where it was put. */
  lemma BuiltFits(keys: seq<string>, values: seq<Option<Value>>, needed: seq<bool>)
    requires |keys| == |values| == |needed| && DistinctWords(keys)
    requires forall i :: 0 <= i < |keys| && needed[i] ==> values[i].Some?
    ensures KeysFit(Build(keys, values), keys, needed)
    ensures forall i :: 0 <= i < |keys| ==> Find(Build(keys, values), keys[i]) == values[i]
  {
    forall i | 0 <= i < |keys|
      ensures Find(Build(keys, values), keys[i]) == values[i]
    {
      BuiltIsFound(keys, values, i);
    }
    forall m | 0 <= m < |Build(keys, values)|
      ensures Build(keys, values)[m].key in keys
    {
      BuiltFrom(keys, values, m);
    }
  }

  // ---- Trees a parser makes ----

  predicate UniqueKeys(members: seq<Member>) {
    forall i, k :: 0 <= i < k < |members| ==> members[i].key != members[k].key
  }

  /** Every string and key is text, and no object has a key twice. */
  predicate Wholesome(isText: string -> bool, v: Value)
    decreases v
  {
    match v
    case Str(text) => isText(text)
    case Arr(elements) => forall i :: 0 <= i < |elements| ==> Wholesome(isText, elements[i])
    case Obj(members) =>
      UniqueKeys(members) && forall m :: 0 <= m < |members| ==> isText(members[m].key) && Wholesome(isText, members[m].value)
    case _ => true
  }

  /** Arrays and objects nest at most this deep. */
  predicate Within(v: Value, depth: nat)
    decreases v
  {
    match v
    case Arr(elements) => depth > 0 && forall i :: 0 <= i < |elements| ==> Within(elements[i], depth - 1)
    case Obj(members) => depth > 0 && forall m :: 0 <= m < |members| ==> Within(members[m].value, depth - 1)
    case _ => true
  }

  /** What a parser bounded to this depth can hand to a reader. */
  predicate Parsed(isText: string -> bool, v: Value, depth: nat) {
    Wholesome(isText, v) && Within(v, depth)
  }

  lemma {:induction false} BuiltKeysAreUnique(keys: seq<string>, values: seq<Option<Value>>)
    requires |keys| == |values| && DistinctWords(keys)
    ensures UniqueKeys(Build(keys, values))
  {
    if keys != [] {
      var rest := Build(keys[1..], values[1..]);
      BuiltKeysAreUnique(keys[1..], values[1..]);
      forall m | 0 <= m < |rest|
        ensures rest[m].key != keys[0]
      {
        BuiltFrom(keys[1..], values[1..], m);
      }
    }
  }

  /** An object is one level deeper than what is put in it. */
  lemma BuiltIsParsed(isText: string -> bool, keys: seq<string>, values: seq<Option<Value>>, depth: nat)
    requires |keys| == |values| && DistinctWords(keys)
    requires forall i :: 0 <= i < |keys| ==> isText(keys[i])
    requires forall i :: 0 <= i < |keys| && values[i].Some? ==> Parsed(isText, values[i].value, depth)
    ensures Parsed(isText, Obj(Build(keys, values)), depth + 1)
  {
    var built := Build(keys, values);
    BuiltKeysAreUnique(keys, values);
    forall m | 0 <= m < |built|
      ensures isText(built[m].key) && Parsed(isText, built[m].value, depth)
    {
      BuiltFrom(keys, values, m);
    }
    assert forall m :: 0 <= m < |built| ==> Parsed(isText, built[m].value, depth);
  }

  lemma ArrayIsParsed(isText: string -> bool, elements: seq<Value>, depth: nat)
    requires forall i :: 0 <= i < |elements| ==> Parsed(isText, elements[i], depth)
    ensures Parsed(isText, Arr(elements), depth + 1)
  {
    assert forall i :: 0 <= i < |elements| ==> Wholesome(isText, elements[i]) && Within(elements[i], depth);
  }

  // ---- Lists of things with an identifier ----

  /** Every element read in order, none under an identifier already seen. */
  function ReadListed<T>(elements: seq<Value>, read: Value -> Option<T>, id: T -> string, seen: set<string>): Option<seq<T>> {
    if elements == [] then Some([])
    else
      var first :- read(elements[0]);
      if id(first) in seen then None
      else
        var rest :- ReadListed(elements[1..], read, id, seen + {id(first)});
        Some([first] + rest)
  }

  predicate DistinctIds<T>(items: seq<T>, id: T -> string) {
    forall i, k :: 0 <= i < k < |items| ==> id(items[i]) != id(items[k])
  }

  /** What is read is one item an element, under identifiers that differ from each other and from those seen. */
  lemma {:induction false} ListedAreDistinct<T>(elements: seq<Value>, read: Value -> Option<T>, id: T -> string, seen: set<string>)
    requires ReadListed(elements, read, id, seen).Some?
    ensures var items := ReadListed(elements, read, id, seen).value; DistinctIds(items, id) && |items| == |elements|
    ensures forall i :: 0 <= i < |elements| ==> read(elements[i]) == Some(ReadListed(elements, read, id, seen).value[i])
    ensures forall i :: 0 <= i < |elements| ==> id(ReadListed(elements, read, id, seen).value[i]) !in seen
  {
    if elements != [] {
      var first := read(elements[0]).value;
      ListedAreDistinct(elements[1..], read, id, seen + {id(first)});
      var rest := ReadListed(elements[1..], read, id, seen + {id(first)}).value;
      forall i | 0 <= i < |elements|
        ensures read(elements[i]) == Some(([first] + rest)[i])
        ensures id(([first] + rest)[i]) !in seen
        ensures i > 0 ==> id(([first] + rest)[i]) != id(first)
      {
        if i > 0 {
          assert elements[1..][i - 1] == elements[i];
          assert id(rest[i - 1]) !in seen + {id(first)};
        }
      }
    }
  }

  /** Elements that each read to an item, the items' identifiers distinct, read to all the items. */
  lemma {:induction false} DistinctAreListed<T>(elements: seq<Value>, items: seq<T>, read: Value -> Option<T>, id: T -> string, seen: set<string>)
    requires |items| == |elements| && DistinctIds(items, id)
    requires forall i :: 0 <= i < |items| ==> read(elements[i]) == Some(items[i])
    requires forall i :: 0 <= i < |items| ==> id(items[i]) !in seen
    ensures ReadListed(elements, read, id, seen) == Some(items)
  {
    if elements != [] {
      DistinctAreListed(elements[1..], items[1..], read, id, seen + {id(items[0])});
      assert items == [items[0]] + items[1..];
    }
  }

  /** The list with the items already read put before it. */
  function After<T>(items: seq<T>, rest: Option<seq<T>>): Option<seq<T>> {
    if rest.None? then None else Some(items + rest.value)
  }

  method Listed<T>(elements: seq<Value>, read: Value -> Option<T>, id: T -> string) returns (r: Option<seq<T>>)
    ensures r == ReadListed(elements, read, id, {})
  {
    var items: seq<T>, seen: set<string> := [], {};
    assert elements[0..] == elements;
    ghost var all := ReadListed(elements, read, id, seen);
    assert all.Some? ==> [] + all.value == all.value;
    for i := 0 to |elements|
      invariant ReadListed(elements, read, id, {}) == After(items, ReadListed(elements[i..], read, id, seen))
    {
      assert elements[i..][0] == elements[i] && elements[i..][1..] == elements[i + 1..];
      var item := read(elements[i]);
      if item.None? || id(item.value) in seen {
        return None;
      }
      ghost var rest := ReadListed(elements[i + 1..], read, id, seen + {id(item.value)});
      assert rest.Some? ==> items + ([item.value] + rest.value) == (items + [item.value]) + rest.value;
      items, seen := items + [item.value], seen + {id(item.value)};
    }
    assert items + [] == items;
    r := Some(items);
  }

  // ---- Words ----

  predicate DistinctWords(words: seq<string>) {
    forall i, k :: 0 <= i < k < |words| ==> words[i] != words[k]
  }

  function FindWord(words: seq<string>, word: string): (index: Option<nat>)
    ensures index.Some? ==> index.value < |words| && words[index.value] == word
  {
    if words == [] then None
    else if words[0] == word then Some(0)
    else
      var rest := FindWord(words[1..], word);
      if rest.None? then None else Some(rest.value + 1)
  }

  lemma {:induction false} WordIsFound(words: seq<string>, i: nat)
    requires i < |words| && DistinctWords(words)
    ensures FindWord(words, words[i]) == Some(i)
  {
    if i > 0 {
      WordIsFound(words[1..], i - 1);
    }
  }

  // ---- Counters ----

  const UINT64 := 0x1_0000_0000_0000_0000

  /** A decimal unsigned 64-bit number, spelled one way. */
  function ReadCounter(s: string): Option<nat> {
    if s == "" || !AreDigits(s) || (|s| > 1 && s[0] == '0') || NumberIn(s) >= UINT64 then None
    else Some(NumberIn(s))
  }

  /** A counter's text is accepted exactly when it is the one decimal of a 64-bit number. */
  lemma CounterIsExact(s: string, n: nat)
    ensures ReadCounter(s) == Some(n) <==> n < UINT64 && s == Decimal(n)
  {
    if ReadCounter(s) == Some(n) {
      DecimalIsUnique(s);
    }
    if s == Decimal(n) {
      DecimalIsRead(n);
      DecimalHasNoLeadingZero(n);
    }
  }

  lemma {:induction false} DecimalHasNoLeadingZero(n: nat)
    ensures |Decimal(n)| > 1 ==> Decimal(n)[0] != '0'
    ensures n > 0 ==> Decimal(n)[0] != '0'
  {
    if n >= 10 {
      DecimalHasNoLeadingZero(n / 10);
    }
  }

  /** The digits one by one, refused when one is no digit or the number grows past 64 bits. */
  method Counter(s: string) returns (n: Option<nat>)
    ensures n == ReadCounter(s)
  {
    for i := 0 to |s|
      invariant AreDigits(s[..i])
    {
      if !IsDigit(s[i]) {
        return None;
      }
    }
    assert s[..|s|] == s;
    if s == "" || (|s| > 1 && s[0] == '0') {
      return None;
    }
    var result := 0;
    for i := 0 to |s|
      invariant AreDigits(s[..i]) && result == NumberIn(s[..i]) < UINT64
    {
      assert s[..i + 1][..i] == s[..i];
      result := result * 10 + Text.Value(s[i]);
      if result >= UINT64 {
        GrowsOnly(s, i + 1);
        return None;
      }
    }
    n := Some(result);
  }

  lemma {:induction false} GrowsOnly(s: string, i: nat)
    requires AreDigits(s) && i <= |s|
    ensures NumberIn(s) >= NumberIn(s[..i])
    decreases |s| - i
  {
    if i < |s| {
      assert s[..i + 1][..i] == s[..i];
      GrowsOnly(s, i + 1);
    } else {
      assert s[..i] == s;
    }
  }

  // ---- Channels in name order ----

  /** Names compared byte by byte, a beginning before what goes on. */
  predicate Less(a: string, b: string) {
    b != "" && (a == "" || a[0] < b[0] || (a[0] == b[0] && Less(a[1..], b[1..])))
  }

  lemma {:induction false} LessIsTotal(a: string, b: string)
    ensures a == b || Less(a, b) || Less(b, a)
  {
    if a != "" && b != "" && a[0] == b[0] {
      LessIsTotal(a[1..], b[1..]);
      assert a == [a[0]] + a[1..] && b == [b[0]] + b[1..];
    }
  }

  lemma {:induction false} LessIsTransitive(a: string, b: string, c: string)
    requires Less(a, b) && Less(b, c)
    ensures Less(a, c)
  {
    if a != "" && a[0] == b[0] && b[0] == c[0] {
      LessIsTransitive(a[1..], b[1..], c[1..]);
    }
  }

  lemma {:induction false} LessIsStrict(a: string)
    ensures !Less(a, a)
  {
    if a != "" {
      LessIsStrict(a[1..]);
    }
  }

  datatype Channel<+W> = Channel(name: string, weight: W)

  predicate InNameOrder<W>(channels: seq<Channel<W>>) {
    forall i, k :: 0 <= i < k < |channels| ==> Less(channels[i].name, channels[k].name)
  }

  predicate DistinctNames<W>(channels: seq<Channel<W>>) {
    forall i, k :: 0 <= i < k < |channels| ==> channels[i].name != channels[k].name
  }

  /** A channel put in its place, over any of its name. */
  function Put<W>(channels: seq<Channel<W>>, c: Channel<W>): seq<Channel<W>> {
    if channels == [] || Less(c.name, channels[0].name) then [c] + channels
    else if channels[0].name == c.name then [c] + channels[1..]
    else [channels[0]] + Put(channels[1..], c)
  }

  function Sorted<W>(channels: seq<Channel<W>>): seq<Channel<W>> {
    if channels == [] then [] else Put(Sorted(channels[..|channels| - 1]), channels[|channels| - 1])
  }

  lemma {:induction false} PutKeepsOrder<W>(channels: seq<Channel<W>>, c: Channel<W>)
    requires InNameOrder(channels)
    ensures InNameOrder(Put(channels, c))
    ensures forall x :: x in Put(channels, c) ==> x in channels || x == c
    ensures c in Put(channels, c)
    ensures forall x :: x in channels && x.name != c.name ==> x in Put(channels, c)
  {
    hide Less;
    if channels != [] {
      var first, rest := channels[0], channels[1..];
      LessIsStrict(c.name);
      if Less(c.name, first.name) {
        forall k | 0 <= k < |channels|
          ensures Less(c.name, channels[k].name)
        {
          if k > 0 {
            LessIsTransitive(c.name, first.name, channels[k].name);
          }
        }
      } else if first.name != c.name {
        LessIsTotal(first.name, c.name);
        PutKeepsOrder(rest, c);
        var put := Put(rest, c);
        forall k | 0 <= k < |put|
          ensures Less(first.name, put[k].name)
        {
          assert put[k] in put;
          if put[k] in rest {
            var j :| 0 <= j < |rest| && rest[j] == put[k];
            assert channels[j + 1] == put[k];
          }
        }
        assert Put(channels, c) == [first] + put;
        forall x | x in channels && x.name != c.name
          ensures x in Put(channels, c)
        {
          assert x == first || x in rest;
        }
      } else {
        assert Put(channels, c) == [c] + rest;
        forall x | x in channels && x.name != c.name
          ensures x in Put(channels, c)
        {
          assert x == first || x in rest;
        }
      }
    }
  }

  /** Whatever the order they came in, channels are sorted, each name once. */
  lemma {:induction false} SortedIsInOrder<W>(channels: seq<Channel<W>>)
    ensures InNameOrder(Sorted(channels))
    ensures forall x :: x in Sorted(channels) ==> x in channels
    ensures DistinctNames(channels) ==> forall x :: x in channels ==> x in Sorted(channels)
  {
    if channels != [] {
      var front, last := channels[..|channels| - 1], channels[|channels| - 1];
      SortedIsInOrder(front);
      PutKeepsOrder(Sorted(front), last);
      assert channels == front + [last];
      if DistinctNames(channels) {
        assert forall x :: x in front ==> x.name != last.name;
      }
    }
  }

  /** Channels already in order stay as they are. */
  lemma {:induction false} SortedStays<W>(channels: seq<Channel<W>>)
    requires InNameOrder(channels)
    ensures Sorted(channels) == channels
  {
    if channels != [] {
      var front, last := channels[..|channels| - 1], channels[|channels| - 1];
      SortedStays(front);
      PutsLast(front, last);
      assert channels == front + [last];
    }
  }

  lemma {:induction false} PutsLast<W>(channels: seq<Channel<W>>, c: Channel<W>)
    requires forall i :: 0 <= i < |channels| ==> Less(channels[i].name, c.name)
    ensures Put(channels, c) == channels + [c]
  {
    hide Less;
    if channels != [] {
      PutsLast(channels[1..], c);
      LessIsStrict(c.name);
      if Less(c.name, channels[0].name) {
        LessIsTransitive(c.name, channels[0].name, c.name);
      }
      assert channels == [channels[0]] + channels[1..];
    }
  }

  lemma OrderedIsDistinct<W>(channels: seq<Channel<W>>)
    requires InNameOrder(channels)
    ensures DistinctNames(channels)
  {
    hide Less;
    forall i, k | 0 <= i < k < |channels|
      ensures channels[i].name != channels[k].name
    {
      LessIsStrict(channels[i].name);
    }
  }
}
