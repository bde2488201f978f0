/**
 The two independent UTF-8 validators of the repository, one by code points (Rfc6455.cpp) and one
 by byte ranges (MotionConnector.cpp), against one definition: the concatenations of encoded
 Unicode scalar values of RFC 3629, sections 3 and 4.
 */
module Utf8 {
  import opened Bytes

  // ---- The language: encoded scalar values ----

  type scalar = v: int | 0 <= v <= 0x10FFFF && !(0xD800 <= v <= 0xDFFF)

  function EncodeScalar(v: scalar): (r: bytes)
    ensures 1 <= |r| <= 4
  {
    var point: int := v;
    if point < 0x80 then [point]
    else if point < 0x800 then [0xC0 + point / 64, 0x80 + point % 64]
    else if point < 0x10000 then [0xE0 + point / 64 / 64, 0x80 + point / 64 % 64, 0x80 + point % 64]
    else [0xF0 + point / 64 / 64 / 64, 0x80 + point / 64 / 64 % 64, 0x80 + point / 64 % 64, 0x80 + point % 64]
  }

  function EncodeScalars(vs: seq<scalar>): bytes {
    if vs == [] then [] else EncodeScalar(vs[0]) + EncodeScalars(vs[1..])
  }

  ghost predicate EncodesScalars(text: bytes) {
    exists vs: seq<scalar> :: EncodeScalars(vs) == text
  }

  // ---- The validator by code points ----

  /** The length a lead byte announces, 0 when no sequence starts with it. */
  function LeadLength(lead: byte): (n: nat)
    ensures n <= 4
  {
    if lead < 0x80 then 1
    else if 0xC2 <= lead <= 0xDF then 2
    else if 0xE0 <= lead <= 0xEF then 3
    else if 0xF0 <= lead <= 0xF4 then 4
    else 0
  }

  function LeadBits(lead: byte): nat {
    if LeadLength(lead) == 2 then lead % 32
    else if LeadLength(lead) == 3 then lead % 16
    else if LeadLength(lead) == 4 then lead % 8
    else lead
  }

  predicate IsContinuation(b: byte) {
    b / 64 == 2
  }

  /** The code point gathered from `s[k..length]` onto `point`, unless a byte is no continuation. */
  function Gather(s: bytes, k: nat, length: nat, point: nat): Option<nat>
    requires k <= length <= |s|
    decreases length - k
  {
    if k == length then Some(point)
    else if !IsContinuation(s[k]) then None
    else Gather(s, k + 1, length, point * 64 + s[k] % 64)
  }

  predicate PointFits(length: nat, point: nat) {
    !(length == 3 && point < 0x800) && !(length == 4 && point < 0x10000)
    && point <= 0x10FFFF && !(0xD800 <= point <= 0xDFFF)
  }

  /** The length of the well-formed sequence that starts `s`, or 0. */
  function PointLength(s: bytes): (n: nat)
    requires s != []
    ensures n <= |s| && n <= 4
  {
    var length := LeadLength(s[0]);
    if length <= 1 then length
    else if length > |s| then 0
    else
      match Gather(s, 1, length, LeadBits(s[0]))
      case None => 0
      case Some(point) => if PointFits(length, point) then length else 0
  }

  predicate Valid(text: bytes) {
    text == [] || (PointLength(text) != 0 && Valid(text[PointLength(text)..]))
  }

  lemma ValidStep(text: bytes, i: nat)
    requires i < |text|
    ensures var n := PointLength(text[i..]);
            Valid(text[i..]) <==> n != 0 && Valid(text[i + n..])
  {
    assert text[i..][PointLength(text[i..])..] == text[i + PointLength(text[i..])..];
  }

  lemma NothingIsValid()
    ensures Valid([])
  {
  }

  /** One turn of the validating loop: the length of the sequence at `text[i]`, or 0. */
  method CodePointLength(text: bytes, i: nat) returns (n: nat)
    requires i < |text|
    ensures n == PointLength(text[i..])
  {
    ghost var rest := text[i..];
    var c := text[i];
    var length := LeadLength(c);
    if length <= 1 {
      return length;
    }
    if i + length > |text| {
      return 0;
    }
    var point: nat := LeadBits(c);
    for k := 1 to length
      invariant Gather(rest, 1, length, LeadBits(c)) == Gather(rest, k, length, point)
    {
      var next: int := text[i + k];
      assert rest[k] == next;
      if !IsContinuation(next) {
        return 0;
      }
      point := point * 64 + next % 64;
    }
    return if PointFits(length, point) then length else 0;
  }

  method IsUtf8(text: bytes) returns (ok: bool)
    ensures ok <==> Valid(text)
  {
    hide Valid, PointLength;
    NothingIsValid();
    var i := 0;
    assert text[0..] == text;
    while i < |text|
      invariant 0 <= i <= |text|
      invariant Valid(text) <==> Valid(text[i..])
    {
      var length := CodePointLength(text, i);
      ValidStep(text, i);
      if length == 0 {
        return false;
      }
      i := i + length;
    }
    assert text[|text|..] == [];
    ok := true;
  }

  // ---- The validator by byte ranges ----

  /** The length of the well-formed sequence at `text[index]`, or 0, by the range of each byte. */
  function RangeLength(text: bytes, index: nat): (n: nat)
    requires index < |text|
    ensures n <= 4 && index + n <= |text|
  {
    var lead := text[index];
    var length := LeadLength(lead);
    var low := if lead == 0xE0 then 0xA0 else if lead == 0xF0 then 0x90 else 0x80;
    var high := if lead == 0xED then 0x9F else if lead == 0xF4 then 0x8F else 0xBF;
    if length <= 1 then length
    else if index + length > |text| || text[index + 1] < low || text[index + 1] > high then 0
    else if length >= 3 && !(0x80 <= text[index + 2] <= 0xBF) then 0
    else if length == 4 && !(0x80 <= text[index + 3] <= 0xBF) then 0
    else length
  }

  method Utf8SequenceLength(text: bytes, index: nat) returns (n: nat)
    requires index < |text|
    ensures n == RangeLength(text, index) == PointLength(text[index..])
  {
    ValidatorsAgree(text, index);
    var lead := text[index];
    var low, high := 0x80, 0xBF;
    if lead < 0x80 {
      return 1;
    }
    if 0xC2 <= lead <= 0xDF {
      n := 2;
    } else if 0xE0 <= lead <= 0xEF {
      n := 3;
      low := if lead == 0xE0 then 0xA0 else 0x80;
      high := if lead == 0xED then 0x9F else 0xBF;
    } else if 0xF0 <= lead <= 0xF4 {
      n := 4;
      low := if lead == 0xF0 then 0x90 else 0x80;
      high := if lead == 0xF4 then 0x8F else 0xBF;
    } else {
      return 0;
    }
    if index + n > |text| || text[index + 1] < low || text[index + 1] > high {
      return 0;
    }
    for offset := 2 to n
      invariant forall k :: index + 2 <= k < index + offset ==> 0x80 <= text[k] <= 0xBF
    {
      if text[index + offset] < 0x80 || text[index + offset] > 0xBF {
        return 0;
      }
    }
  }

  method IsUtf8ByRanges(text: bytes) returns (ok: bool)
    ensures ok <==> Valid(text)
  {
    hide Valid, PointLength, RangeLength;
    NothingIsValid();
    var index := 0;
    assert text[0..] == text;
    while index < |text|
      invariant 0 <= index <= |text|
      invariant Valid(text) <==> Valid(text[index..])
    {
      var length := Utf8SequenceLength(text, index);
      ValidStep(text, index);
      if length == 0 {
        return false;
      }
      index := index + length;
    }
    assert text[|text|..] == [];
    ok := true;
  }

  /** At every position of every text the two validators read the same sequence length. */
  lemma ValidatorsAgree(text: bytes, index: nat)
    requires index < |text|
    ensures RangeLength(text, index) == PointLength(text[index..])
  {
    var s := text[index..];
    var n := LeadLength(s[0]);
    if 2 <= n <= |s| {
      assert forall k :: 0 <= k < n ==> s[k] == text[index + k];
      GatherShape(s, n);
      RangesFit(s, n);
      hide Gather, PointFits, IsContinuation, Spelled, LeadBits;
    }
  }

  /** The range of each byte says that they go on from the first and that the code point they spell fits. */
  lemma RangesFit(s: bytes, n: nat)
    requires 2 <= n <= |s| && LeadLength(s[0]) == n
    ensures var low := if s[0] == 0xE0 then 0xA0 else if s[0] == 0xF0 then 0x90 else 0x80;
            var high := if s[0] == 0xED then 0x9F else if s[0] == 0xF4 then 0x8F else 0xBF;
            (forall k :: 1 <= k < n ==> IsContinuation(s[k])) && PointFits(n, Spelled(s, n)) <==>
            low <= s[1] <= high && (n >= 3 ==> 0x80 <= s[2] <= 0xBF) && (n == 4 ==> 0x80 <= s[3] <= 0xBF)
  {
    assert IsContinuation(s[1]) <==> 0x80 <= s[1] <= 0xBF;
    if n == 3 {
      assert IsContinuation(s[2]) <==> 0x80 <= s[2] <= 0xBF;
    } else if n == 4 {
      assert IsContinuation(s[2]) <==> 0x80 <= s[2] <= 0xBF;
      assert IsContinuation(s[3]) <==> 0x80 <= s[3] <= 0xBF;
    }
  }

  /** The code point an announced length of `n` bytes spells. */
  function Spelled(s: bytes, n: nat): int
    requires 2 <= n <= 4 && n <= |s|
  {
    var a: int, b: int := s[0], s[1] % 64;
    if n == 2 then a % 32 * 64 + b
    else
      var c: int := s[2] % 64;
      if n == 3 then (a % 16 * 64 + b) * 64 + c
      else
        var d: int := s[3] % 64;
        ((a % 8 * 64 + b) * 64 + c) * 64 + d
  }

  /** What the gathering loop computes for each announced length. */
  lemma GatherShape(s: bytes, n: nat)
    requires 2 <= n <= |s| && LeadLength(s[0]) == n
    ensures Gather(s, 1, n, LeadBits(s[0])) ==
            if forall k :: 1 <= k < n ==> IsContinuation(s[k]) then Some(Spelled(s, n)) else None
  {
    var p1 := LeadBits(s[0]) * 64 + s[1] % 64;
    assert Gather(s, 1, n, LeadBits(s[0])) ==
           if IsContinuation(s[1]) then Gather(s, 2, n, p1) else None;
    if n >= 3 {
      var p2 := p1 * 64 + s[2] % 64;
      assert Gather(s, 2, n, p1) == if IsContinuation(s[2]) then Gather(s, 3, n, p2) else None;
      if n == 4 {
        assert Gather(s, 3, n, p2) ==
               if IsContinuation(s[3]) then Gather(s, 4, n, p2 * 64 + s[3] % 64) else None;
      }
    }
  }

  // ---- Both against the language ----

  lemma SpelledEncodes(s: bytes, n: nat)
    requires 2 <= n <= |s| && LeadLength(s[0]) == n && PointFits(n, Spelled(s, n))
    requires forall k :: 1 <= k < n ==> IsContinuation(s[k])
    ensures EncodeScalar(Spelled(s, n)) == s[..n]
  {
    assert IsContinuation(s[1]);
    if n == 2 {
      SixBits(s[0] % 32, s[1] % 64);
    } else if n == 3 {
      assert IsContinuation(s[2]);
      SpelledEncodes3(s);
    } else {
      assert IsContinuation(s[2]) && IsContinuation(s[3]);
      SpelledEncodes4(s);
    }
  }

  lemma SpelledEncodes3(s: bytes)
    requires |s| >= 3 && 0xE0 <= s[0] <= 0xEF && s[1] / 64 == 2 && s[2] / 64 == 2
    requires PointFits(3, Spelled(s, 3))
    ensures EncodeScalar(Spelled(s, 3)) == s[..3]
  {
    SixBits(s[0] % 16, s[1] % 64);
    SixBits((s[0] as int) % 16 * 64 + s[1] % 64, s[2] % 64);
  }

  lemma SpelledEncodes4(s: bytes)
    requires |s| >= 4 && 0xF0 <= s[0] <= 0xF4 && s[1] / 64 == 2 && s[2] / 64 == 2 && s[3] / 64 == 2
    requires PointFits(4, Spelled(s, 4))
    ensures EncodeScalar(Spelled(s, 4)) == s[..4]
  {
    var p: int := (s[0] as int) % 8 * 64 + s[1] % 64;
    SixBits(s[0] % 8, s[1] % 64);
    SixBits(p, s[2] % 64);
    SixBits(p * 64 + s[2] % 64, s[3] % 64);
  }

  lemma SixBits(high: nat, low: nat)
    requires low < 64
    ensures (high * 64 + low) / 64 == high && (high * 64 + low) % 64 == low
  {
  }

  /** The front sequence of a text is well formed exactly when it encodes one scalar value. */
  lemma PointLengthDecodes(s: bytes) returns (v: scalar)
    requires s != [] && PointLength(s) != 0
    ensures EncodeScalar(v) == s[..PointLength(s)]
  {
    var n := PointLength(s);
    if n == 1 {
      v := s[0];
    } else {
      GatherShape(s, n);
      v := Spelled(s, n);
      SpelledEncodes(s, n);
    }
  }

  lemma EncodedHasPointLength(v: scalar, rest: bytes)
    ensures PointLength(EncodeScalar(v) + rest) == |EncodeScalar(v)|
  {
    var e := EncodeScalar(v);
    assert forall k :: 0 <= k < |e| ==> (e + rest)[k] == e[k];
    EncodedSpells(v);
    if |e| > 1 {
      GatherShape(e + rest, |e|);
    }
  }

  lemma EncodedSpells(v: scalar)
    ensures var e := EncodeScalar(v);
            LeadLength(e[0]) == |e| && PointFits(|e|, v)
            && (|e| > 1 ==> Spelled(e, |e|) == v && forall k :: 1 <= k < |e| ==> IsContinuation(e[k]))
  {
    if 0x800 <= v < 0x10000 {
      EncodedSpells3(v);
    } else if 0x10000 <= v {
      EncodedSpells4(v);
    }
  }

  lemma EncodedSpells3(v: scalar)
    requires 0x800 <= v < 0x10000
    ensures var e := EncodeScalar(v);
            LeadLength(e[0]) == 3 && Spelled(e, 3) == v && IsContinuation(e[1]) && IsContinuation(e[2])
  {
    Sextet(v);
    Sextet(v / 64);
  }

  lemma EncodedSpells4(v: scalar)
    requires 0x10000 <= v
    ensures var e := EncodeScalar(v);
            LeadLength(e[0]) == 4 && Spelled(e, 4) == v
            && IsContinuation(e[1]) && IsContinuation(e[2]) && IsContinuation(e[3])
  {
    Sextet(v);
    Sextet(v / 64);
    Sextet(v / 64 / 64);
  }

  lemma Sextet(n: nat)
    ensures n / 64 * 64 + n % 64 == n && (0x80 + n % 64) % 64 == n % 64 && (0x80 + n % 64) / 64 == 2
  {
  }

  lemma {:induction false} ScalarsAreValid(vs: seq<scalar>)
    ensures Valid(EncodeScalars(vs))
  {
    if vs != [] {
      ScalarsAreValid(vs[1..]);
      EncodedHasPointLength(vs[0], EncodeScalars(vs[1..]));
      assert EncodeScalars(vs)[|EncodeScalar(vs[0])|..] == EncodeScalars(vs[1..]);
    }
  }

  lemma {:induction false} ValidDecodes(text: bytes) returns (vs: seq<scalar>)
    requires Valid(text)
    ensures EncodeScalars(vs) == text
  {
    if text == [] {
      vs := [];
    } else {
      var n := PointLength(text);
      var v := PointLengthDecodes(text);
      var tail := ValidDecodes(text[n..]);
      vs := [v] + tail;
      assert text == text[..n] + text[n..];
    }
  }

  /** A text passes the validators exactly when it is a concatenation of encoded scalar values. */
  lemma ValidIffScalars(text: bytes)
    ensures Valid(text) <==> EncodesScalars(text)
  {
    if Valid(text) {
      var vs := ValidDecodes(text);
    }
    if EncodesScalars(text) {
      var vs: seq<scalar> :| EncodeScalars(vs) == text;
      ScalarsAreValid(vs);
    }
  }

  // ---- Repair ----

  const REPLACEMENT: bytes := [0xEF, 0xBF, 0xBD]

  function Repaired(text: bytes): bytes {
    if text == [] then []
    else
      var n := PointLength(text);
      if n == 0 then REPLACEMENT + Repaired(text[1..]) else text[..n] + Repaired(text[n..])
  }

  lemma RepairedStep(text: bytes, i: nat, out: bytes)
    requires i < |text|
    ensures var n := PointLength(text[i..]);
            out + Repaired(text[i..]) ==
            if n == 0 then (out + REPLACEMENT) + Repaired(text[i + 1..])
            else (out + text[i..i + n]) + Repaired(text[i + n..])
  {
    var rest, n := text[i..], PointLength(text[i..]);
    if n == 0 {
      assert rest[1..] == text[i + 1..];
    } else {
      assert rest[..n] == text[i..i + n] && rest[n..] == text[i + n..];
    }
  }

  lemma NothingIsRepaired()
    ensures Repaired([]) == []
  {
  }

  method ReplaceInvalidUtf8(text: bytes) returns (out: bytes)
    ensures out == Repaired(text)
  {
    hide Repaired, PointLength, RangeLength;
    NothingIsRepaired();
    out := [];
    var index := 0;
    assert text[0..] == text && [] + Repaired(text) == Repaired(text);
    while index < |text|
      invariant 0 <= index <= |text|
      invariant Repaired(text) == out + Repaired(text[index..])
    {
      var length := Utf8SequenceLength(text, index);
      RepairedStep(text, index, out);
      if length == 0 {
        out := out + REPLACEMENT;
        index := index + 1;
      } else {
        out := out + text[index..index + length];
        index := index + length;
      }
    }
    assert text[|text|..] == [] && out + [] == out;
  }

  lemma {:induction false} RepairedIsValid(text: bytes)
    ensures Valid(Repaired(text))
  {
    if text != [] {
      var n := PointLength(text);
      if n == 0 {
        RepairedIsValid(text[1..]);
        assert EncodeScalar(0xFFFD) == REPLACEMENT;
        EncodedHasPointLength(0xFFFD, Repaired(text[1..]));
        assert Repaired(text)[3..] == Repaired(text[1..]);
      } else {
        RepairedIsValid(text[n..]);
        var v := PointLengthDecodes(text);
        EncodedHasPointLength(v, Repaired(text[n..]));
        assert Repaired(text)[n..] == Repaired(text[n..]);
      }
    }
  }

  lemma {:induction false} ValidIsRepaired(text: bytes)
    requires Valid(text)
    ensures Repaired(text) == text
  {
    if text != [] {
      ValidIsRepaired(text[PointLength(text)..]);
    }
  }

  /** Repair always gives valid text, changes nothing exactly on valid text, and is idempotent. */
  lemma RepairIsAProjection(text: bytes)
    ensures EncodesScalars(Repaired(text))
    ensures Repaired(text) == text <==> EncodesScalars(text)
    ensures Repaired(Repaired(text)) == Repaired(text)
  {
    RepairedIsValid(text);
    ValidIsRepaired(Repaired(text));
    ValidIffScalars(Repaired(text));
    ValidIffScalars(text);
    if Valid(text) {
      ValidIsRepaired(text);
    }
  }
}
