/** Base64 as Rfc6455.cpp writes and strictly reads it, for the handshake's key and its answer. */
module Base64 {
  import opened Bytes

  const UINT32: nat := 0x1_0000_0000

  function Digit(v: nat): (c: char)
    requires v < 64
    ensures c != '=' && c != ',' && c != ' ' && c != '\t' && c != '\r' && c != '\n'
    ensures DigitValue(c) == Some(v)
  {
    if v < 26 then 'A' + v as char
    else if v < 52 then 'a' + (v - 26) as char
    else if v < 62 then '0' + (v - 52) as char
    else if v == 62 then '+' else '/'
  }

  function DigitValue(c: char): (v: Option<nat>)
    ensures v.Some? ==> v.value < 64
  {
    if 'A' <= c <= 'Z' then Some(c as nat - 'A' as nat)
    else if 'a' <= c <= 'z' then Some(c as nat - 'a' as nat + 26)
    else if '0' <= c <= '9' then Some(c as nat - '0' as nat + 52)
    else if c == '+' then Some(62)
    else if c == '/' then Some(63)
    else None
  }

  // ---- Encoding ----

  /** The four digits of three bytes. */
  function Group(a: byte, b: byte, c: byte): (r: string)
    ensures |r| == 4 && forall i :: 0 <= i < 4 ==> r[i] != '='
  {
    [Digit(a / 4), Digit(a % 4 * 16 + b / 16), Digit(b % 16 * 4 + c / 64), Digit(c % 64)]
  }

  function Encoded(s: bytes): (r: string)
    ensures |r| % 4 == 0
  {
    if s == [] then ""
    else if |s| == 1 then Group(s[0], 0, 0)[..2] + "=="
    else if |s| == 2 then Group(s[0], s[1], 0)[..3] + "="
    else Group(s[0], s[1], s[2]) + Encoded(s[3..])
  }

  lemma ThreeMore(s: bytes)
    requires |s| >= 3
    ensures Encoded(s) == Group(s[0], s[1], s[2]) + Encoded(s[3..])
  {
    hide Group;
  }

  lemma OneOrTwo(s: bytes)
    requires |s| < 3
    ensures Encoded(s) == if |s| == 0 then "" else if |s| == 1 then Group(s[0], 0, 0)[..2] + "==" else Group(s[0], s[1], 0)[..3] + "="
  {
    hide Group;
  }

  method Base64Encode(s: bytes) returns (out: string)
    ensures out == Encoded(s)
  {
    hide Group, Encoded;
    out := "";
    var i := 0;
    while i + 3 <= |s|
      invariant 0 <= i <= |s|
      invariant Encoded(s) == out + Encoded(s[i..])
    {
      ghost var rest := s[i..];
      assert rest[3..] == s[i + 3..];
      ThreeMore(rest);
      var group := Group(s[i], s[i + 1], s[i + 2]);
      assert out + (group + Encoded(rest[3..])) == (out + group) + Encoded(rest[3..]);
      out := out + group;
      i := i + 3;
    }
    OneOrTwo(s[i..]);
    if |s| - i == 1 {
      out := out + Group(s[i], 0, 0)[..2] + "==";
    } else if |s| - i == 2 {
      out := out + Group(s[i], s[i + 1], 0)[..3] + "=";
    }
  }

  // ---- Strict decoding ----

  function Padding(text: string): (n: nat)
    ensures n <= |text|
  {
    if text == "" || text[|text| - 1] != '=' then 0
    else if |text| >= 2 && text[|text| - 2] == '=' then 2
    else 1
  }

  /** The pending bits a digit can meet: 0, 2, 4 or 6. */
  type pending = b: nat | b == 0 || b == 2 || b == 4 || b == 6

  /** The weight of the lowest bit above `bits` pending bits. */
  function Weight(bits: pending): (w: nat)
    ensures w > 0
  {
    if bits == 0 then 1 else if bits == 2 then 4 else if bits == 4 then 16 else 64
  }

  /** The digits gathered onto the `bits` bits in `held`, eight bits out at a time. */
  function Gathered(text: string, held: nat, bits: pending): Option<bytes>
    decreases |text|, 0
  {
    if text == "" then Some([])
    else
      match DigitValue(text[0])
      case None => None
      case Some(v) => GatheredOnto(text[1..], held * 64 + v, bits)
  }

  /** The rest, once a digit has been gathered into `next`. */
  function GatheredOnto(text: string, next: nat, bits: pending): Option<bytes>
    decreases |text|, 1
  {
    if bits == 0 then Gathered(text, next, 6)
    else
      var w := Weight(bits - 2);
      Prefixed([next / w % 256], Gathered(text, next % w, bits - 2))
  }

  function Decoded(text: string): Option<bytes> {
    if |text| % 4 != 0 then None
    else Gathered(text[..|text| - Padding(text)], 0, 0)
  }

  method Base64Decode(text: string) returns (out: Option<bytes>)
    ensures out == Decoded(text)
  {
    hide Weight, Gathered;
    NothingLeft();
    if |text| % 4 != 0 {
      return None;
    }
    var padding := 0;
    if text != "" && text[|text| - 1] == '=' {
      padding := 1;
      if |text| >= 2 && text[|text| - 2] == '=' {
        padding := 2;
      }
    }
    ghost var digits := text[..|text| - padding];
    var decoded: bytes := [];
    var accumulator, bits: nat := 0, 0;
    assert digits[0..] == digits;
    PrefixedNone(Gathered(digits, 0, 0));
    for i := 0 to |text| - padding
      invariant bits in {0, 2, 4, 6} && accumulator >= 0
      invariant Gathered(digits, 0, 0) ==
                Prefixed(decoded, Gathered(digits[i..], accumulator % Weight(bits), bits))
    {
      var value := DigitValue(text[i]);
      assert digits[i..][0] == text[i] && digits[i..][1..] == digits[i + 1..];
      DigitTaken(digits[i..], accumulator, bits);
      if value.None? {
        return None;
      }
      accumulator := (accumulator * 64 + value.value) % UINT32;
      bits := bits + 6;
      if bits >= 8 {
        bits := bits - 8;
        var b := accumulator / Weight(bits) % 256;
        PrefixedOne(decoded, b, Gathered(digits[i + 1..], accumulator % Weight(bits), bits));
        decoded := decoded + [b];
      }
    }
    assert digits[|digits|..] == "" && decoded + [] == decoded;
    out := Some(decoded);
  }

  function Prefixed(head: bytes, tail: Option<bytes>): Option<bytes> {
    if tail.None? then None else Some(head + tail.value)
  }

  lemma PrefixedNone(tail: Option<bytes>)
    ensures Prefixed([], tail) == tail
  {
    if tail.Some? {
      assert [] + tail.value == tail.value;
    }
  }

  lemma PrefixedOne(head: bytes, b: byte, tail: Option<bytes>)
    ensures Prefixed(head, Prefixed([b], tail)) == Prefixed(head + [b], tail)
  {
    if tail.Some? {
      assert head + ([b] + tail.value) == (head + [b]) + tail.value;
    }
  }

  /** A 32-bit accumulator keeps the pending bits that an unbounded one would. */
  lemma AccumulatorWraps(accumulator: nat, v: nat, bits: pending)
    requires v < 64
    ensures var wrapped, exact := (accumulator * 64 + v) % UINT32, accumulator % Weight(bits) * 64 + v;
            if bits == 0 then wrapped % 64 == exact
            else
              var w := Weight(bits - 2);
              wrapped % w == exact % w && wrapped / w % 256 == exact / w % 256
  {
    hide Weight;
    Weights();
    if bits == 0 {
      Wraps0(accumulator, v);
    } else if bits == 2 {
      Wraps2(accumulator, v);
    } else if bits == 4 {
      Wraps4(accumulator, v);
    } else {
      Wraps6(accumulator, v);
    }
  }

  lemma NothingLeft()
    ensures forall held: nat, bits: pending :: Gathered("", held, bits) == Some([])
    ensures 0 % Weight(0) == 0
  {
  }

  /** One digit gathered, the bits in hand kept in a 32-bit accumulator. */
  lemma DigitTaken(text: string, accumulator: nat, bits: pending)
    requires text != ""
    ensures DigitValue(text[0]).None? ==> Gathered(text, accumulator % Weight(bits), bits) == None
    ensures DigitValue(text[0]).Some? ==>
              var wrapped := (accumulator * 64 + DigitValue(text[0]).value) % UINT32;
              (Gathered(text, accumulator % Weight(bits), bits) ==
               if bits == 0 then Gathered(text[1..], wrapped % Weight(6), 6)
               else Prefixed([wrapped / Weight(bits - 2) % 256], Gathered(text[1..], wrapped % Weight(bits - 2), bits - 2)))
  {
    hide Weight;
    Weights();
    if DigitValue(text[0]).Some? {
      AccumulatorWraps(accumulator, DigitValue(text[0]).value, bits);
    }
  }

  lemma Weights()
    ensures Weight(0) == 1 && Weight(2) == 4 && Weight(4) == 16 && Weight(6) == 64
  {
  }

  lemma Wraps0(accumulator: nat, v: nat)
    requires v < 64
    ensures (accumulator * 64 + v) % UINT32 % 64 == v
  {
    var over := (accumulator * 64 + v) / UINT32;
    Unwrapped(accumulator, v, over, 1, accumulator, 0);
    DivMod(64, (accumulator * 64 + v) % UINT32, accumulator - 0x400_0000 * over, v);
  }

  lemma Wraps2(accumulator: nat, v: nat)
    requires v < 64
    ensures (accumulator * 64 + v) % UINT32 % 256 == accumulator % 4 * 64 + v
  {
    var over, h, l := (accumulator * 64 + v) / UINT32, accumulator / 4, accumulator % 4;
    Unwrapped(accumulator, v, over, 4, h, l);
    DivMod(256, (accumulator * 64 + v) % UINT32, h - 0x100_0000 * over, l * 64 + v);
  }

  lemma Wraps4(accumulator: nat, v: nat)
    requires v < 64
    ensures var wrapped, exact := (accumulator * 64 + v) % UINT32, accumulator % 16 * 64 + v;
            wrapped % 4 == exact % 4 && wrapped / 4 % 256 == exact / 4 % 256
  {
    var over, h, l := (accumulator * 64 + v) / UINT32, accumulator / 16, accumulator % 16;
    Unwrapped(accumulator, v, over, 16, h, l);
    ByteOut(4, (accumulator * 64 + v) % UINT32, h - 0x40_0000 * over, l * 64 + v);
  }

  lemma Wraps6(accumulator: nat, v: nat)
    requires v < 64
    ensures var wrapped, exact := (accumulator * 64 + v) % UINT32, accumulator % 64 * 64 + v;
            wrapped % 16 == exact % 16 && wrapped / 16 % 256 == exact / 16 % 256
  {
    var over, h, l := (accumulator * 64 + v) / UINT32, accumulator / 64, accumulator % 64;
    Unwrapped(accumulator, v, over, 64, h, l);
    ByteOut(16, (accumulator * 64 + v) % UINT32, h - 0x10_0000 * over, l * 64 + v);
  }

  lemma Unwrapped(accumulator: nat, v: nat, over: nat, unit: nat, high: nat, low: nat)
    requires over == (accumulator * 64 + v) / UINT32 && v < 64
    requires unit in {1, 4, 16, 64} && accumulator == unit * high + low && low < unit
    ensures var q := high - (0x400_0000 / unit) * over;
            q >= 0 && (accumulator * 64 + v) % UINT32 == unit * 64 * q + (low * 64 + v)
  {
    var n := accumulator * 64 + v;
    assert n % UINT32 == n - UINT32 * over;
    if unit == 1 {
      assert n % UINT32 == 64 * (high - 0x400_0000 * over) + v;
    } else if unit == 4 {
      assert n % UINT32 == 256 * (high - 0x100_0000 * over) + (low * 64 + v);
    } else if unit == 16 {
      assert n % UINT32 == 1024 * (high - 0x40_0000 * over) + (low * 64 + v);
    } else {
      assert n % UINT32 == 4096 * (high - 0x10_0000 * over) + (low * 64 + v);
    }
  }

  lemma DivMod(d: nat, n: nat, q: nat, r: nat)
    requires d in {4, 16, 64, 256} && n == d * q + r && r < d
    ensures n / d == q && n % d == r
  {
  }

  lemma ByteOut(d: nat, n: nat, q: nat, r: nat)
    requires d in {4, 16} && n == d * (256 * q) + r && r < d * 256
    ensures n / d % 256 == r / d && n % d == r % d
  {
    if d == 4 {
      DivMod(4, n, 256 * q + r / 4, r % 4);
      DivMod(256, n / 4, q, r / 4);
    } else {
      DivMod(16, n, 256 * q + r / 16, r % 16);
      DivMod(256, n / 16, q, r / 16);
    }
  }

  // ---- The decoder undoes the encoder ----

  /** The digits of a group put its three bytes back together. */
  lemma GroupArithmetic(a: nat, b: nat, c: nat)
    requires a < 256 && b < 256 && c < 256
    ensures var n := a / 4 * 64 + (a % 4 * 16 + b / 16); n / 16 == a && n % 16 == b / 16
    ensures var n := b / 16 * 64 + (b % 16 * 4 + c / 64); n / 4 == b && n % 4 == c / 64
    ensures c / 64 * 64 + c % 64 == c
  {
    assert a / 4 * 64 + (a % 4 * 16 + b / 16) == a * 16 + b / 16;
    assert b / 16 * 64 + (b % 16 * 4 + c / 64) == b * 4 + c / 64;
  }

  lemma OneDigit(v: nat, text: string, held: nat, bits: pending)
    requires v < 64
    ensures Gathered([Digit(v)] + text, held, bits) == GatheredOnto(text, held * 64 + v, bits)
  {
    assert ([Digit(v)] + text)[1..] == text;
  }

  /** A digit that completes a byte. */
  lemma ByteDigit(v: nat, text: string, held: nat, bits: pending, b: byte, left: nat)
    requires v < 64 && bits > 0
    requires var w := Weight(bits - 2); (held * 64 + v) / w == b && (held * 64 + v) % w == left
    ensures Gathered([Digit(v)] + text, held, bits) == Prefixed([b], Gathered(text, left, bits - 2))
  {
    hide Weight, Digit, DigitValue;
    OneDigit(v, text, held, bits);
  }

  lemma PrefixedThrice(a: byte, b: byte, c: byte, tail: Option<bytes>)
    ensures Prefixed([a], Prefixed([b], Prefixed([c], tail))) == Prefixed([a, b, c], tail)
  {
    if tail.Some? {
      assert [a] + ([b] + ([c] + tail.value)) == [a, b, c] + tail.value;
    }
  }

  /** A whole group decodes to its three bytes. */
  lemma GroupDecodes(a: byte, b: byte, c: byte, rest: string)
    ensures Gathered(Group(a, b, c) + rest, 0, 0) == Prefixed([a, b, c], Gathered(rest, 0, 0))
  {
    GroupArithmetic(a, b, c);
    var s3 := [Digit(c % 64)] + rest;
    var s2 := [Digit(b % 16 * 4 + c / 64)] + s3;
    var s1 := [Digit(a % 4 * 16 + b / 16)] + s2;
    ByteDigit(c % 64, rest, c / 64, 2, c, 0);
    ByteDigit(b % 16 * 4 + c / 64, s3, b / 16, 4, b, c / 64);
    ByteDigit(a % 4 * 16 + b / 16, s2, a / 4, 6, a, b / 16);
    OneDigit(a / 4, s1, 0, 0);
    assert Group(a, b, c) + rest == [Digit(a / 4)] + s1;
    PrefixedThrice(a, b, c, Gathered(rest, 0, 0));
  }

  /** Two and three digits decode to the whole bytes they hold. */
  lemma ShortGroupDecodes(a: byte, b: byte)
    ensures Gathered(Group(a, b, 0)[..3], 0, 0) == Some([a, b])
    ensures b == 0 ==> Gathered(Group(a, b, 0)[..2], 0, 0) == Some([a])
  {
    GroupArithmetic(a, b, 0);
    var s2 := [Digit(b % 16 * 4)] + "";
    var s1 := [Digit(a % 4 * 16 + b / 16)] + s2;
    ByteDigit(b % 16 * 4, "", b / 16, 4, b, 0);
    ByteDigit(a % 4 * 16 + b / 16, s2, a / 4, 6, a, b / 16);
    OneDigit(a / 4, s1, 0, 0);
    assert Group(a, b, 0)[..3] == [Digit(a / 4)] + s1;
    assert [a] + ([b] + []) == [a, b];
    if b == 0 {
      var t1 := [Digit(a % 4 * 16)] + "";
      ByteDigit(a % 4 * 16, "", a / 4, 6, a, 0);
      OneDigit(a / 4, t1, 0, 0);
      assert Group(a, b, 0)[..2] == [Digit(a / 4)] + t1;
      assert [a] + [] == [a];
    }
  }

  lemma {:induction false} EncodedTail(s: bytes)
    ensures Padding(Encoded(s)) == (if |s| % 3 == 0 then 0 else 3 - |s| % 3)
    ensures s == [] <==> Encoded(s) == ""
    ensures Gathered(Encoded(s)[..|Encoded(s)| - Padding(Encoded(s))], 0, 0) == Some(s)
  {
    hide Gathered, Group;
    var e := Encoded(s);
    if |s| >= 3 {
      EncodedTail(s[3..]);
      var g, rest := Group(s[0], s[1], s[2]), Encoded(s[3..]);
      GroupDecodes(s[0], s[1], s[2], rest[..|rest| - Padding(rest)]);
      assert e[..|e| - Padding(e)] == g + rest[..|rest| - Padding(rest)];
      assert s == [s[0], s[1], s[2]] + s[3..];
    } else if |s| == 2 {
      ShortGroupDecodes(s[0], s[1]);
      assert e[..3] == Group(s[0], s[1], 0)[..3];
      assert s == [s[0], s[1]];
    } else if |s| == 1 {
      ShortGroupDecodes(s[0], 0);
      assert e[..2] == Group(s[0], 0, 0)[..2];
      assert s == [s[0]];
    } else {
      NothingGathered();
    }
  }

  lemma NothingGathered()
    ensures Gathered("", 0, 0) == Some([])
  {
  }

  /** Decoding what was encoded gives the bytes back. */
  lemma DecodedOfEncoded(s: bytes)
    ensures Decoded(Encoded(s)) == Some(s)
  {
    EncodedTail(s);
  }

  // ---- RFC 4648, section 4 ----

  const CAPITALS := "ABCDEFGHIJKLMNOPQRSTUVWXYZ"

  const SMALL := "abcdefghijklmnopqrstuvwxyz"

  const FIGURES := "0123456789+/"

  const ALPHABET := CAPITALS + SMALL + FIGURES

  lemma AlphabetIs(v: nat)
    requires v < 64
    ensures |ALPHABET| == 64 && Digit(v) == ALPHABET[v]
  {
    if v < 26 {
      CapitalIs(v);
    } else if v < 52 {
      SmallIs(v - 26);
    } else {
      FigureIs(v - 52);
    }
  }

  lemma CapitalIs(v: nat)
    requires v < 26
    ensures Digit(v) == CAPITALS[v]
  {
  }

  lemma SmallIs(v: nat)
    requires v < 26
    ensures Digit(26 + v) == SMALL[v]
  {
  }

  lemma FigureIs(v: nat)
    requires v < 12
    ensures Digit(52 + v) == FIGURES[v]
  {
  }

  lemma AllDigits()
    ensures |ALPHABET| == 64 && forall v: nat :: v < 64 ==> Digit(v) == ALPHABET[v]
  {
    hide Digit, ALPHABET;
    AlphabetIs(0);
    forall v: nat | v < 64
      ensures Digit(v) == ALPHABET[v]
    {
      AlphabetIs(v);
    }
  }

  function TwentyFour(a: byte, b: byte, c: byte): nat {
    a as int * 65536 + b as int * 256 + c as int
  }

  /** The six bits of a number that stand `k` times six above its lowest. */
  function Sextet(n: nat, k: nat): (v: nat)
    ensures v < 64
  {
    if k == 0 then n % 64 else Sextet(n / 64, k - 1)
  }

  lemma SextetsAre(a: byte, b: byte, c: byte)
    ensures var n := TwentyFour(a, b, c);
            && Sextet(n, 3) == a / 4 && Sextet(n, 2) == a % 4 * 16 + b / 16
            && Sextet(n, 1) == b % 16 * 4 + c / 64 && Sextet(n, 0) == c % 64
  {
    hide Sextet;
    var n := TwentyFour(a, b, c);
    var w, x, y, z := a as int / 4, a as int % 4 * 16 + b as int / 16, b as int % 16 * 4 + c as int / 64, c as int % 64;
    assert n == 64 * (64 * (64 * w + x) + y) + z;
    SextetOf(n, 64 * (64 * w + x) + y, z);
    SextetOf(64 * (64 * w + x) + y, 64 * w + x, y);
    SextetOf(64 * w + x, w, x);
    SextetOf(w, 0, w);
  }

  lemma SextetOf(n: nat, q: nat, r: nat)
    requires n == 64 * q + r && r < 64
    ensures Sextet(n, 0) == r && forall k :: k > 0 ==> Sextet(n, k) == Sextet(q, k - 1)
  {
    DivMod(64, n, q, r);
  }

  lemma GroupIs(a: byte, b: byte, c: byte)
    ensures |ALPHABET| == 64
    ensures var n := TwentyFour(a, b, c);
            Group(a, b, c) == [ALPHABET[Sextet(n, 3)], ALPHABET[Sextet(n, 2)], ALPHABET[Sextet(n, 1)], ALPHABET[Sextet(n, 0)]]
  {
    hide Digit, DigitValue, ALPHABET, Sextet, TwentyFour;
    AllDigits();
    SextetsAre(a, b, c);
  }

  lemma OneIsEncoded(a: byte)
    ensures |ALPHABET| == 64
    ensures var n := TwentyFour(a, 0, 0); Encoded([a]) == [ALPHABET[Sextet(n, 3)], ALPHABET[Sextet(n, 2)]] + "=="
  {
    hide Group, ALPHABET, Sextet, TwentyFour;
    GroupIs(a, 0, 0);
  }

  lemma TwoAreEncoded(a: byte, b: byte)
    ensures |ALPHABET| == 64
    ensures var n := TwentyFour(a, b, 0);
            Encoded([a, b]) == [ALPHABET[Sextet(n, 3)], ALPHABET[Sextet(n, 2)], ALPHABET[Sextet(n, 1)]] + "="
  {
    hide Group, ALPHABET, Sextet, TwentyFour;
    GroupIs(a, b, 0);
  }

  lemma ThreeAreEncoded(a: byte, b: byte, c: byte, rest: bytes)
    ensures |ALPHABET| == 64
    ensures var n := TwentyFour(a, b, c);
            Encoded([a, b, c] + rest) ==
            [ALPHABET[Sextet(n, 3)], ALPHABET[Sextet(n, 2)], ALPHABET[Sextet(n, 1)], ALPHABET[Sextet(n, 0)]] + Encoded(rest)
  {
    hide Group, ALPHABET, Sextet, TwentyFour;
    GroupIs(a, b, c);
    assert ([a, b, c] + rest)[3..] == rest;
  }

  lemma DigitsAreTheAlphabet(c: char)
    ensures DigitValue(c).Some? <==> c in ALPHABET
  {
    if DigitValue(c).Some? {
      var v := DigitValue(c).value;
      assert Digit(v) == c;
      AlphabetIs(v);
    }
    if c in ALPHABET {
      var v :| 0 <= v < 64 && ALPHABET[v] == c;
      AlphabetIs(v);
    }
  }

  /** One digit more: a byte comes out of it unless none was pending. */
  lemma OneGathered(text: string, held: nat, bits: pending) returns (next: nat, left: pending)
    requires text != "" && DigitValue(text[0]).Some?
    ensures left == (if bits == 0 then 6 else bits - 2)
    ensures Gathered(text, held, bits).Some? <==> Gathered(text[1..], next, left).Some?
    ensures Gathered(text, held, bits).Some? ==>
              |Gathered(text, held, bits).value| == |Gathered(text[1..], next, left).value| + if bits == 0 then 0 else 1
  {
    hide Weight, DigitValue;
    var gathered := held * 64 + DigitValue(text[0]).value;
    left := if bits == 0 then 6 else bits - 2;
    next := if bits == 0 then gathered else gathered % Weight(left);
  }

  lemma AllOf(text: string)
    requires text != ""
    ensures (forall k :: 0 <= k < |text| ==> text[k] in ALPHABET) <==>
            text[0] in ALPHABET && forall k :: 0 <= k < |text[1..]| ==> text[1..][k] in ALPHABET
  {
    hide ALPHABET;
    assert forall k :: 0 < k < |text| ==> text[k] == text[1..][k - 1];
  }

  /** Digits are gathered where all are of the alphabet, eight bits to a byte. */
  lemma {:induction false} GatheredLength(text: string, held: nat, bits: pending)
    ensures Gathered(text, held, bits).Some? <==> forall k :: 0 <= k < |text| ==> text[k] in ALPHABET
    ensures Gathered(text, held, bits).Some? ==> |Gathered(text, held, bits).value| == (bits + 6 * |text|) / 8
  {
    hide Weight, DigitValue, ALPHABET, GatheredOnto;
    if text != "" {
      DigitsAreTheAlphabet(text[0]);
      AllOf(text);
      if DigitValue(text[0]).Some? {
        hide Gathered;
        var next, left := OneGathered(text, held, bits);
        GatheredLength(text[1..], next, left);
      }
    }
  }

  /** What reads as sixteen bytes: twenty-two digits and two of padding. */
  lemma SixteenBytes(text: string)
    ensures Decoded(text).Some? && |Decoded(text).value| == 16 <==>
              |text| == 24 && text[22..] == "==" && forall k :: 0 <= k < 22 ==> text[k] in ALPHABET
  {
    hide Gathered, ALPHABET;
    var n := |text| - Padding(text);
    GatheredLength(text[..n], 0, 0);
    assert text[..n][..n] == text[..n] && forall k :: 0 <= k < n ==> text[..n][k] == text[k];
    if |text| == 24 {
      assert text[22..] == [text[22], text[23]];
    }
  }
}
