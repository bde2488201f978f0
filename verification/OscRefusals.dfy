/** Why the OSC decoder refuses a datagram, and where it says so. */
module OscRefusals {
  import opened Bytes
  import opened OscCodec
  import opened OscPacket

  // ---- Alignment and refusals ----

  /** At an aligned offset a terminated string is never refused for its padding. */
  lemma PaddingNeverOverruns(u: bytes, offset: nat)
    requires |u| % 4 == 0 && offset % 4 == 0 && offset <= |u|
    ensures StringAt(u, offset).None? <==> ZeroFrom(u, offset) == |u|
    ensures StringAt(u, offset).Some? ==> StringAt(u, offset).value.1 % 4 == 0 && StringAt(u, offset).value.1 <= |u|
  {
    hide ZeroFrom;
    PaddingFits(|u|, offset, ZeroFrom(u, offset));
  }

  lemma PaddingFits(size: nat, offset: nat, end: nat)
    requires size % 4 == 0 && offset % 4 == 0 && offset <= end <= size
    ensures (offset + PaddedSize(end - offset)) % 4 == 0 && (end < size ==> offset + PaddedSize(end - offset) <= size)
  {
  }

  lemma ArgumentKeepsAlignment(u: bytes, base: nat, address: bytes, tag: byte, offset: nat)
    requires |u| % 4 == 0 && offset % 4 == 0 && offset <= |u|
    ensures match ArgumentAt(u, base, address, tag, offset)
            case Accepted((_, next)) => next % 4 == 0
            case Refused(refusal) => refusal.at == base + offset && !refusal.reason.SizeFieldTruncated?
  {
    hide StringAt, FromBigEndian, OfBits, Signed;
    PaddingNeverOverruns(u, offset);
  }

  /** Every offset a message is read at is a multiple of four, and a refusal points at one. */
  lemma {:induction false} ArgumentsKeepAlignment(u: bytes, base: nat, address: bytes, tags: bytes, offset: nat)
    requires |u| % 4 == 0 && offset % 4 == 0 && offset <= |u|
    ensures match ArgumentsAt(u, base, address, tags, offset)
            case Accepted((_, end)) => end % 4 == 0
            case Refused(r) => base <= r.at <= base + |u| && (r.at - base) % 4 == 0 && !r.reason.SizeFieldTruncated?
    decreases |tags|
  {
    hide ArgumentAt;
    if tags != [] {
      ArgumentKeepsAlignment(u, base, address, tags[0], offset);
      var first := ArgumentAt(u, base, address, tags[0], offset);
      if first.Accepted? {
        ArgumentsKeepAlignment(u, base, address, tags[1..], first.value.1);
      }
    }
  }

  /** A refusal within an element, as it is promised. */
  predicate PointsInside(r: Refusal, u: bytes, base: nat) {
    base <= r.at <= base + |u| && (r.at - base) % 4 == 0 && !r.reason.SizeFieldTruncated?
  }

  lemma MessageRefusalIsInside(u: bytes, base: nat)
    requires |u| % 4 == 0 && MessageIn(u, base).Refused?
    ensures PointsInside(MessageIn(u, base).refusal, u, base)
  {
    hide ArgumentsAt, StringAt;
    PaddingNeverOverruns(u, 0);
    if StringAt(u, 0).Some? {
      var (address, afterAddress) := StringAt(u, 0).value;
      PaddingNeverOverruns(u, afterAddress);
      if StringAt(u, afterAddress).Some? {
        var (tags, start) := StringAt(u, afterAddress).value;
        if tags != [] {
          ArgumentsKeepAlignment(u, base, address, tags[1..], start);
        }
      }
    }
  }

  /**
   Every refusal names a byte of the datagram or its end, at a multiple of four from its start, and a
   bundle's size field is never found truncated.
   */
  lemma {:induction false} RefusalIsInside(u: bytes, base: nat, depth: nat)
    requires ElementIn(u, base, depth).Refused?
    ensures PointsInside(ElementIn(u, base, depth).refusal, u, base)
    decreases |u|, 1, 0
  {
    hide MessageIn, IsBundle;
    if depth <= MAX_BUNDLE_DEPTH && |u| != 0 && |u| % 4 == 0 {
      if IsBundle(u) {
        if |u| >= BUNDLE_HEADER_SIZE {
          ElementsRefusalIsInside(u, base, depth, BUNDLE_HEADER_SIZE);
        }
      } else if u[0] == SLASH {
        MessageRefusalIsInside(u, base);
      }
    }
  }

  lemma ShiftAligns(x: int, shift: int)
    requires x % 4 == 0 && shift % 4 == 0
    ensures (x + shift) % 4 == 0
  {
  }

  lemma AcceptedIsAligned(u: bytes, base: nat, depth: nat)
    requires ElementIn(u, base, depth).Accepted?
    ensures |u| % 4 == 0
  {
    hide MessageIn, ElementsFrom, IsBundle;
  }

  lemma {:induction false} ElementsRefusalIsInside(u: bytes, base: nat, depth: nat, offset: nat)
    requires |u| % 4 == 0 && offset % 4 == 0 && offset <= |u| && ElementsFrom(u, base, depth, offset).Refused?
    ensures PointsInside(ElementsFrom(u, base, depth, offset).refusal, u, base)
    decreases |u|, 0, |u| - offset
  {
    hide FromBigEndian, ElementIn;
    var size, start := Signed(FromBigEndian(u[offset..offset + 4]), TWO_31), offset + 4;
    if 0 < size <= |u| - start {
      var inner := ElementIn(u[start..start + size], base + start, depth + 1);
      if inner.Refused? {
        RefusalIsInside(u[start..start + size], base + start, depth + 1);
        ShiftAligns(inner.refusal.at - base - start, start);
      } else {
        AcceptedIsAligned(u[start..start + size], base + start, depth + 1);
        ShiftAligns(start, size);
        ElementsRefusalIsInside(u, base, depth, start + size);
      }
    }
  }

  // ---- Why a datagram is refused ----

  /** Why no argument of `tag` is spelled at the start of `w`. */
  ghost predicate ArgumentFails(w: bytes, tag: byte, reason: Reason) {
    match reason
    case UnknownTag => tag !in [105, 102, 99, 114, 109, 104, 116, 100, 115, 83, 98, 84, 70, 78, 73, 91, 93]
    case ArgumentShort => (tag in [105, 102, 99, 114, 109] && |w| < 4) || (tag in [104, 116, 100] && |w| < 8)
    case TextUnterminated => (tag == 115 || tag == 83) && NoText(w)
    case BlobSizeMissing => tag == 98 && |w| < 4
    case BlobSizeNegative => tag == 98 && |w| >= 4 && w[0] >= 128
    case BlobOverruns => tag == 98 && |w| >= 4 && w[0] < 128 && NoBlob(w)
    case _ => false
  }

  ghost predicate NoText(w: bytes) {
    forall n: nat, s :: n <= |w| ==> !SpellsText(w[..n], s)
  }

  ghost predicate NoBlob(w: bytes) {
    forall n: nat, blob :: n <= |w| ==> !SpellsBlob(w[..n], blob)
  }

  /** What stands at `at` in a message, past all that is spelled there, and why nothing can be read of it. */
  ghost predicate MessageFails(u: bytes, reason: Reason, at: nat, subject: bytes) {
    if reason.AddressUnterminated? then at == 0 && subject == [] && NoText(u)
    else
      exists i: nat, j: nat, tags: bytes ::
        && i <= j <= |u| && SpellsText(u[..i], subject)
        && MessageFailsPast(u, reason, at, i, j, tags)
  }

  ghost predicate MessageFailsPast(u: bytes, reason: Reason, at: nat, i: nat, j: nat, tags: bytes)
    requires i <= j <= |u|
  {
    if reason.TagsUnterminated? then at == i && NoText(u[i..])
    else
      && SpellsText(u[i..j], tags)
      && if reason.NoComma? then at == j && (tags == [] || tags[0] != 44)
         else tags != [] && tags[0] == 44 && ArgumentsFail(u[j..], tags[1..], reason, at - j)
  }

  /** The arguments are spelled up to `at`, where one cannot be read or bytes are left over. */
  ghost predicate ArgumentsFail(w: bytes, tags: bytes, reason: Reason, at: int) {
    exists n: nat, k: nat, arguments: seq<Argument> ::
      && n <= |w| && k <= |tags| && at == n && SpellsArguments(w[..n], tags[..k], arguments)
      && if k == |tags| then reason.BytesLeftOver? && n < |w| else ArgumentFails(w[n..], tags[k], reason)
  }

  /** What stands at `at` in an element, past all that is spelled there, and why nothing can be read of it. */
  ghost predicate Fails(u: bytes, depth: nat, reason: Reason, at: nat, subject: bytes)
    decreases |u|, 1
  {
    if depth > 8 then reason.TooDeep? && at == 0 && subject == []
    else if u == [] then reason.EmptyDatagram? && at == 0 && subject == []
    else if |u| % 4 != 0 then reason.NotAligned? && at == 0 && subject == []
    else if [35, 98, 117, 110, 100, 108, 101, 0] <= u then
      if |u| < 16 then reason.BundleHeaderShort? && at == 0 && subject == []
      else
        exists start: nat, before: seq<Element> ::
          16 <= start <= |u| - 4 && start <= at && SpellsElements(u[16..start], before)
          && BodyFails(u, depth, reason, at, subject, start)
    else if u[0] == 47 then MessageFails(u, reason, at, subject)
    else reason.NeitherBundleNorMessage? && at == 0 && subject == []
  }

  /** The element whose size stands at `start`: the size is not positive, too large, or the element fails. */
  ghost predicate BodyFails(u: bytes, depth: nat, reason: Reason, at: nat, subject: bytes, start: nat)
    requires start + 4 <= |u| && start <= at
    decreases |u|, 0
  {
    var size := u[start] as int * 0x100_0000 + u[start + 1] as int * 0x1_0000 + u[start + 2] as int * 0x100 + u[start + 3] as int;
    if size == 0 || size >= 0x8000_0000 then reason.SizeNotPositive? && at == start && subject == []
    else if size > |u| - start - 4 then reason.ElementOverruns? && at == start && subject == []
    else at >= start + 4 && Fails(u[start + 4..start + 4 + size], depth + 1, reason, at - start - 4, subject)
  }

  lemma NoTextIsNone(u: bytes, at: nat)
    requires at <= |u| && StringAt(u, at).None?
    ensures NoText(u[at..])
  {
    hide StringAt, SpellsText;
    var w := u[at..];
    forall n: nat, s | n <= |w|
      ensures !SpellsText(w[..n], s)
    {
      if SpellsText(w[..n], s) {
        assert w[..n] == u[at..at + n];
        TextIsRead(u, at, n, s);
      }
    }
  }

  lemma NoBlobIsNone(u: bytes, base: nat, address: bytes, at: nat)
    requires at <= |u| && ArgumentAt(u, base, address, 98, at).Refused?
    ensures NoBlob(u[at..])
  {
    hide ArgumentAt, SpellsBlob;
    var w := u[at..];
    forall n: nat, blob | n <= |w|
      ensures !SpellsBlob(w[..n], blob)
    {
      if SpellsBlob(w[..n], blob) {
        assert w[..n] == u[at..at + n];
        BlobIsShort(w[..n], blob);
        BlobIsRead(u, base, address, at, n, Argument(98, 0, 0, Zero, [], blob));
      }
    }
  }

  lemma BlobIsShort(w: bytes, blob: bytes)
    requires SpellsBlob(w, blob)
    ensures |blob| < 0x8000_0000
  {
  }

  /** A big-endian field of four bytes, spelled out. */
  lemma FourBytes(s: bytes)
    requires |s| == 4
    ensures FromBigEndian(s) == s[0] as int * 0x100_0000 + s[1] as int * 0x1_0000 + s[2] as int * 0x100 + s[3] as int
  {
    assert s[..3][..2] == s[..2] && s[..2][..1] == s[..1] && s[..1] == [s[0]];
    assert FromBigEndian(s[..1]) == s[0] as int by { assert s[..1][..0] == []; }
    assert FromBigEndian(s[..2]) == FromBigEndian(s[..1]) * 256 + s[1] as int;
    assert FromBigEndian(s[..3]) == FromBigEndian(s[..2]) * 256 + s[2] as int;
  }

  lemma TextRefusedFor(u: bytes, base: nat, address: bytes, tag: byte, at: nat, reason: Reason)
    requires at <= |u| && (tag == 115 || tag == 83)
    ensures ArgumentAt(u, base, address, tag, at) == Refused(Refusal(reason, base + at, address))
        <==> ArgumentFails(u[at..], tag, reason)
  {
    hide StringAt, NoText, NoBlob;
    if StringAt(u, at).None? {
      NoTextIsNone(u, at);
    } else {
      SomeText(u, at);
    }
  }

  lemma BlobRefusedFor(u: bytes, base: nat, address: bytes, at: nat, reason: Reason)
    requires at <= |u|
    ensures ArgumentAt(u, base, address, 98, at) == Refused(Refusal(reason, base + at, address))
        <==> ArgumentFails(u[at..], 98, reason)
  {
    hide FromBigEndian, StringAt, NoText, NoBlob;
    if |u| - at >= 4 {
      FourBytes(u[at..at + 4]);
    }
    if ArgumentAt(u, base, address, 98, at).Refused? {
      NoBlobIsNone(u, base, address, at);
    } else {
      SomeBlob(u, base, address, at);
    }
  }

  /** An argument is refused at its own offset, exactly for the reason that nothing can be read of it. */
  lemma ArgumentRefusedFor(u: bytes, base: nat, address: bytes, tag: byte, at: nat, reason: Reason)
    requires at <= |u|
    ensures ArgumentAt(u, base, address, tag, at) == Refused(Refusal(reason, base + at, address))
        <==> ArgumentFails(u[at..], tag, reason)
  {
    hide FromBigEndian, StringAt, NoText, NoBlob;
    if tag == 115 || tag == 83 {
      TextRefusedFor(u, base, address, tag, at, reason);
    } else if tag == 98 {
      BlobRefusedFor(u, base, address, at, reason);
    }
  }

  lemma ArgumentRefusedHere(u: bytes, base: nat, address: bytes, tag: byte, at: nat)
    requires at <= |u| && ArgumentAt(u, base, address, tag, at).Refused?
    ensures var r := ArgumentAt(u, base, address, tag, at).refusal; r.at == base + at && r.subject == address
  {
    hide FromBigEndian, StringAt;
  }

  lemma SomeText(u: bytes, at: nat)
    requires at <= |u| && StringAt(u, at).Some?
    ensures !NoText(u[at..])
  {
    hide StringAt, SpellsText;
    TextIsSpelled(u, at);
    var (s, next) := StringAt(u, at).value;
    assert u[at..][..next - at] == u[at..next];
  }

  lemma SomeBlob(u: bytes, base: nat, address: bytes, at: nat)
    requires at <= |u| && ArgumentAt(u, base, address, 98, at).Accepted?
    ensures !NoBlob(u[at..])
  {
    hide ArgumentAt, SpellsBlob;
    BlobIsSpelled(u, base, address, at);
    var (a, next) := ArgumentAt(u, base, address, 98, at).value;
    assert u[at..][..next - at] == u[at..next];
  }

  lemma ArgumentsJoin(w: bytes, n: nat, tag: byte, tags: bytes, a: Argument, rest: seq<Argument>)
    requires n <= |w| && SpellsArgument(w[..n], tag, a) && SpellsArguments(w[n..], tags, rest)
    ensures SpellsArguments(w, [tag] + tags, [a] + rest)
  {
    hide SpellsArgument;
    assert ([tag] + tags)[1..] == tags && ([a] + rest)[1..] == rest;
  }

  lemma {:induction false} ArgumentsRefusedFor(u: bytes, base: nat, address: bytes, tags: bytes, at: nat)
    requires at <= |u| && ArgumentsAt(u, base, address, tags, at).Refused?
    ensures var r := ArgumentsAt(u, base, address, tags, at).refusal;
            r.subject == address && r.at >= base && ArgumentsFail(u[at..], tags, r.reason, r.at - base - at)
    decreases |tags|
  {
    hide ArgumentAt, ArgumentFails, SpellsArgument, SpellsArguments;
    var first := ArgumentAt(u, base, address, tags[0], at);
    var r := ArgumentsAt(u, base, address, tags, at).refusal;
    var w := u[at..];
    if first.Refused? {
      ArgumentRefusedHere(u, base, address, tags[0], at);
      ArgumentRefusedFor(u, base, address, tags[0], at, first.refusal.reason);
      NoArguments(w);
      assert w[0..] == w && tags[..0] == [];
      assert SpellsArguments(w[..0], tags[..0], []);
    } else {
      var (a, next) := first.value;
      ArgumentIsSpelled(u, base, address, tags[0], at);
      ArgumentsRefusedFor(u, base, address, tags[1..], next);
      var w', shift := u[next..], next - at;
      var n: nat, k: nat, arguments: seq<Argument> :|
        && n <= |w'| && k <= |tags| - 1 && r.at - base - next == n && SpellsArguments(w'[..n], tags[1..][..k], arguments)
        && if k == |tags| - 1 then r.reason.BytesLeftOver? && n < |w'| else ArgumentFails(w'[n..], tags[1..][k], r.reason);
      assert w[..shift + n][..shift] == u[at..next] && w[..shift + n][shift..] == w'[..n];
      ArgumentsJoin(w[..shift + n], shift, tags[0], tags[1..][..k], a, arguments);
      assert [tags[0]] + tags[1..][..k] == tags[..k + 1];
      assert w'[n..] == w[shift + n..];
    }
  }

  lemma NoArguments(w: bytes)
    ensures SpellsArguments(w[..0], [], [])
  {
  }

  lemma MessageRefusedFor(u: bytes, base: nat)
    requires u != [] && u[0] == 47 && MessageIn(u, base).Refused?
    ensures var r := MessageIn(u, base).refusal;
            r.at >= base && MessageFails(u, r.reason, r.at - base, r.subject)
  {
    hide ArgumentsAt, StringAt, SpellsText, SpellsArguments, NoText, ArgumentsFail;
    var r := MessageIn(u, base).refusal;
    assert u[0..] == u;
    if StringAt(u, 0).None? {
      NoTextIsNone(u, 0);
    } else {
      TextIsSpelled(u, 0);
      var (address, i) := StringAt(u, 0).value;
      assert u[0..i] == u[..i];
      if StringAt(u, i).None? {
        NoTextIsNone(u, i);
        assert MessageFailsPast(u, r.reason, r.at - base, i, i, []);
      } else {
        TextIsSpelled(u, i);
        var (tags, j) := StringAt(u, i).value;
        if tags != [] && tags[0] == 44 {
          var all := ArgumentsAt(u, base, address, tags[1..], j);
          if all.Refused? {
            ArgumentsRefusedFor(u, base, address, tags[1..], j);
            ArgumentsFailFor(u[j..], tags[1..], r.reason, r.at - base - j);
          } else {
            LeftOver(u, base, address, tags[1..], j);
          }
        }
        assert MessageFailsPast(u, r.reason, r.at - base, i, j, tags);
      }
    }
  }

  lemma LeftOver(u: bytes, base: nat, address: bytes, tags: bytes, at: nat)
    requires at <= |u| && ArgumentsAt(u, base, address, tags, at).Accepted?
    ensures var (arguments, end) := ArgumentsAt(u, base, address, tags, at).value;
            end < |u| ==> ArgumentsFail(u[at..], tags, BytesLeftOver, end - at)
  {
    hide ArgumentsAt, SpellsArguments;
    ArgumentsAreSpelled(u, base, address, tags, at);
    var (arguments, end) := ArgumentsAt(u, base, address, tags, at).value;
    assert u[at..][..end - at] == u[at..end] && tags[..|tags|] == tags;
  }

  lemma ArgumentsFailFor(w: bytes, tags: bytes, reason: Reason, at: int)
    requires ArgumentsFail(w, tags, reason, at)
    ensures reason in [UnknownTag, ArgumentShort, TextUnterminated, BlobSizeMissing, BlobSizeNegative, BlobOverruns, BytesLeftOver]
  {
    hide NoText, NoBlob, SpellsArguments;
  }

  lemma BundleBegins(u: bytes)
    ensures IsBundle(u) <==> [35, 98, 117, 110, 100, 108, 101, 0] <= u
  {
    assert |u| >= 8 ==> (u[..8] == [35, 98, 117, 110, 100, 108, 101, 0] <==> [35, 98, 117, 110, 100, 108, 101, 0] <= u);
  }

  /** Every refusal of an element names the first place where nothing can be read, and why. */
  lemma {:induction false} ElementRefusedFor(u: bytes, base: nat, depth: nat)
    requires ElementIn(u, base, depth).Refused?
    ensures var r := ElementIn(u, base, depth).refusal;
            r.at >= base && Fails(u, depth, r.reason, r.at - base, r.subject)
    decreases |u|, 1, 0
  {
    hide MessageIn, MessageFails, ElementsFrom, BodyFails, SpellsElements, IsBundle;
    var r := ElementIn(u, base, depth).refusal;
    BundleBegins(u);
    if depth <= 8 && u != [] && |u| % 4 == 0 {
      if IsBundle(u) {
        if |u| >= 16 {
          NoElements(u[16..16]);
          ElementsRefusedFor(u, base, depth, 16, []);
        }
      } else {
        if u[0] == 47 {
          MessageRefusedFor(u, base);
        }
      }
    }
  }

  lemma NoElements(w: bytes)
    requires w == []
    ensures SpellsElements(w, [])
  {
  }

  lemma {:induction false} ElementsExtend(w: bytes, m: nat, before: seq<Element>, n: nat, e: Element)
    requires m + 4 + n == |w| && n < 0x8000_0000 && SpellsElements(w[..m], before)
    requires w[m..m + 4] == BigEndian(n, 4) && Spells(w[m + 4..], e)
    ensures SpellsElements(w, before + [e])
    decreases before
  {
    hide Spells, BigEndian, SpellsElements;
    if before == [] {
      NothingIsNothing(w[..m]);
      NoElements(w[4 + n..]);
      assert w[4..4 + n] == w[m + 4..];
      JoinElement(w, n, e, []);
      assert before + [e] == [e] + [];
    } else {
      var size := FirstSize(w[..m], before);
      var rest := w[4 + size..];
      assert w[..m][..4] == w[..4] && w[..m][4..4 + size] == w[4..4 + size] && w[..m][4 + size..] == rest[..m - 4 - size];
      assert rest[m - 4 - size..m - size] == w[m..m + 4] && rest[m - size..] == w[m + 4..];
      ElementsExtend(rest, m - 4 - size, before[1..], n, e);
      JoinElement(w, size, before[0], before[1..] + [e]);
      assert before + [e] == [before[0]] + (before[1..] + [e]);
    }
  }

  lemma JoinElement(w: bytes, n: nat, first: Element, rest: seq<Element>)
    requires n < 0x8000_0000 && 4 + n <= |w| && w[..4] == BigEndian(n, 4)
    requires Spells(w[4..4 + n], first) && SpellsElements(w[4 + n..], rest)
    ensures SpellsElements(w, [first] + rest)
  {
    ElementsJoin(w, n, first, rest);
  }

  lemma BodyGrows(u: bytes, at: nat, before: seq<Element>, n: nat, e: Element)
    requires 16 <= at && at + 4 + n <= |u| && n < 0x8000_0000 && SpellsElements(u[16..at], before)
    requires u[at..at + 4] == BigEndian(n, 4) && Spells(u[at + 4..at + 4 + n], e)
    ensures SpellsElements(u[16..at + 4 + n], before + [e])
  {
    hide Spells, SpellsElements, BigEndian;
    var w, m := u[16..at + 4 + n], at - 16;
    SliceOfSlice(u, 16, |w|, 0, m);
    SliceOfSlice(u, 16, |w|, m, m + 4);
    SliceOfSlice(u, 16, |w|, m + 4, |w|);
    assert w[..m] == w[0..m] && w[m + 4..] == w[m + 4..|w|];
    ElementsExtend(w, m, before, n, e);
  }

  lemma {:induction false} ElementsRefusedFor(u: bytes, base: nat, depth: nat, at: nat, before: seq<Element>)
    requires 16 <= at <= |u| && |u| % 4 == 0 && depth <= 8 && ElementsFrom(u, base, depth, at).Refused?
    requires SpellsElements(u[16..at], before)
    ensures var r := ElementsFrom(u, base, depth, at).refusal;
            r.at >= base && exists start: nat, b: seq<Element> ::
              16 <= start <= |u| - 4 && start <= r.at - base && SpellsElements(u[16..start], b)
              && BodyFails(u, depth, r.reason, r.at - base, r.subject, start)
    decreases |u|, 0, |u| - at
  {
    hide ElementIn, FromBigEndian, BigEndian, Fails, Spells, SpellsElements;
    ElementsAlign(u[16..at], before);
    SumAligns(at, -16);
    var r := ElementsFrom(u, base, depth, at).refusal;
    Whole(u, at);
    FourBytes(u[at..at + 4]);
    var size := Signed(FromBigEndian(u[at..at + 4]), TWO_31);
    if 0 < size <= |u| - at - 4 {
      var inner := u[at + 4..at + 4 + size];
      if ElementIn(inner, base + at + 4, depth + 1).Refused? {
        ElementRefusedFor(inner, base + at + 4, depth + 1);
        assert BodyFails(u, depth, r.reason, r.at - base, r.subject, at);
      } else {
        var e := ElementIsSpelled(inner, base + at + 4, depth + 1);
        Widths();
        FromBigEndianRoundTrip(u[at..at + 4]);
        BodyGrows(u, at, before, size, e);
        ElementsRefusedFor(u, base, depth, at + 4 + size, before + [e]);
      }
    } else {
      assert BodyFails(u, depth, r.reason, r.at - base, r.subject, at);
    }
  }

  lemma Whole(u: bytes, at: nat)
    requires |u| % 4 == 0 && (at - 16) % 4 == 0 && at < |u|
    ensures at + 4 <= |u|
  {
  }

  /** Every refusal of a datagram names the first byte of which nothing can be read, and why. */
  lemma RefusalIsExplained(u: bytes)
    requires Decoded(u).Refused?
    ensures var r := Decoded(u).refusal; Fails(u, 0, r.reason, r.at, r.subject)
  {
    hide ElementIn, Fails;
    ElementRefusedFor(u, 0, 0);
  }
}
