// What a quoted string of JSON reads as (section 7 of RFC 8259): exactly which texts are taken, and
// which bytes each element stands for (core/src/config.cpp:57-159).
module JsonStrings {
  import opened Text
  import opened CodePoints
  import opened JsonText

  // One element of a string, as it is written and what it stands for.
  datatype Element = Element(source: Bytes, means: Bytes)

  // A byte that stands for itself: no control character, quote or backslash.
  predicate IsPlain(e: Element) {
    |e.source| == 1 && e.source[0] as int >= 0x20 && e.source[0] != '\"' && e.source[0] != '\\' && e.means == e.source
  }

  // The letters behind a backslash, with the character that each stands for.
  predicate Letter(letter: Byte, code: int) {
    || (letter == '\"' && code == 0x22) || (letter == '\\' && code == 0x5C) || (letter == '/' && code == 0x2F)
    || (letter == 'b' && code == 0x08) || (letter == 'f' && code == 0x0C) || (letter == 'n' && code == 0x0A)
    || (letter == 'r' && code == 0x0D) || (letter == 't' && code == 0x09)
  }

  predicate IsLetter(e: Element) {
    |e.source| == 2 && e.source[0] == '\\' && |e.means| == 1 && Letter(e.source[1], e.means[0] as int)
  }

  predicate IsHex(c: Byte, d: int) {
    0 <= d < 16 && (c == "0123456789abcdef"[d] || c == "0123456789ABCDEF"[d])
  }

  // A backslash, a u and the four hex digits of a number.
  predicate IsUnit(s: Bytes, v: int) {
    && |s| == 6 && s[0] == '\\' && s[1] == 'u' && 0 <= v < 0x1_0000
    && IsHex(s[2], v / 0x1000) && IsHex(s[3], v / 0x100 % 0x10) && IsHex(s[4], v / 0x10 % 0x10) && IsHex(s[5], v % 0x10)
  }

  predicate IsHigh(v: int) { 0xD800 <= v < 0xDC00 }

  predicate IsLow(v: int) { 0xDC00 <= v < 0xE000 }

  // The unit of a code point that is no surrogate, which stands for its UTF-8 bytes.
  predicate IsSingle(e: Element, v: int) {
    IsUnit(e.source, v) && !IsHigh(v) && !IsLow(v) && IsUtf8(e.means, v)
  }

  // A high surrogate and a low one, which together stand for a code point from 0x10000 on.
  predicate IsPair(e: Element, high: int, low: int) {
    && |e.source| == 12 && IsUnit(e.source[..6], high) && IsUnit(e.source[6..], low)
    && IsHigh(high) && IsLow(low) && IsUtf8(e.means, 0x1_0000 + (high - 0xD800) * 0x400 + (low - 0xDC00))
  }

  ghost predicate IsElement(e: Element) {
    IsPlain(e) || IsLetter(e) || (exists v :: IsSingle(e, v)) || (exists high, low :: IsPair(e, high, low))
  }

  ghost predicate AreElements(elements: seq<Element>) {
    forall i :: 0 <= i < |elements| ==> IsElement(elements[i])
  }

  function Source(elements: seq<Element>): Bytes {
    if elements == [] then [] else elements[0].source + Source(elements[1..])
  }

  function Meaning(elements: seq<Element>): Bytes {
    if elements == [] then [] else elements[0].means + Meaning(elements[1..])
  }

  // ----- hex digits and units -----

  lemma {:induction false} HexIs(c: Byte, d: int)
    ensures IsHex(c, d) <==> d >= 0 && Hex(c) == d
  {
    if 0 <= d < 16 { HexDigitIs(c, d); }
  }

  lemma {:induction false} HexDigitIs(c: Byte, d: int)
    requires 0 <= d < 16
    ensures "0123456789abcdef"[d] as int == (if d < 10 then 0x30 + d else 0x57 + d)
    ensures "0123456789ABCDEF"[d] as int == (if d < 10 then 0x30 + d else 0x37 + d)
  {
    match d
    case 0 => case 1 => case 2 => case 3 => case 4 => case 5 => case 6 => case 7 =>
    case 8 => case 9 => case 10 => case 11 => case 12 => case 13 => case 14 => case 15 =>
  }

  lemma {:induction false} UnitIs(s: Bytes, v: int)
    requires |s| >= 6 && s[0] == '\\' && s[1] == 'u'
    ensures IsUnit(s[..6], v) <==> v >= 0 && UnicodeUnit(s[2..]) == Done(v, 4)
  {
    hide Hex, IsHex;
    if 0 <= v < 0x1_0000 {
      HexIs(s[2], v / 0x1000);
      HexIs(s[3], v / 0x100 % 0x10);
      HexIs(s[4], v / 0x10 % 0x10);
      HexIs(s[5], v % 0x10);
      UnitDigits(s[2..], v);
    } else {
      UnitRange(s[2..]);
    }
  }

  lemma {:induction false} UnitRange(s: Bytes)
    ensures UnicodeUnit(s).Done? ==> 0 <= UnicodeUnit(s).value < 0x1_0000
  {
  }

  lemma {:induction false} UnitDigits(s: Bytes, v: int)
    requires |s| >= 4 && 0 <= v < 0x1_0000
    ensures UnicodeUnit(s) == Done(v, 4) <==>
            Hex(s[0]) == v / 0x1000 && Hex(s[1]) == v / 0x100 % 0x10 && Hex(s[2]) == v / 0x10 % 0x10 && Hex(s[3]) == v % 0x10
  {
    hide Hex;
    if Hex(s[0]) >= 0 && Hex(s[1]) >= 0 && Hex(s[2]) >= 0 && Hex(s[3]) >= 0 {
      FourDigits(Hex(s[0]), Hex(s[1]), Hex(s[2]), Hex(s[3]), v);
    }
  }

  // A number in base 16 by its digits.
  lemma {:induction false} FourDigits(a: int, b: int, c: int, d: int, v: int)
    requires 0 <= a < 16 && 0 <= b < 16 && 0 <= c < 16 && 0 <= d < 16
    ensures ((a * 16 + b) * 16 + c) * 16 + d == v <==>
            a == v / 0x1000 && b == v / 0x100 % 0x10 && c == v / 0x10 % 0x10 && d == v % 0x10
  {
    assert v == v / 0x10 * 0x10 + v % 0x10;
    assert v / 0x10 == v / 0x100 * 0x10 + v / 0x10 % 0x10;
    assert v / 0x100 == v / 0x1000 * 0x10 + v / 0x100 % 0x10;
  }

  // ----- from the elements to what is read -----

  lemma {:induction false} SameMeaning(a: Bytes, cp: int)
    requires 0 <= cp < CODE_POINTS && IsUtf8(a, cp)
    ensures Utf8(cp) == a
  {
    Utf8Encodes(cp);
    Utf8IsUnique(a, Utf8(cp), cp, cp);
  }

  lemma {:induction false} SingleReads(e: Element, v: int, tail: Bytes)
    requires IsSingle(e, v)
    ensures Escape((e.source + tail)[1..]) == Done(e.means, 5)
  {
    hide IsUtf8, UnicodeUnit, IsHex, Utf8;
    var s := e.source + tail;
    assert s[..6] == e.source && s[1..][1..] == s[2..];
    UnitIs(s, v);
    SameMeaning(e.means, v);
  }

  lemma {:induction false} PairReads(e: Element, high: int, low: int, tail: Bytes)
    requires IsPair(e, high, low)
    ensures Escape((e.source + tail)[1..]) == Done(e.means, 11)
  {
    hide IsUtf8, UnicodeUnit, IsHex, Utf8;
    var s := e.source + tail;
    assert s[..6] == e.source[..6] && s[6..][..6] == e.source[6..];
    UnitIs(s, high);
    UnitIs(s[6..], low);
    PairParses(s, high, low);
    SameMeaning(e.means, 0x1_0000 + (high - 0xD800) * 0x400 + (low - 0xDC00));
  }

  lemma {:induction false} PairParses(s: Bytes, high: int, low: int)
    requires |s| >= 12 && s[1] == 'u' && s[6] == '\\' && s[7] == 'u' && IsHigh(high) && IsLow(low)
    requires UnicodeUnit(s[2..]) == Done(high, 4) && UnicodeUnit(s[6..][2..]) == Done(low, 4)
    ensures Escape(s[1..]) == Done(Utf8(0x1_0000 + (high - 0xD800) * 0x400 + (low - 0xDC00)), 11)
  {
    hide UnicodeUnit, Utf8;
    var t := s[2..];
    assert s[1..][1..] == t && t[6..] == s[6..][2..];
    assert t[4..][..2] == "\\u";
  }

  lemma {:induction false} ElementReads(e: Element, tail: Bytes)
    requires IsElement(e)
    ensures e.source != [] && Body(e.source + tail) == Prefixed(e.means, |e.source|, Body(tail))
  {
    hide IsSingle, IsPair, Escape;
    var s := e.source + tail;
    SourceShape(e);
    assert s[|e.source|..] == tail;
    if IsPlain(e) {
      assert e.means == [s[0]] && s[1..] == tail;
    } else {
      BodyEscaped(s);
      if IsLetter(e) {
        LetterReads(e, tail);
      } else if v :| IsSingle(e, v) {
        SingleReads(e, v, tail);
      } else {
        var high, low :| IsPair(e, high, low);
        PairReads(e, high, low, tail);
      }
    }
  }

  lemma {:induction false} LetterReads(e: Element, tail: Bytes)
    requires IsLetter(e)
    ensures Escape((e.source + tail)[1..]) == Done(e.means, 1)
  {
    hide Unicode;
    assert e.means == [ByteOf(e.means[0] as int)];
  }

  lemma {:induction false} SourceShape(e: Element)
    requires IsElement(e)
    ensures e.source != [] && (IsPlain(e) <==> e.source[0] != '\\')
    ensures forall v :: IsSingle(e, v) ==> |e.source| == 6
    ensures forall high, low :: IsPair(e, high, low) ==> |e.source| == 12
  {
    hide IsUtf8, IsHex;
  }

  lemma {:induction false} BodyReadsAll(elements: seq<Element>, rest: Bytes)
    requires AreElements(elements)
    ensures Body(Source(elements) + ("\"" + rest)) == Done(Meaning(elements), |Source(elements)| + 1)
  {
    hide IsElement;
    var close := "\"" + rest;
    if elements == [] {
      assert Source(elements) + close == close;
      BodyCloses(close);
    } else {
      hide Body;
      BodyReadsAll(elements[1..], rest);
      ElementReads(elements[0], Source(elements[1..]) + close);
      Associative(elements[0].source, Source(elements[1..]), close);
    }
  }

  lemma {:induction false} BodyCloses(s: Bytes)
    requires s != [] && s[0] == '\"'
    ensures Body(s) == Done("", 1)
  {
  }

  // ----- from what is read to the elements -----

  lemma {:induction false} SingleGiven(s: Bytes)
    requires |s| > 1 && s[0] == '\\' && s[1] == 'u' && Escape(s[1..]).Done? && !IsHigh(UnicodeUnit(s[2..]).value)
    ensures Escape(s[1..]).used == 5 && |s| >= 6
    ensures IsSingle(Element(s[..6], Escape(s[1..]).value), UnicodeUnit(s[2..]).value)
  {
    hide IsUtf8, UnicodeUnit, Utf8, IsUnit;
    assert s[1..][1..] == s[2..];
    var v := UnicodeUnit(s[2..]).value;
    Utf8Encodes(v);
    UnitIs(s, v);
  }

  lemma {:induction false} PairGiven(s: Bytes)
    requires |s| > 1 && s[0] == '\\' && s[1] == 'u' && Escape(s[1..]).Done? && UnicodeUnit(s[2..]).Done? && IsHigh(UnicodeUnit(s[2..]).value)
    ensures Escape(s[1..]).used == 11 && |s| >= 12 && UnicodeUnit(s[8..]).Done?
    ensures IsPair(Element(s[..12], Escape(s[1..]).value), UnicodeUnit(s[2..]).value, UnicodeUnit(s[8..]).value)
  {
    hide IsUtf8, UnicodeUnit, Utf8, IsUnit;
    var t := s[2..];
    assert s[1..][1..] == t && t[6..] == s[8..] == s[6..][2..];
    var high, low := UnicodeUnit(t).value, UnicodeUnit(s[8..]).value;
    assert t[4..][..2] == "\\u" && s[6] == '\\' && s[7] == 'u';
    Utf8Encodes(0x1_0000 + (high - 0xD800) * 0x400 + (low - 0xDC00));
    UnitIs(s, high);
    UnitIs(s[6..], low);
    assert s[..12][..6] == s[..6] && s[..12][6..] == s[6..][..6];
  }

  lemma {:induction false} LetterGiven(s: Bytes)
    requires |s| > 1 && s[0] == '\\' && s[1] != 'u' && Escape(s[1..]).Done?
    ensures Escape(s[1..]).used == 1 && IsLetter(Element(s[..2], Escape(s[1..]).value))
  {
    hide Unicode;
    assert ByteOf(8) as int == 8 && ByteOf(12) as int == 12;
    assert s[1..][0] == s[1] == s[..2][1];
    assert Letter(s[1], Escape(s[1..]).value[0] as int);
  }

  lemma {:induction false} ElementGiven(s: Bytes) returns (e: Element)
    requires s != [] && s[0] != '\"' && Body(s).Done?
    ensures IsElement(e) && 0 < |e.source| <= |s| && e.source == s[..|e.source|]
    ensures Body(s) == Prefixed(e.means, |e.source|, Body(s[|e.source|..]))
  {
    hide IsSingle, IsPair, IsLetter, Escape, UnicodeUnit;
    if s[0] != '\\' {
      e := Element(s[..1], s[..1]);
      assert s[..1] == [s[0]];
    } else {
      BodyEscaped(s);
      var r := Escape(s[1..]);
      EscapeBounds(s[1..]);
      e := Element(s[..1 + r.used], r.value);
      if s[1] != 'u' {
        LetterGiven(s);
      } else {
        UnicodeBounds(s);
        if IsHigh(UnicodeUnit(s[2..]).value) {
          PairGiven(s);
          assert IsPair(e, UnicodeUnit(s[2..]).value, UnicodeUnit(s[8..]).value);
        } else {
          SingleGiven(s);
          assert IsSingle(e, UnicodeUnit(s[2..]).value);
        }
      }
    }
  }

  lemma {:induction false} EscapeBounds(s: Bytes)
    requires Escape(s).Done?
    ensures s != [] && 0 < Escape(s).used <= |s|
  {
  }

  lemma {:induction false} UnicodeBounds(s: Bytes)
    requires |s| > 1 && s[1] == 'u' && Escape(s[1..]).Done?
    ensures UnicodeUnit(s[2..]).Done?
  {
    hide UnicodeUnit, Utf8;
    assert s[1..][1..] == s[2..];
  }

  lemma {:induction false} BodyGiven(s: Bytes) returns (elements: seq<Element>)
    requires Body(s).Done?
    ensures AreElements(elements) && Body(s).value == Meaning(elements)
    ensures Body(s).used <= |s| && s[..Body(s).used] == Source(elements) + "\""
  {
    hide IsElement;
    if s[0] == '\"' {
      elements := [];
      BodyCloses(s);
      assert s[..1] == "\"";
    } else {
      var e := ElementGiven(s);
      var rest := s[|e.source|..];
      var others := BodyGiven(rest);
      elements := [e] + others;
      assert elements[1..] == others;
      assert s[..Body(s).used] == e.source + rest[..Body(rest).used];
      Associative(e.source, Source(others), "\"");
    }
  }

  // ----- the string -----

  // The first n bytes are a string: blanks, a quote, elements, a quote.
  ghost predicate IsString(s: Bytes, n: nat, value: Bytes) {
    exists blanks: Bytes, elements: seq<Element> ::
      && AllSpaces(blanks) && AreElements(elements)
      && n <= |s| && s[..n] == blanks + "\"" + Source(elements) + "\"" && value == Meaning(elements)
  }

  predicate AllSpaces(s: Bytes) {
    forall i :: 0 <= i < |s| ==> s[i] as int == 0x20 || 0x09 <= s[i] as int <= 0x0D
  }

  lemma {:induction false} BlanksAre(s: Bytes)
    ensures AllSpaces(s[..Blanks(s)]) && (Blanks(s) < |s| ==> !AllSpaces([s[Blanks(s)]]))
  {
    if s != [] && IsSpace(s[0]) {
      BlanksAre(s[1..]);
      assert s[..Blanks(s)] == [s[0]] + s[1..][..Blanks(s[1..])];
    } else if s != [] {
      assert [s[0]][0] == s[0];
    }
  }

  lemma {:induction false} BlanksPass(blanks: Bytes, rest: Bytes)
    requires AllSpaces(blanks) && (rest != [] ==> !AllSpaces([rest[0]]))
    ensures Blanks(blanks + rest) == |blanks|
  {
    if blanks == [] {
      assert blanks + rest == rest;
      if rest != [] { assert !IsSpace(rest[0]); }
    } else {
      assert (blanks + rest)[1..] == blanks[1..] + rest;
      BlanksPass(blanks[1..], rest);
    }
  }

  lemma {:induction false} StringReadsAll(s: Bytes, n: nat, blanks: Bytes, elements: seq<Element>)
    requires AllSpaces(blanks) && AreElements(elements)
    requires n <= |s| && s[..n] == blanks + "\"" + Source(elements) + "\""
    ensures String(s) == Done(Meaning(elements), n)
  {
    hide AreElements, Body, Source, Meaning;
    var rest := Source(elements) + ("\"" + s[n..]);
    assert s == s[..n] + s[n..] == blanks + ("\"" + rest);
    BlanksPass(blanks, "\"" + rest);
    BodyReadsAll(elements, s[n..]);
    assert s[|blanks|..] == "\"" + rest && s[|blanks| + 1..] == rest;
  }

  lemma {:induction false} StringGiven(s: Bytes)
    requires String(s).Done?
    ensures IsString(s, String(s).used, String(s).value)
  {
    hide AreElements, AllSpaces, Body, Source, Meaning;
    var b := Blanks(s);
    BlanksAre(s);
    var elements := BodyGiven(s[b + 1..]);
    var n := String(s).used;
    assert s[..n] == s[..b] + "\"" + s[b + 1..][..n - b - 1];
    assert s[..n] == s[..b] + "\"" + Source(elements) + "\"";
  }

  // A string is read exactly from the texts that spell one, as what its elements stand for, and nothing
  // is used up behind the closing quote.
  lemma {:induction false} StringIsExact(s: Bytes, n: nat, value: Bytes)
    ensures String(s) == Done(value, n) <==> IsString(s, n, value)
    ensures String(s).Fail? <==> forall m: nat, v: Bytes :: !IsString(s, m, v)
  {
    hide String;
    forall m: nat, v: Bytes | IsString(s, m, v) ensures String(s) == Done(v, m) {
      var blanks: Bytes, elements: seq<Element> :| AllSpaces(blanks) && AreElements(elements)
        && m <= |s| && s[..m] == blanks + "\"" + Source(elements) + "\"" && v == Meaning(elements);
      StringReadsAll(s, m, blanks, elements);
    }
    if String(s).Done? { StringGiven(s); }
  }

  // A low surrogate alone, or a high one that no low one follows, is refused.
  lemma {:induction false} LoneSurrogateFails(unit: Bytes, v: int, rest: Bytes)
    requires IsUnit(unit, v)
    requires IsLow(v) || (IsHigh(v) && forall low: int :: |rest| >= 6 && IsUnit(rest[..6], low) ==> !IsLow(low))
    ensures String("\"" + unit + rest).Fail?
  {
    hide IsUnit, UnicodeUnit, Escape, Body;
    var s := unit + rest;
    assert "\"" + unit + rest == "\"" + s && ("\"" + s)[1..] == s;
    UnitShape(unit, v);
    assert s[..6] == unit;
    UnitIs(s, v);
    BodyEscaped(s);
    SurrogateStops(s, v, rest);
  }

  lemma {:induction false} UnitShape(unit: Bytes, v: int)
    requires IsUnit(unit, v)
    ensures |unit| == 6 && unit[0] == '\\' && unit[1] == 'u'
  {
  }

  lemma {:induction false} SurrogateStops(s: Bytes, v: int, rest: Bytes)
    requires |s| >= 6 && s[1] == 'u' && s[6..] == rest && v >= 0 && UnicodeUnit(s[2..]) == Done(v, 4)
    requires IsLow(v) || (IsHigh(v) && forall low: int :: |rest| >= 6 && IsUnit(rest[..6], low) ==> !IsLow(low))
    ensures Escape(s[1..]).Fail?
  {
    hide IsUnit, UnicodeUnit, Utf8;
    var t := s[2..];
    assert s[1..][1..] == t && t[4..] == rest;
    if IsHigh(v) && StartsWith(rest, "\\u") && UnicodeUnit(t[6..]).Done? {
      assert t[6..] == rest[2..] && rest[..2][0] == rest[0] && rest[..2][1] == rest[1];
      UnitTaken(rest[2..]);
      UnitIs(rest, UnicodeUnit(rest[2..]).value);
    }
  }

  lemma {:induction false} UnitTaken(s: Bytes)
    requires UnicodeUnit(s).Done?
    ensures |s| >= 4 && UnicodeUnit(s) == Done(UnicodeUnit(s).value, 4)
  {
  }
}
