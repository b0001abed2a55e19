// Cutting a text made of whole characters: split_sms cuts between characters only, and into as few
// parts as their prices allow (core/src/pdu.cpp:81-150).
module SegmentCharacters {
  import opened Text
  import opened CodePoints
  import opened Segment

  // ----- texts as code points -----

  type CodePoint = cp: int | 0 <= cp < 0x11_0000

  function Spelled(cps: seq<CodePoint>): Bytes {
    if cps == [] then [] else Utf8(cps[0]) + Spelled(cps[1..])
  }

  // The septets or 16-bit units of a character: outside GSM 7-bit two from 0x10000 on; inside it two for
  // [ ] { } \ ^ ~ | and, since the list of these ends with one, for NUL.
  function Units(cp: CodePoint, gsm7: bool): nat {
    if gsm7 then (if cp in {0x5B, 0x5D, 0x7B, 0x7D, 0x5C, 0x5E, 0x7E, 0x7C, 0x00} then 2 else 1)
    else if cp >= 0x1_0000 then 2 else 1
  }

  function Price(cps: seq<CodePoint>, gsm7: bool): nat {
    if cps == [] then 0 else Units(cps[0], gsm7) + Price(cps[1..], gsm7)
  }

  // ----- the scanner sees the characters -----

  lemma {:induction false} LeadByte(cp: CodePoint)
    ensures |Utf8(cp)| == CharLength(Utf8(cp)[0])
    ensures |Utf8(cp)| == 4 <==> cp >= 0x1_0000
    ensures |Utf8(cp)| == 1 <==> cp < 0x80
    ensures cp < 0x80 ==> Utf8(cp)[0] as int == cp
  {
    hide Utf8;
    Utf8Encodes(cp);
  }

  lemma {:induction false} EscapedIs(c: Byte)
    ensures IsEscaped(c) <==> c as int in {0x5B, 0x5D, 0x7B, 0x7D, 0x5C, 0x5E, 0x7E, 0x7C, 0x00}
  {
  }

  lemma {:induction false} FirstIsCharacter(cp: CodePoint, rest: Bytes, gsm7: bool)
    ensures FirstToken(Utf8(cp) + rest, gsm7) == Token(Utf8(cp), Units(cp, gsm7))
  {
    hide Utf8, IsEscaped, CharLength;
    var text := Utf8(cp) + rest;
    LeadByte(cp);
    EscapedIs(text[0]);
    assert text[..|Utf8(cp)|] == Utf8(cp);
    Utf8Encodes(cp);
  }

  // One token for each character, with its bytes and its price.
  function AsTokens(cps: seq<CodePoint>, gsm7: bool): (r: seq<Token>)
    ensures |r| == |cps| && forall i :: 0 <= i < |r| ==> r[i] == Token(Utf8(cps[i]), Units(cps[i], gsm7))
  {
    hide Utf8, Units;
    if cps == [] then [] else [Token(Utf8(cps[0]), Units(cps[0], gsm7))] + AsTokens(cps[1..], gsm7)
  }

  lemma {:induction false} TokensAreCharacters(cps: seq<CodePoint>, gsm7: bool)
    ensures Tokens(Spelled(cps), gsm7) == AsTokens(cps, gsm7)
  {
    hide Utf8, Units, FirstToken;
    if cps != [] {
      var rest := Spelled(cps[1..]);
      FirstIsCharacter(cps[0], rest, gsm7);
      TokensAreCharacters(cps[1..], gsm7);
      assert (Utf8(cps[0]) + rest)[|Utf8(cps[0])|..] == rest;
      LeadByte(cps[0]);
    }
  }

  // In any bytes, well-formed or not: the first byte says how long a character is, a byte that cannot
  // start one is one by itself, and the end of the text cuts the last one short.
  lemma {:induction false} MalformedIsScanned(text: Bytes, gsm7: bool)
    requires text != []
    ensures var t, lead := FirstToken(text, gsm7), text[0] as int;
            var length := if lead < 0xC0 then 1 else if lead < 0xE0 then 2 else if lead < 0xF0 then 3 else 4;
            && |t.bytes| == (if length < |text| then length else |text|)
            && t.units == if (if gsm7 then |t.bytes| == 1 && lead in {0x5B, 0x5D, 0x7B, 0x7D, 0x5C, 0x5E, 0x7E, 0x7C, 0x00}
                              else |t.bytes| == 4) then 2 else 1
  {
    hide IsEscaped;
    EscapedIs(text[0]);
  }

  // ----- groups of characters -----

  function Flatten(groups: seq<seq<CodePoint>>): seq<CodePoint> {
    if groups == [] then [] else groups[0] + Flatten(groups[1..])
  }

  predicate IsGrouping(groups: seq<seq<CodePoint>>, cps: seq<CodePoint>, gsm7: bool, perPart: nat) {
    && Flatten(groups) == cps
    && forall i :: 0 <= i < |groups| ==> groups[i] != [] && Price(groups[i], gsm7) <= perPart
  }

  lemma {:induction false} TokensAppend(a: seq<CodePoint>, b: seq<CodePoint>, gsm7: bool)
    ensures AsTokens(a + b, gsm7) == AsTokens(a, gsm7) + AsTokens(b, gsm7)
  {
  }

  lemma {:induction false} FlatIsSpelled(cps: seq<CodePoint>, gsm7: bool)
    ensures Flat(AsTokens(cps, gsm7)) == Spelled(cps) && Cost(AsTokens(cps, gsm7)) == Price(cps, gsm7)
  {
    hide Utf8, Units;
    if cps != [] {
      FlatIsSpelled(cps[1..], gsm7);
      assert AsTokens(cps, gsm7)[1..] == AsTokens(cps[1..], gsm7);
    }
  }

  function GroupTokens(groups: seq<seq<CodePoint>>, gsm7: bool): (r: seq<seq<Token>>)
    ensures |r| == |groups| && forall i :: 0 <= i < |r| ==> r[i] == AsTokens(groups[i], gsm7)
  {
    if groups == [] then [] else [AsTokens(groups[0], gsm7)] + GroupTokens(groups[1..], gsm7)
  }

  lemma {:induction false} GlueIsFlatten(groups: seq<seq<CodePoint>>, gsm7: bool)
    ensures Glue(GroupTokens(groups, gsm7)) == AsTokens(Flatten(groups), gsm7)
  {
    hide AsTokens;
    if groups == [] {
      NoTokens(gsm7);
    } else {
      GlueIsFlatten(groups[1..], gsm7);
      TokensAppend(groups[0], Flatten(groups[1..]), gsm7);
      assert GroupTokens(groups, gsm7)[1..] == GroupTokens(groups[1..], gsm7);
    }
  }

  lemma {:induction false} NoTokens(gsm7: bool)
    ensures AsTokens([], gsm7) == []
  {
  }

  // A grouping of the characters is a split of the tokens.
  lemma {:induction false} GroupingIsSplit(groups: seq<seq<CodePoint>>, cps: seq<CodePoint>, gsm7: bool, perPart: nat)
    requires IsGrouping(groups, cps, gsm7, perPart)
    ensures IsSplit(GroupTokens(groups, gsm7), AsTokens(cps, gsm7), perPart)
  {
    hide AsTokens, Cost, Price, Glue, Flatten;
    var split := GroupTokens(groups, gsm7);
    GlueIsFlatten(groups, gsm7);
    forall i | 0 <= i < |split| ensures split[i] != [] && Cost(split[i]) <= perPart {
      FlatIsSpelled(groups[i], gsm7);
      assert |split[i]| == |groups[i]|;
    }
  }

  // And every split of the tokens is one of the characters.
  lemma {:induction false} SplitIsGrouping(split: seq<seq<Token>>, cps: seq<CodePoint>, gsm7: bool) returns (groups: seq<seq<CodePoint>>)
    requires Glue(split) == AsTokens(cps, gsm7)
    ensures Flatten(groups) == cps && GroupTokens(groups, gsm7) == split
  {
    hide Units, Utf8;
    if split == [] {
      groups := [];
      assert |AsTokens(cps, gsm7)| == 0;
    } else {
      var n := |split[0]|;
      var first, rest := cps[..n], cps[n..];
      assert cps == first + rest;
      TokensAppend(first, rest, gsm7);
      assert split[0] == Glue(split)[..n] == AsTokens(first, gsm7);
      assert Glue(split[1..]) == Glue(split)[n..] == AsTokens(rest, gsm7);
      var others := SplitIsGrouping(split[1..], rest, gsm7);
      groups := [first] + others;
      assert groups[1..] == others;
    }
  }

  // ----- what split_sms does with whole characters -----

  function SpellAll(groups: seq<seq<CodePoint>>): (r: seq<Bytes>)
    ensures |r| == |groups| && forall i :: 0 <= i < |r| ==> r[i] == Spelled(groups[i])
  {
    if groups == [] then [] else [Spelled(groups[0])] + SpellAll(groups[1..])
  }

  // The parts spell groups of characters that fit, and no grouping that fits has fewer.
  lemma {:induction false} SplitsCharacters(cps: seq<CodePoint>, gsm7: bool, perPart: nat) returns (groups: seq<seq<CodePoint>>)
    requires perPart >= 2
    ensures IsGrouping(groups, cps, gsm7, perPart) && Parts(Spelled(cps), gsm7, perPart) == SpellAll(groups)
    ensures forall other :: IsGrouping(other, cps, gsm7, perPart) ==> |groups| <= |other|
  {
    hide AsTokens, Tokens, IsGrouping, IsSplit, Greedy, Spelled, Spell, SpellAll;
    TokensAreCharacters(cps, gsm7);
    AllCharactersFit(cps, gsm7, perPart);
    var split := Greedy(AsTokens(cps, gsm7), perPart);
    GreedyIsSplit(AsTokens(cps, gsm7), perPart);
    SplitGlues(split, AsTokens(cps, gsm7), perPart);
    groups := SplitIsGrouping(split, cps, gsm7);
    SplitGroups(groups, split, cps, gsm7, perPart);
    forall other | IsGrouping(other, cps, gsm7, perPart) ensures |groups| <= |other| {
      GroupingIsSplit(other, cps, gsm7, perPart);
      GreedyIsShortest(GroupTokens(other, gsm7), AsTokens(cps, gsm7), perPart);
    }
  }

  lemma {:induction false} SplitGlues(split: seq<seq<Token>>, tokens: seq<Token>, perPart: nat)
    requires IsSplit(split, tokens, perPart)
    ensures Glue(split) == tokens
  {
  }

  lemma {:induction false} AllCharactersFit(cps: seq<CodePoint>, gsm7: bool, perPart: nat)
    requires perPart >= 2
    ensures AllFit(AsTokens(cps, gsm7), perPart)
  {
  }

  lemma {:induction false} SplitGroups(groups: seq<seq<CodePoint>>, split: seq<seq<Token>>, cps: seq<CodePoint>, gsm7: bool, perPart: nat)
    requires Flatten(groups) == cps && GroupTokens(groups, gsm7) == split && IsSplit(split, AsTokens(cps, gsm7), perPart)
    ensures IsGrouping(groups, cps, gsm7, perPart) && Spell(split) == SpellAll(groups)
  {
    hide AsTokens, Cost, Flat, Price, Glue, Flatten, Spelled;
    forall i | 0 <= i < |groups| ensures groups[i] != [] && Price(groups[i], gsm7) <= perPart && Flat(split[i]) == Spelled(groups[i]) {
      FlatIsSpelled(groups[i], gsm7);
      assert |split[i]| == |groups[i]|;
    }
  }

  lemma {:induction false} StartsWhole(cps: seq<CodePoint>)
    requires cps != []
    ensures Spelled(cps) != "" && !IsSix(Spelled(cps)[0])
  {
    hide Utf8;
    Utf8Encodes(cps[0]);
  }

  // So no part starts inside a character.
  lemma {:induction false} NoPartStartsInside(cps: seq<CodePoint>, gsm7: bool, perPart: nat, i: nat)
    requires perPart >= 2 && i < |Parts(Spelled(cps), gsm7, perPart)|
    ensures var part := Parts(Spelled(cps), gsm7, perPart)[i]; part != "" && !(0x80 <= part[0] as int < 0xC0)
  {
    hide Parts, Spelled;
    var groups := SplitsCharacters(cps, gsm7, perPart);
    StartsWhole(groups[i]);
  }

  // ----- what encode_with does with whole characters -----

  predicate IsPrintable(cp: CodePoint) {
    cp == 0x0A || cp == 0x0D || 0x20 <= cp <= 0x7E
  }

  lemma {:induction false} Gsm7Is(cps: seq<CodePoint>)
    ensures BasicGsm7(Spelled(cps)) <==> forall i :: 0 <= i < |cps| ==> IsPrintable(cps[i])
  {
    hide Utf8;
    if cps != [] {
      var first, rest := Utf8(cps[0]), Spelled(cps[1..]);
      Gsm7Is(cps[1..]);
      Gsm7One(cps[0]);
      Gsm7Both(first, rest);
      assert (forall i :: 0 <= i < |cps| ==> IsPrintable(cps[i])) <==>
             (IsPrintable(cps[0]) && forall i :: 0 <= i < |cps[1..]| ==> IsPrintable(cps[1..][i])) by {
        assert forall i :: 0 < i < |cps| ==> cps[i] == cps[1..][i - 1];
      }
    }
  }

  lemma {:induction false} Gsm7One(cp: CodePoint)
    ensures BasicGsm7(Utf8(cp)) <==> IsPrintable(cp)
  {
    hide Utf8;
    Utf8Encodes(cp);
  }

  lemma {:induction false} Gsm7Both(a: Bytes, b: Bytes)
    ensures BasicGsm7(a + b) <==> BasicGsm7(a) && BasicGsm7(b)
  {
    if BasicGsm7(a + b) {
      assert forall i :: 0 <= i < |a| ==> a[i] == (a + b)[i];
      assert forall i :: 0 <= i < |b| ==> b[i] == (a + b)[|a| + i];
    }
  }

  // A text that fits in one message stays whole, with 160 septets or 70 units; a longer one is cut into
  // the fewest parts of 152 septets or 66 units. It is sent in septets if all of it is printable ASCII.
  lemma {:induction false} CutsCharacters(cps: seq<CodePoint>) returns (groups: seq<seq<CodePoint>>)
    requires 0 < |Spelled(cps)| <= 300
    ensures var gsm7 := forall i :: 0 <= i < |cps| ==> IsPrintable(cps[i]);
            && Cut(Spelled(cps)) == SpellAll(groups)
            && if Price(cps, gsm7) <= (if gsm7 then 160 else 70) then groups == [cps]
               else && |groups| > 1 && IsGrouping(groups, cps, gsm7, if gsm7 then 152 else 66)
                    && forall other :: IsGrouping(other, cps, gsm7, if gsm7 then 152 else 66) ==> |groups| <= |other|
  {
    hide Parts, Spelled, BasicGsm7, IsPrintable, Price, SpellAll;
    NothingSpelled();
    Gsm7Is(cps);
    var gsm7 := BasicGsm7(Spelled(cps));
    var one := SplitsCharacters(cps, gsm7, if gsm7 then 160 else 70);
    groups := SplitsCharacters(cps, gsm7, if gsm7 then 152 else 66);
    OneGroup(one, cps, gsm7, if gsm7 then 160 else 70);
    OneGroup(groups, cps, gsm7, if gsm7 then 152 else 66);
    if |one| <= 1 { groups := one; }
  }

  lemma {:induction false} NothingSpelled()
    ensures Spelled([]) == []
  {
  }

  // One group is enough exactly if the whole text fits.
  lemma {:induction false} OneGroup(groups: seq<seq<CodePoint>>, cps: seq<CodePoint>, gsm7: bool, perPart: nat)
    requires cps != [] && IsGrouping(groups, cps, gsm7, perPart)
    requires forall other :: IsGrouping(other, cps, gsm7, perPart) ==> |groups| <= |other|
    ensures Price(cps, gsm7) <= perPart ==> groups == [cps]
    ensures Price(cps, gsm7) > perPart ==> |groups| > 1
  {
    hide Price;
    assert groups != [];
    assert Flatten([cps]) == cps + Flatten([]) == cps by { assert [cps][1..] == []; }
    if |groups| == 1 {
      assert groups[1..] == [];
      assert groups[0] == cps;
    }
    if Price(cps, gsm7) <= perPart { assert IsGrouping([cps], cps, gsm7, perPart); }
  }

  // A number to send to: three to twenty characters, all digits behind an optional plus sign.
  lemma {:induction false} PhoneIs(phone: Bytes)
    ensures IsValidPhone(phone) <==>
            3 <= |phone| <= 20 && (AllDigits(phone) || (phone[0] == '+' && AllDigits(phone[1..])))
  {
    if IsValidPhone(phone) {
      assert forall i :: 0 <= i < |phone[1..]| ==> phone[1..][i] == phone[i + 1];
    } else if 3 <= |phone| <= 20 && phone[0] == '+' {
      var i :| 0 <= i < |phone| && !(i == 0 && phone[i] == '+') && !IsDigit(phone[i]);
      assert phone[1..][i - 1] == phone[i];
    }
  }
}
