// JSON values as trees (RFC 8259), and what skip_value takes: exactly the values that nest at most 32
// levels deep (core/src/config.cpp:47-76, core/src/config.cpp:220-290).
module JsonTrees {
  import opened Text
  import opened JsonText
  import opened JsonStrings

  // A value as it is written: the number of bytes of each piece, and what strings, words and the digits in
  // front of a point say. lead and gaps are white space.
  datatype Node =
    | Str(size: nat, value: Bytes)
    | Word(lead: nat, word: Bytes)
    | Num(lead: nat, minus: bool, digits: Bytes, fraction: nat, exponent: nat)
    | Arr(lead: nat, gap: nat, items: Items)
    | Obj(lead: nat, gap: nat, entries: Entries)

  datatype Items = NoItems | Item(value: Node, gap: nat, rest: Items)

  datatype Entries = NoEntries | Entry(size: nat, key: Bytes, colon: nat, value: Node, gap: nat, rest: Entries)

  function Length(node: Node): nat {
    match node
    case Str(size, _) => size
    case Word(lead, word) => lead + |word|
    case Num(lead, minus, digits, fraction, exponent) => lead + (if minus then 1 else 0) + |digits| + fraction + exponent
    case Arr(lead, gap, items) => lead + 1 + if items.NoItems? then gap + 1 else ItemsLength(items)
    case Obj(lead, gap, entries) => lead + 1 + if entries.NoEntries? then gap + 1 else EntriesLength(entries)
  }

  function ItemsLength(items: Items): nat {
    match items case NoItems => 0 case Item(value, gap, rest) => Length(value) + gap + 1 + ItemsLength(rest)
  }

  function EntriesLength(entries: Entries): nat {
    match entries
    case NoEntries => 0
    case Entry(size, _, colon, value, gap, rest) => size + colon + 1 + Length(value) + gap + 1 + EntriesLength(rest)
  }

  // White space, and then this byte.
  predicate GapThen(s: Bytes, gap: nat, c: Byte) {
    gap < |s| && AllSpaces(s[..gap]) && s[gap] == c
  }

  predicate DigitsOnly(s: Bytes) {
    s != [] && forall i :: 0 <= i < |s| ==> 0x30 <= s[i] as int <= 0x39
  }

  predicate IsFractionText(s: Bytes) {
    s == "" || (s[0] == '.' && DigitsOnly(s[1..]))
  }

  predicate IsExponentText(s: Bytes) {
    s == "" || ((s[0] == 'e' || s[0] == 'E') &&
                (DigitsOnly(s[1..]) || (|s| > 1 && (s[1] == '+' || s[1] == '-') && DigitsOnly(s[2..]))))
  }

  predicate SpellsNumber(s: Bytes, minus: bool, digits: Bytes, fraction: nat, exponent: nat) {
    var i := if minus then 1 else 0;
    var f := i + |digits|;
    && f + fraction + exponent <= |s| && (minus ==> s[0] == '-')
    && s[i..f] == digits && DigitsOnly(digits)
    && IsFractionText(s[f..f + fraction]) && IsExponentText(s[f + fraction..f + fraction + exponent])
  }

  // The text begins with this value, written in this way.
  ghost predicate Spells(s: Bytes, node: Node)
    decreases node
  {
    match node
    case Str(size, value) => IsString(s, size, value)
    case Word(lead, word) =>
      lead <= |s| && AllSpaces(s[..lead]) && StartsWith(s[lead..], word) && (word == "true" || word == "false" || word == "null")
    case Num(lead, minus, digits, fraction, exponent) =>
      lead <= |s| && AllSpaces(s[..lead]) && SpellsNumber(s[lead..], minus, digits, fraction, exponent)
    case Arr(lead, gap, items) =>
      GapThen(s, lead, '[') && if items.NoItems? then GapThen(s[lead + 1..], gap, ']') else SpellsItems(s[lead + 1..], items)
    case Obj(lead, gap, entries) =>
      GapThen(s, lead, '{') && if entries.NoEntries? then GapThen(s[lead + 1..], gap, '}') else SpellsEntries(s[lead + 1..], entries)
  }

  // Items with commas between them, up to and with the closing bracket.
  ghost predicate SpellsItems(s: Bytes, items: Items)
    decreases items
  {
    match items
    case NoItems => true
    case Item(value, gap, rest) =>
      && Spells(s, value) && Length(value) <= |s|
      && var t := s[Length(value)..];
         GapThen(t, gap, if rest.NoItems? then ']' else ',') && SpellsItems(t[gap + 1..], rest)
  }

  ghost predicate SpellsEntries(s: Bytes, entries: Entries)
    decreases entries
  {
    match entries
    case NoEntries => true
    case Entry(size, key, colon, value, gap, rest) =>
      && IsString(s, size, key) && size <= |s| && GapThen(s[size..], colon, ':')
      && var u := s[size + colon + 1..];
         && Spells(u, value) && Length(value) <= |u|
         && var t := u[Length(value)..];
            GapThen(t, gap, if rest.NoEntries? then '}' else ',') && SpellsEntries(t[gap + 1..], rest)
  }

  // A number of JSON has no leading zeros; other values are made of such numbers.
  predicate Plain(node: Node)
    decreases node
  {
    match node
    case Num(_, _, digits, _, _) => |digits| == 1 || (digits != [] && digits[0] != '0')
    case Arr(_, _, items) => PlainItems(items)
    case Obj(_, _, entries) => PlainEntries(entries)
    case _ => true
  }

  predicate PlainItems(items: Items)
    decreases items
  {
    match items case NoItems => true case Item(value, _, rest) => Plain(value) && PlainItems(rest)
  }

  predicate PlainEntries(entries: Entries)
    decreases entries
  {
    match entries case NoEntries => true case Entry(_, _, _, value, _, rest) => Plain(value) && PlainEntries(rest)
  }

  // How many levels of brackets with something in them.
  function Depth(node: Node): nat
    decreases node
  {
    match node
    case Arr(_, _, items) => if items.NoItems? then 0 else 1 + ItemsDepth(items)
    case Obj(_, _, entries) => if entries.NoEntries? then 0 else 1 + EntriesDepth(entries)
    case _ => 0
  }

  function Greater(a: nat, b: nat): nat {
    if a < b then b else a
  }

  function ItemsDepth(items: Items): nat
    decreases items
  {
    match items case NoItems => 0 case Item(value, _, rest) => Greater(Depth(value), ItemsDepth(rest))
  }

  function EntriesDepth(entries: Entries): nat
    decreases entries
  {
    match entries case NoEntries => 0 case Entry(_, _, _, value, _, rest) => Greater(Depth(value), EntriesDepth(rest))
  }

  // No number goes on here.
  predicate NumberEnds(s: Bytes) {
    s == [] || !(0x30 <= s[0] as int <= 0x39 || s[0] == '.' || s[0] == 'e' || s[0] == 'E')
  }

  // ----- blanks and brackets -----

  // Blanks stops at the first byte that is none.
  lemma {:induction false} BlanksCount(s: Bytes, n: nat)
    requires n <= |s| && AllSpaces(s[..n]) && (n < |s| ==> !IsSpace(s[n]))
    ensures Blanks(s) == n
  {
    if n > 0 {
      assert s[..n][0] == s[0];
      assert s[1..][..n - 1] == s[..n][1..];
      BlanksCount(s[1..], n - 1);
    }
  }

  lemma {:induction false} BlanksGiven(s: Bytes)
    ensures AllSpaces(s[..Blanks(s)]) && (Blanks(s) < |s| ==> !IsSpace(s[Blanks(s)]))
  {
    BlanksAre(s);
    if Blanks(s) < |s| { assert [s[Blanks(s)]][0] == s[Blanks(s)]; }
  }

  lemma {:induction false} BlanksDrop(s: Bytes, b: nat)
    requires b <= Blanks(s)
    ensures Blanks(s[b..]) == Blanks(s) - b && s[b..][Blanks(s) - b..] == s[Blanks(s)..]
  {
    if b > 0 {
      BlanksDrop(s[1..], b - 1);
      assert s[1..][b - 1..] == s[b..];
    }
  }

  lemma {:induction false} GapIsBlanks(s: Bytes, gap: nat, c: Byte)
    requires !IsSpace(c)
    ensures GapThen(s, gap, c) <==> gap == Blanks(s) && Next(s[Blanks(s)..], c)
  {
    BlanksGiven(s);
    if GapThen(s, gap, c) { BlanksCount(s, gap); }
  }

  lemma {:induction false} TakeIs(s: Bytes, gap: nat, c: Byte)
    requires !IsSpace(c)
    ensures GapThen(s, gap, c) <==> Take(s, c) == Done((), gap + 1)
  {
    hide Blanks, GapThen;
    GapIsBlanks(s, gap, c);
  }

  lemma {:induction false} TurnsIs(s: Bytes, gap: nat, close: Byte)
    requires close == ']' || close == '}'
    ensures GapThen(s, gap, close) <==> Turns(s, close) == Close(gap + 1)
    ensures GapThen(s, gap, ',') <==> Turns(s, close) == More(gap + 1)
  {
    hide Blanks, GapThen;
    GapIsBlanks(s, gap, close);
    GapIsBlanks(s, gap, ',');
  }

  predicate IsBracket(open: Byte, close: Byte) {
    (open == '[' && close == ']') || (open == '{' && close == '}')
  }

  // An opening bracket: closed at once, or something else comes behind the blanks.
  lemma {:induction false} OpenIs(s: Bytes, lead: nat, open: Byte, close: Byte)
    requires IsBracket(open, close) && GapThen(s, lead, open)
    ensures var t := s[lead + 1..];
            Open(s, open, close) ==
            if Next(t[Blanks(t)..], close) then Close(lead + 1 + Blanks(t) + 1) else More(lead + 1 + Blanks(t))
  {
    hide Blanks, GapThen, Take;
    TakeIs(s, lead, open);
    var t := s[lead + 1..];
    assert s[lead + 1 + Blanks(t)..] == t[Blanks(t)..];
  }

  lemma {:induction false} OpenGiven(s: Bytes, open: Byte, close: Byte) returns (lead: nat)
    requires IsBracket(open, close) && !Open(s, open, close).Bad?
    ensures GapThen(s, lead, open)
  {
    hide Blanks, GapThen;
    lead := Take(s, open).used - 1;
    assert Take(s, open) == Done((), lead + 1);
    TakeIs(s, lead, open);
  }

  // ----- loops that start behind blanks -----

  lemma {:induction false} StringShifts(s: Bytes, b: nat)
    requires b <= Blanks(s)
    ensures String(s) == After(b, String(s[b..]))
  {
    hide Blanks, Body;
    BlanksDrop(s, b);
    assert s[Blanks(s)..] == [] || s[Blanks(s) + 1..] == s[b..][Blanks(s) - b + 1..];
  }

  lemma {:induction false} KeyShifts(s: Bytes, b: nat)
    requires b <= Blanks(s)
    ensures Key(s) == After(b, Key(s[b..]))
  {
    hide Blanks, String, Take;
    StringShifts(s, b);
    if String(s).Done? { assert s[String(s).used..] == s[b..][String(s[b..]).used..]; }
  }

  lemma {:induction false} SkipShifts(s: Bytes, b: nat, depth: nat)
    requires b <= Blanks(s)
    ensures Skip(s, depth) == After(b, Skip(s[b..], depth))
  {
    hide Blanks, String, Open, SkipMembers, SkipItems, Literal, SkipNumber;
    BlanksDrop(s, b);
  }

  lemma {:induction false} SkipItemsShift(s: Bytes, b: nat, depth: nat)
    requires b <= Blanks(s)
    ensures SkipItems(s, depth) == After(b, SkipItems(s[b..], depth))
  {
    hide Blanks, Skip, SkipItems, Turns;
    SkipItemsRound(s, depth);
    SkipItemsRound(s[b..], depth);
    SkipShifts(s, b, depth + 1);
    var value := Skip(s[b..], depth + 1);
    if value.Done? {
      assert s[b + value.used..] == s[b..][value.used..];
      var turn := Turns(s[b + value.used..], ']');
      if turn.More? { assert s[b + value.used + turn.used..] == s[b..][value.used + turn.used..]; }
    }
  }

  lemma {:induction false} SkipMembersShift(s: Bytes, b: nat, depth: nat)
    requires b <= Blanks(s)
    ensures SkipMembers(s, depth) == After(b, SkipMembers(s[b..], depth))
  {
    hide Blanks, Key, Skip, SkipMembers, Turns;
    SkipMembersRound(s, depth);
    SkipMembersRound(s[b..], depth);
    KeyShifts(s, b);
    var key := Key(s[b..]);
    if key.Done? {
      assert s[b + key.used..] == s[b..][key.used..];
      var value := Skip(s[b + key.used..], depth + 1);
      if value.Done? {
        var n := key.used + value.used;
        assert s[b + n..] == s[b..][n..];
        var turn := Turns(s[b + n..], '}');
        if turn.More? { assert s[b + n + turn.used..] == s[b..][n + turn.used..]; }
      }
    }
  }

  // ----- numbers -----

  lemma {:induction false} DigitsCount(s: Bytes, n: nat)
    requires n <= |s| && (forall i :: 0 <= i < n ==> IsDigit(s[i])) && (n < |s| ==> !IsDigit(s[n]))
    ensures Digits(s) == n
  {
    if n > 0 { DigitsCount(s[1..], n - 1); }
  }

  lemma {:induction false} DigitsStop(s: Bytes)
    ensures Digits(s) <= |s| && (Digits(s) < |s| ==> !IsDigit(s[Digits(s)]))
    ensures forall i :: 0 <= i < Digits(s) ==> IsDigit(s[i])
  {
    if s != [] && IsDigit(s[0]) {
      DigitsStop(s[1..]);
    }
  }

  // Digits from the front of a text, as many as there are.
  lemma {:induction false} DigitsAre(s: Bytes, n: nat)
    requires n <= |s|
    ensures DigitsOnly(s[..n]) && (n < |s| ==> !IsDigit(s[n])) <==> n > 0 && Digits(s) == n
  {
    DigitsStop(s);
    if DigitsOnly(s[..n]) && (n < |s| ==> !IsDigit(s[n])) {
      assert forall i :: 0 <= i < n ==> s[..n][i] == s[i];
      DigitsCount(s, n);
    }
    if n > 0 && Digits(s) == n {
      assert forall i :: 0 <= i < n ==> s[..n][i] == s[i];
    }
  }

  // A fraction, and no more digits.
  lemma {:induction false} FractionReads(s: Bytes, n: nat)
    requires n <= |s| && IsFractionText(s[..n])
    requires n < |s| ==> !IsDigit(s[n]) && (n == 0 ==> s[0] != '.')
    ensures SkipFraction(s) == Done((), n)
  {
    hide Digits, DigitsOnly;
    if n > 0 {
      assert s[..n][1..] == s[1..][..n - 1] && s[..n][0] == s[0];
      DigitsAre(s[1..], n - 1);
    }
  }

  lemma {:induction false} FractionGiven(s: Bytes)
    requires SkipFraction(s).Done?
    ensures SkipFraction(s).used <= |s| && IsFractionText(s[..SkipFraction(s).used])
  {
    hide Digits, DigitsOnly;
    var n := SkipFraction(s).used;
    if n > 0 {
      assert s[..n][1..] == s[1..][..n - 1];
      DigitsAre(s[1..], n - 1);
    }
  }

  lemma {:induction false} ExponentReads(s: Bytes, n: nat)
    requires n <= |s| && IsExponentText(s[..n])
    requires n < |s| ==> !IsDigit(s[n]) && (n == 0 ==> s[0] != 'e' && s[0] != 'E')
    ensures SkipExponent(s) == Done((), n)
  {
    hide Digits, DigitsOnly;
    if n > 0 {
      SignedExponent(s, n);
      var sign := if Next(s[1..], '+') || Next(s[1..], '-') then 2 else 1;
      assert s[sign..][..n - sign] == s[..n][sign..];
      DigitsAre(s[sign..], n - sign);
    }
  }

  // The sign tells which of the two forms an exponent has.
  lemma {:induction false} SignedExponent(s: Bytes, n: nat)
    requires 0 < n <= |s| && IsExponentText(s[..n])
    ensures (s[0] == 'e' || s[0] == 'E') && n > 1
    ensures var sign := if Next(s[1..], '+') || Next(s[1..], '-') then 2 else 1;
            sign < n && DigitsOnly(s[..n][sign..])
  {
    assert s[..n][0] == s[0];
    assert n > 1 ==> s[..n][1] == s[1] && (DigitsOnly(s[..n][1..]) ==> s[..n][1..][0] == s[1]);
  }

  lemma {:induction false} ExponentGiven(s: Bytes)
    requires SkipExponent(s).Done?
    ensures SkipExponent(s).used <= |s| && IsExponentText(s[..SkipExponent(s).used])
  {
    hide Digits, DigitsOnly;
    var n := SkipExponent(s).used;
    if n > 0 {
      var sign := if Next(s[1..], '+') || Next(s[1..], '-') then 2 else 1;
      assert s[..n][sign..] == s[sign..][..n - sign];
      DigitsAre(s[sign..], n - sign);
    }
  }

  lemma {:induction false} NumberReads(s: Bytes, minus: bool, digits: Bytes, fraction: nat, exponent: nat)
    requires SpellsNumber(s, minus, digits, fraction, exponent) && (|digits| == 1 || digits[0] != '0')
    requires NumberEnds(s[(if minus then 1 else 0) + |digits| + fraction + exponent..])
    ensures SkipNumber(s) == Done((), (if minus then 1 else 0) + |digits| + fraction + exponent)
  {
    hide DigitsOnly, IsFractionText, IsExponentText, SkipFraction, SkipExponent, Start, Whole, NumberEnds;
    var i := if minus then 1 else 0;
    var f, x := i + |digits|, i + |digits| + fraction;
    NumberStarts(s, minus, |digits|);
    BehindFraction(s, x, x + exponent);
    BehindWhole(s, f, x);
    assert s[i..f][0] == s[i];
    WholeFollows(s, i, f);
    FractionFollows(s, f, x);
    ExponentFollows(s, x, x + exponent);
  }

  lemma {:induction false} WholeFollows(s: Bytes, i: nat, f: nat)
    requires i < f <= |s| && DigitsOnly(s[i..f]) && (f < |s| ==> !IsDigit(s[f])) && (f - i == 1 || s[i] != '0')
    ensures Whole(s[i..]) == f - i
  {
    assert s[i..][..f - i] == s[i..f];
    WholeReads(s[i..], f - i);
  }

  lemma {:induction false} FractionFollows(s: Bytes, f: nat, x: nat)
    requires f <= x <= |s| && IsFractionText(s[f..x])
    requires x < |s| ==> !IsDigit(s[x]) && s[x] != '.'
    ensures SkipFraction(s[f..]) == Done((), x - f)
  {
    assert s[f..][..x - f] == s[f..x];
    FractionReads(s[f..], x - f);
  }

  lemma {:induction false} ExponentFollows(s: Bytes, x: nat, n: nat)
    requires x <= n <= |s| && IsExponentText(s[x..n])
    requires n < |s| ==> !IsDigit(s[n]) && (x == n ==> s[x] != 'e' && s[x] != 'E')
    ensures SkipExponent(s[x..]) == Done((), n - x)
  {
    assert s[x..][..n - x] == s[x..n];
    ExponentReads(s[x..], n - x);
  }

  lemma {:induction false} NumberStarts(s: Bytes, minus: bool, whole: nat)
    requires var i := if minus then 1 else 0; i + whole <= |s| && DigitsOnly(s[i..i + whole]) && (minus ==> s[0] == '-')
    ensures whole > 0 && Start(s) == if minus then 1 else 0
  {
    var i := if minus then 1 else 0;
    assert s[i..i + whole][0] == s[i];
    assert !IsSpace(s[0]);
    assert Blanks(s) == 0;
  }

  lemma {:induction false} WholeReads(s: Bytes, n: nat)
    requires 0 < n <= |s| && DigitsOnly(s[..n]) && (n < |s| ==> !IsDigit(s[n])) && (n == 1 || s[0] != '0')
    ensures Whole(s) == n
  {
    hide DigitsOnly;
    DigitsAre(s, n);
    if s[0] == '0' { assert n == 1; }
  }

  lemma {:induction false} BehindFraction(s: Bytes, x: nat, n: nat)
    requires x <= n <= |s| && IsExponentText(s[x..n]) && NumberEnds(s[n..])
    ensures x < |s| ==> !IsDigit(s[x]) && s[x] != '.' && (x == n ==> s[x] != 'e' && s[x] != 'E')
    ensures n < |s| ==> !IsDigit(s[n])
  {
    if x < n { assert s[x..n][0] == s[x]; }
  }

  lemma {:induction false} BehindWhole(s: Bytes, f: nat, x: nat)
    requires f <= x <= |s| && IsFractionText(s[f..x]) && (x < |s| ==> !IsDigit(s[x]))
    ensures f < |s| ==> !IsDigit(s[f])
  {
    if f < x { assert s[f..x][0] == s[f]; }
  }

  lemma {:induction false} NumberGiven(s: Bytes) returns (lead: nat, minus: bool, digits: Bytes, fraction: nat, exponent: nat)
    requires SkipNumber(s).Done?
    ensures lead <= |s| && AllSpaces(s[..lead]) && SpellsNumber(s[lead..], minus, digits, fraction, exponent)
    ensures |digits| == 1 || (digits != [] && digits[0] != '0')
    ensures SkipNumber(s).used == lead + (if minus then 1 else 0) + |digits| + fraction + exponent
  {
    hide DigitsOnly, IsFractionText, IsExponentText, SkipFraction, SkipExponent, Digits, Blanks, AllSpaces;
    lead := Blanks(s);
    BlanksGiven(s);
    var start := Start(s);
    minus := start > lead;
    var whole := Whole(s[start..]);
    digits := s[start..][..whole];
    var f := start + whole;
    fraction := SkipFraction(s[f..]).used;
    exponent := SkipExponent(s[f + fraction..]).used;
    WholeGiven(s[start..]);
    FractionGiven(s[f..]);
    ExponentGiven(s[f + fraction..]);
    var t, i := s[lead..], if minus then 1 else 0;
    Middle(s, lead, i, whole);
    Middle(s, lead, i + whole, fraction);
    Middle(s, lead, i + whole + fraction, exponent);
  }

  lemma {:induction false} Middle(s: Bytes, a: nat, x: nat, n: nat)
    requires a + x + n <= |s|
    ensures s[a..][x..x + n] == s[a + x..][..n]
  {
  }

  lemma {:induction false} WholeGiven(s: Bytes)
    requires Whole(s) > 0
    ensures Whole(s) <= |s| && DigitsOnly(s[..Whole(s)]) && (Whole(s) == 1 || s[0] != '0')
  {
    hide Digits;
    if Next(s, '0') {
      assert s[..1][0] == s[0];
    } else {
      DigitsAre(s, Digits(s));
    }
  }

  // ----- skip_value -----

  // The text begins with this value, it is plain JSON, and it does not nest too deep.
  ghost predicate Takes(s: Bytes, node: Node, depth: nat) {
    Spells(s, node) && Length(node) <= |s| && Plain(node) && depth + Depth(node) <= 32
  }

  ghost predicate TakesItems(s: Bytes, items: Items, depth: nat) {
    items.Item? && SpellsItems(s, items) && ItemsLength(items) <= |s| && PlainItems(items) && depth + 1 + ItemsDepth(items) <= 32
  }

  ghost predicate TakesEntries(s: Bytes, entries: Entries, depth: nat) {
    entries.Entry? && SpellsEntries(s, entries) && EntriesLength(entries) <= |s| && PlainEntries(entries) && depth + 1 + EntriesDepth(entries) <= 32
  }

  lemma {:induction false} TakesItemsIs(s: Bytes, value: Node, gap: nat, rest: Items, depth: nat)
    ensures TakesItems(s, Item(value, gap, rest), depth) <==>
            && Takes(s, value, depth + 1)
            && var t := s[Length(value)..];
               GapThen(t, gap, if rest.NoItems? then ']' else ',') && (rest.NoItems? || TakesItems(t[gap + 1..], rest, depth))
  {
    hide Spells, SpellsItems, Plain, Depth, GapThen, IsString;
    var items := Item(value, gap, rest);
    if Length(value) <= |s| {
      var t := s[Length(value)..];
      if gap < |t| {
        ItemIs(items);
        ItemSpells(s, value, gap, rest);
        NoMoreItems(t[gap + 1..], rest);
      } else {
        NoGap(t, gap);
      }
    }
  }

  lemma {:induction false} ItemIs(items: Items)
    requires items.Item?
    ensures ItemsLength(items) == Length(items.value) + items.gap + 1 + ItemsLength(items.rest)
    ensures ItemsDepth(items) == Greater(Depth(items.value), ItemsDepth(items.rest))
    ensures PlainItems(items) <==> Plain(items.value) && PlainItems(items.rest)
  {
  }

  lemma {:induction false} ItemSpells(s: Bytes, value: Node, gap: nat, rest: Items)
    requires Length(value) <= |s| && gap < |s[Length(value)..]|
    ensures SpellsItems(s, Item(value, gap, rest)) <==>
            var t := s[Length(value)..];
            Spells(s, value) && GapThen(t, gap, if rest.NoItems? then ']' else ',') && SpellsItems(t[gap + 1..], rest)
  {
    hide Spells, AllSpaces;
  }

  lemma {:induction false} NoMoreItems(s: Bytes, rest: Items)
    ensures rest.NoItems? ==> SpellsItems(s, rest) && ItemsDepth(rest) == 0 && ItemsLength(rest) == 0 && PlainItems(rest)
  {
  }

  lemma {:induction false} TakesEntriesIs(s: Bytes, size: nat, key: Bytes, colon: nat, value: Node, gap: nat, rest: Entries, depth: nat)
    ensures TakesEntries(s, Entry(size, key, colon, value, gap, rest), depth) <==>
            && IsString(s, size, key) && size <= |s| && GapThen(s[size..], colon, ':')
            && TakesMember(s[size + colon + 1..], value, gap, rest, depth)
  {
    hide GapThen, TakesMember, AllSpaces, IsString;
    if size <= |s| && GapThen(s[size..], colon, ':') {
      GapFits(s[size..], colon, ':');
      EntryIs(s, size, key, colon, value, gap, rest, depth);
    }
  }

  // Behind the colon: a value, a gap, and the rest of the object.
  ghost predicate TakesMember(u: Bytes, value: Node, gap: nat, rest: Entries, depth: nat) {
    && Takes(u, value, depth + 1)
    && var t := u[Length(value)..];
       GapThen(t, gap, if rest.NoEntries? then '}' else ',') && (rest.NoEntries? || TakesEntries(t[gap + 1..], rest, depth))
  }

  lemma {:induction false} GapFits(s: Bytes, gap: nat, c: Byte)
    requires GapThen(s, gap, c)
    ensures gap < |s|
  {
  }

  lemma {:induction false} EntryIs(s: Bytes, size: nat, key: Bytes, colon: nat, value: Node, gap: nat, rest: Entries, depth: nat)
    requires size <= |s| && colon < |s[size..]| && GapThen(s[size..], colon, ':')
    ensures TakesEntries(s, Entry(size, key, colon, value, gap, rest), depth) <==>
            IsString(s, size, key) && TakesMember(s[size + colon + 1..], value, gap, rest, depth)
  {
    hide Spells, SpellsEntries, Plain, Depth, GapThen, IsString;
    var entries, u := Entry(size, key, colon, value, gap, rest), s[size + colon + 1..];
    if Length(value) <= |u| && gap < |u[Length(value)..]| {
      var t := u[Length(value)..];
      assert t[gap + 1..] == u[Length(value) + gap + 1..];
      EntryShape(s, entries);
      EntrySpells(s, size, key, colon, value, gap, rest);
      NoMoreEntries(t[gap + 1..], rest);
    } else if Length(value) <= |u| {
      NoGap(u[Length(value)..], gap);
    }
  }

  lemma {:induction false} NoGap(s: Bytes, gap: nat)
    requires gap >= |s|
    ensures !GapThen(s, gap, ',') && !GapThen(s, gap, '}') && !GapThen(s, gap, ']')
  {
  }

  lemma {:induction false} NoMoreEntries(s: Bytes, rest: Entries)
    ensures rest.NoEntries? ==> SpellsEntries(s, rest) && EntriesDepth(rest) == 0 && EntriesLength(rest) == 0 && PlainEntries(rest)
  {
  }

  lemma {:induction false} EntryShape(s: Bytes, entries: Entries)
    requires entries.Entry?
    ensures EntriesLength(entries) == entries.size + entries.colon + 1 + Length(entries.value) + entries.gap + 1 + EntriesLength(entries.rest)
    ensures EntriesDepth(entries) == Greater(Depth(entries.value), EntriesDepth(entries.rest))
    ensures PlainEntries(entries) <==> Plain(entries.value) && PlainEntries(entries.rest)
  {
  }

  lemma {:induction false} EntrySpells(s: Bytes, size: nat, key: Bytes, colon: nat, value: Node, gap: nat, rest: Entries)
    requires size <= |s| && colon < |s[size..]| && GapThen(s[size..], colon, ':')
    requires Length(value) <= |s[size + colon + 1..]|
    ensures SpellsEntries(s, Entry(size, key, colon, value, gap, rest)) <==>
            var u := s[size + colon + 1..];
            var t := u[Length(value)..];
            && IsString(s, size, key) && Spells(u, value)
            && GapThen(t, gap, if rest.NoEntries? then '}' else ',') && SpellsEntries(t[gap + 1..], rest)
  {
    hide Spells, AllSpaces, IsString;
  }

  lemma {:induction false} StringBounds(s: Bytes, size: nat, value: Bytes)
    requires IsString(s, size, value)
    ensures 0 < size <= |s|
  {
  }

  // A gap ends a number in front of it.
  lemma {:induction false} GapEnds(s: Bytes, gap: nat, c: Byte)
    requires GapThen(s, gap, c) && (c == ',' || c == ']' || c == '}')
    ensures NumberEnds(s)
  {
    if gap > 0 { assert s[..gap][0] == s[0]; }
  }

  // The kinds of value, by their first byte.

  lemma {:induction false} SkipsString(s: Bytes, depth: nat)
    requires String(s).Done? && depth <= 32
    ensures Skip(s, depth) == Done((), String(s).used)
  {
    hide Blanks, Body, SkipMembers, SkipItems, SkipNumber, Open, Literal;
    StringShifts(s, Blanks(s));
  }

  lemma {:induction false} SkipsWord(t: Bytes, word: Bytes, depth: nat)
    requires StartsWith(t, word) && (word == "true" || word == "false" || word == "null") && depth <= 32
    ensures Skip(t, depth) == Done((), |word|)
  {
    hide String, SkipMembers, SkipItems, SkipNumber, Open;
    assert t[..|word|][0] == t[0];
    assert Blanks(t) == 0 && t[0..] == t;
  }

  lemma {:induction false} SkipsNumber(t: Bytes, depth: nat)
    requires t != [] && (t[0] == '-' || IsDigit(t[0])) && depth <= 32
    ensures Skip(t, depth) == SkipNumber(t)
  {
    hide String, SkipMembers, SkipItems, SkipNumber, Open, Literal;
    assert Blanks(t) == 0 && t[0..] == t;
  }

  lemma {:induction false} SkipsArray(t: Bytes, depth: nat)
    requires GapThen(t, 0, '[') && depth <= 32
    ensures Skip(t, depth) == if Next(t[1..][Blanks(t[1..])..], ']') then Done((), Blanks(t[1..]) + 2)
                              else After(1, SkipItems(t[1..], depth))
  {
    hide String, SkipMembers, SkipItems, SkipNumber, Open, Literal, GapThen;
    StartsNow(t, '[');
    OpenIs(t, 0, '[', ']');
    SkipItemsShift(t[1..], Blanks(t[1..]), depth);
    assert t[1 + Blanks(t[1..])..] == t[1..][Blanks(t[1..])..];
  }

  lemma {:induction false} SkipsObject(t: Bytes, depth: nat)
    requires GapThen(t, 0, '{') && depth <= 32
    ensures Skip(t, depth) == if Next(t[1..][Blanks(t[1..])..], '}') then Done((), Blanks(t[1..]) + 2)
                              else After(1, SkipMembers(t[1..], depth))
  {
    hide String, SkipMembers, SkipItems, SkipNumber, Open, Literal, GapThen;
    StartsNow(t, '{');
    OpenIs(t, 0, '{', '}');
    SkipMembersShift(t[1..], Blanks(t[1..]), depth);
    assert t[1 + Blanks(t[1..])..] == t[1..][Blanks(t[1..])..];
  }

  lemma {:induction false} StartsNow(t: Bytes, c: Byte)
    requires GapThen(t, 0, c) && !IsSpace(c)
    ensures t != [] && t[0] == c && Blanks(t) == 0 && t[0..] == t
  {
  }

  // A closing bracket starts no value and no key.
  lemma {:induction false} CloseStartsNone(s: Bytes, depth: nat)
    ensures Next(s[Blanks(s)..], ']') ==> SkipItems(s, depth).Fail?
    ensures Next(s[Blanks(s)..], '}') ==> SkipMembers(s, depth).Fail?
  {
    hide Skip, Blanks, SkipItems, SkipMembers, Turns;
    SkipItemsRound(s, depth);
    SkipMembersRound(s, depth);
    if Next(s[Blanks(s)..], ']') { CloseIsNoValue(s, depth + 1); }
  }

  lemma {:induction false} CloseIsNoValue(s: Bytes, depth: nat)
    requires Next(s[Blanks(s)..], ']')
    ensures Skip(s, depth).Fail?
  {
    hide String, SkipMembers, SkipItems, Open, Literal, SkipNumber, Blanks;
    BlanksDrop(s, Blanks(s));
    CloseIsNoNumber(s[Blanks(s)..]);
  }

  lemma {:induction false} CloseIsNoNumber(t: Bytes)
    requires Next(t, ']')
    ensures SkipNumber(t).Fail?
  {
    assert Blanks(t) == 0 && t[0..] == t;
  }

  // ----- every such value is taken -----

  lemma {:induction false} SkipReads(s: Bytes, node: Node, depth: nat)
    requires Takes(s, node, depth) && NumberEnds(s[Length(node)..])
    ensures Skip(s, depth) == Done((), Length(node))
    decreases node
  {
    hide Skip, NumberEnds, Takes, TakesItems, TakesEntries, SkipItems, SkipMembers, Blanks, IsString;
    TakesFits(s, node, depth);
    match node {
      case Str(size, value) =>
        TakesString(s, node, depth);
        StringIsExact(s, size, value);
        SkipsString(s, depth);
      case Word(lead, word) => WordIsTaken(s, lead, word, depth);
      case Num(_, _, _, _, _) => NumberIsTaken(s, node, depth);
      case Arr(lead, gap, items) =>
        ArrayIsTaken(s, lead, gap, items, depth);
        if items.Item? {
          SkipItemsRead(s[lead + 1..], items, depth);
          CloseStartsNone(s[lead + 1..], depth);
        }
      case Obj(lead, gap, entries) =>
        ObjectIsTaken(s, lead, gap, entries, depth);
        if entries.Entry? {
          SkipMembersRead(s[lead + 1..], entries, depth);
          CloseStartsNone(s[lead + 1..], depth);
        }
    }
  }

  lemma {:induction false} TakesFits(s: Bytes, node: Node, depth: nat)
    requires Takes(s, node, depth)
    ensures Length(node) <= |s| && depth <= 32
  {
  }

  lemma {:induction false} TakesString(s: Bytes, node: Node, depth: nat)
    requires Takes(s, node, depth) && node.Str?
    ensures IsString(s, node.size, node.value)
  {
    hide IsString;
  }

  lemma {:induction false} WordIsTaken(s: Bytes, lead: nat, word: Bytes, depth: nat)
    requires Takes(s, Word(lead, word), depth)
    ensures Skip(s, depth) == Done((), lead + |word|)
  {
    hide Skip, AllSpaces;
    assert s[lead..][..|word|][0] == s[lead];
    assert s[..lead] + s[lead..] == s;
    BlanksCount(s, lead);
    SkipShifts(s, lead, depth);
    SkipsWord(s[lead..], word, depth);
  }

  lemma {:induction false} NumberIsTaken(s: Bytes, node: Node, depth: nat)
    requires Takes(s, node, depth) && node.Num? && NumberEnds(s[Length(node)..])
    ensures Skip(s, depth) == Done((), Length(node))
  {
    hide Skip, AllSpaces, NumberEnds, SpellsNumber, Takes, SkipNumber;
    TakesNumber(s, node, depth);
    var t := s[node.lead..];
    NumberFirst(t, node.minus, node.digits, node.fraction, node.exponent);
    BlanksCount(s, node.lead);
    SkipShifts(s, node.lead, depth);
    SkipsNumber(t, depth);
    assert t[(if node.minus then 1 else 0) + |node.digits| + node.fraction + node.exponent..] == s[Length(node)..];
    NumberReads(t, node.minus, node.digits, node.fraction, node.exponent);
  }

  lemma {:induction false} TakesNumber(s: Bytes, node: Node, depth: nat)
    requires Takes(s, node, depth) && node.Num?
    ensures Length(node) <= |s| && depth <= 32 && node.lead <= |s| && AllSpaces(s[..node.lead])
    ensures SpellsNumber(s[node.lead..], node.minus, node.digits, node.fraction, node.exponent) && Plain(node)
  {
    hide SpellsNumber, AllSpaces;
  }

  lemma {:induction false} NumberFirst(t: Bytes, minus: bool, digits: Bytes, fraction: nat, exponent: nat)
    requires SpellsNumber(t, minus, digits, fraction, exponent)
    ensures t != [] && (t[0] == '-' || IsDigit(t[0])) && !IsSpace(t[0]) && digits != []
  {
    hide IsFractionText, IsExponentText;
    if !minus { assert t[0..|digits|][0] == t[0]; }
  }

  lemma {:induction false} ArrayIsTaken(s: Bytes, lead: nat, gap: nat, items: Items, depth: nat)
    requires Takes(s, Arr(lead, gap, items), depth)
    ensures lead < |s|
    ensures items.Item? ==> TakesItems(s[lead + 1..], items, depth)
    ensures var t := s[lead + 1..];
            Skip(s, depth) == After(lead, if Next(t[Blanks(t)..], ']') then Done((), Blanks(t) + 2) else After(1, SkipItems(t, depth)))
    ensures items.NoItems? ==> Next(s[lead + 1..][Blanks(s[lead + 1..])..], ']') && gap == Blanks(s[lead + 1..])
  {
    hide Skip, SkipItems, SpellsItems, PlainItems, ItemsDepth;
    GapIsBlanks(s, lead, '[');
    SkipShifts(s, lead, depth);
    var u := s[lead..];
    assert u[1..] == s[lead + 1..];
    SkipsArray(u, depth);
    GapIsBlanks(s[lead + 1..], gap, ']');
  }

  lemma {:induction false} ObjectIsTaken(s: Bytes, lead: nat, gap: nat, entries: Entries, depth: nat)
    requires Takes(s, Obj(lead, gap, entries), depth)
    ensures lead < |s|
    ensures entries.Entry? ==> TakesEntries(s[lead + 1..], entries, depth)
    ensures var t := s[lead + 1..];
            Skip(s, depth) == After(lead, if Next(t[Blanks(t)..], '}') then Done((), Blanks(t) + 2) else After(1, SkipMembers(t, depth)))
    ensures entries.NoEntries? ==> Next(s[lead + 1..][Blanks(s[lead + 1..])..], '}') && gap == Blanks(s[lead + 1..])
  {
    hide Skip, SkipMembers, SpellsEntries, PlainEntries, EntriesDepth;
    GapIsBlanks(s, lead, '{');
    SkipShifts(s, lead, depth);
    var u := s[lead..];
    assert u[1..] == s[lead + 1..];
    SkipsObject(u, depth);
    GapIsBlanks(s[lead + 1..], gap, '}');
  }

  lemma {:induction false} SkipItemsRead(s: Bytes, items: Items, depth: nat)
    requires items.Item? && TakesItems(s, items, depth)
    ensures SkipItems(s, depth) == Done((), ItemsLength(items))
    decreases items
  {
    hide Skip, SkipItems, Turns, TakesItems, Takes, GapThen;
    var Item(value, gap, rest) := items;
    TakesItemsIs(s, value, gap, rest, depth);
    TakesFits(s, value, depth + 1);
    var t := s[Length(value)..];
    GapEnds(t, gap, if rest.NoItems? then ']' else ',');
    SkipReads(s, value, depth + 1);
    SkipItemsRound(s, depth);
    TurnsIs(t, gap, ']');
    if rest.Item? {
      SkipItemsRead(t[gap + 1..], rest, depth);
      assert s[Length(value) + (gap + 1)..] == t[gap + 1..];
    }
  }

  lemma {:induction false} SkipMembersRead(s: Bytes, entries: Entries, depth: nat)
    requires entries.Entry? && TakesEntries(s, entries, depth)
    ensures SkipMembers(s, depth) == Done((), EntriesLength(entries))
    decreases entries
  {
    hide Skip, SkipMembers, Turns, TakesEntries, Takes, GapThen, IsString, Key, Blanks;
    var Entry(size, key, colon, value, gap, rest) := entries;
    TakesEntriesIs(s, size, key, colon, value, gap, rest, depth);
    KeyIs(s, size, key, colon);
    var u := s[size + colon + 1..];
    assert TakesMember(u, value, gap, rest, depth);
    TakesFits(u, value, depth + 1);
    var t := u[Length(value)..];
    GapEnds(t, gap, if rest.NoEntries? then '}' else ',');
    SkipReads(u, value, depth + 1);
    SkipMembersStep(s, depth, size + colon + 1, Length(value));
    TurnsIs(t, gap, '}');
    if rest.Entry? { SkipMembersRead(t[gap + 1..], rest, depth); }
  }

  // A round of the loop over members, by suffixes of the text.
  lemma {:induction false} SkipMembersStep(s: Bytes, depth: nat, k: nat, m: nat)
    requires Key(s).Done? && Key(s).used == k <= |s| && Skip(s[k..], depth + 1) == Done((), m) && m <= |s[k..]|
    ensures var t := s[k..][m..];
            SkipMembers(s, depth) ==
            match Turns(t, '}')
            case Bad => Fail
            case Close(used) => Done((), k + m + used)
            case More(used) => After(k + m + used, SkipMembers(t[used..], depth))
  {
    hide Key, Skip, SkipMembers, Turns;
    SkipMembersRound(s, depth);
    var t := s[k..][m..];
    assert s[k + m..] == t;
    var turn := Turns(t, '}');
    if turn.More? { assert s[k + m + turn.used..] == t[turn.used..]; }
  }

  // A key and its colon.
  lemma {:induction false} KeyIs(s: Bytes, size: nat, key: Bytes, colon: nat)
    requires IsString(s, size, key) && size <= |s| && GapThen(s[size..], colon, ':')
    ensures Key(s) == Done(key, size + colon + 1) && size + colon + 1 <= |s|
  {
    hide String, Take, IsString;
    StringIsExact(s, size, key);
    TakeIs(s[size..], colon, ':');
  }

  // ----- nothing else is taken -----

  // What skip_value takes is a value, and no number goes on behind it.
  lemma {:induction false} SkipGiven(s: Bytes, depth: nat) returns (node: Node)
    requires Skip(s, depth).Done?
    ensures Takes(s, node, depth) && Length(node) == Skip(s, depth).used
    decreases |s|, 1
  {
    hide Skip, Takes;
    var b := Blanks(s);
    SkipStarts(s, depth);
    SkipShifts(s, b, depth);
    BlanksGiven(s);
    var t := s[b..];
    var inner := FirstGiven(t, depth);
    node := Indented(inner, b);
    IndentTakes(s, b, inner, depth);
  }

  lemma {:induction false} SkipStarts(s: Bytes, depth: nat)
    requires Skip(s, depth).Done?
    ensures depth <= 32 && s[Blanks(s)..] != []
  {
    hide String, SkipMembers, SkipItems, SkipNumber, Open, Literal, Blanks;
  }

  // The same value behind so many blanks more.
  function Indented(node: Node, b: nat): Node {
    match node
    case Str(size, value) => Str(b + size, value)
    case Word(lead, word) => Word(b + lead, word)
    case Num(lead, minus, digits, fraction, exponent) => Num(b + lead, minus, digits, fraction, exponent)
    case Arr(lead, gap, items) => Arr(b + lead, gap, items)
    case Obj(lead, gap, entries) => Obj(b + lead, gap, entries)
  }

  lemma {:induction false} MoreSpaces(s: Bytes, b: nat, lead: nat)
    requires b <= |s| && AllSpaces(s[..b]) && lead <= |s[b..]| && AllSpaces(s[b..][..lead])
    ensures b + lead <= |s| && AllSpaces(s[..b + lead]) && s[b + lead..] == s[b..][lead..]
  {
    forall i | 0 <= i < b + lead ensures AllSpaces([s[i]]) {
      if i < b { assert s[..b][i] == s[i]; } else { assert s[b..][..lead][i - b] == s[i]; }
      assert [s[i]][0] == s[i];
    }
    assert forall i :: 0 <= i < b + lead ==> [s[i]][0] == s[i];
  }

  lemma {:induction false} StringIndents(s: Bytes, b: nat, size: nat, value: Bytes)
    requires b <= |s| && AllSpaces(s[..b]) && IsString(s[b..], size, value)
    ensures IsString(s, b + size, value)
  {
    hide IsString, String;
    StringIsExact(s[b..], size, value);
    StringIsExact(s, b + size, value);
    SpacesAreBlanks(s, b);
    StringShifts(s, b);
  }

  lemma {:induction false} SpacesAreBlanks(s: Bytes, b: nat)
    requires b <= |s| && AllSpaces(s[..b])
    ensures b <= Blanks(s)
  {
    if b > 0 {
      assert s[..b][0] == s[0] && s[1..][..b - 1] == s[..b][1..];
      SpacesAreBlanks(s[1..], b - 1);
    }
  }

  lemma {:induction false} IndentTakes(s: Bytes, b: nat, node: Node, depth: nat)
    requires b <= |s| && AllSpaces(s[..b]) && Takes(s[b..], node, depth)
    ensures Takes(s, Indented(node, b), depth) && Length(Indented(node, b)) == b + Length(node)
  {
    hide AllSpaces, IsString, SpellsItems, SpellsEntries, PlainItems, PlainEntries, ItemsDepth, EntriesDepth, SpellsNumber;
    var t := s[b..];
    match node
    case Str(size, value) => StringIndents(s, b, size, value);
    case Word(lead, word) => MoreSpaces(s, b, lead);
    case Num(_, _, _, _, _) => NumberIndents(s, b, node, depth);
    case Arr(lead, gap, items) =>
      MoreSpaces(s, b, lead);
      assert s[b + lead + 1..] == t[lead + 1..];
    case Obj(lead, gap, entries) => ObjectIndents(s, b, node, depth);
  }

  lemma {:induction false} ObjectIndents(s: Bytes, b: nat, node: Node, depth: nat)
    requires b <= |s| && AllSpaces(s[..b]) && Takes(s[b..], node, depth) && node.Obj?
    ensures Takes(s, Indented(node, b), depth)
  {
    hide AllSpaces, SpellsEntries, PlainEntries, EntriesDepth;
    MoreSpaces(s, b, node.lead);
    assert s[b + node.lead + 1..] == s[b..][node.lead + 1..];
  }

  lemma {:induction false} NumberIndents(s: Bytes, b: nat, node: Node, depth: nat)
    requires b <= |s| && AllSpaces(s[..b]) && Takes(s[b..], node, depth) && node.Num?
    ensures Takes(s, Indented(node, b), depth)
  {
    hide AllSpaces, SpellsNumber, Takes;
    TakesNumber(s[b..], node, depth);
    MoreSpaces(s, b, node.lead);
    NumTakes(s, Indented(node, b), depth);
  }

  // Without blanks in front.
  lemma {:induction false} FirstGiven(t: Bytes, depth: nat) returns (node: Node)
    requires Skip(t, depth).Done? && depth <= 32 && t != [] && !IsSpace(t[0])
    ensures Takes(t, node, depth) && Length(node) == Skip(t, depth).used
    decreases |t|, 0
  {
    hide Skip, Takes;
    if t[0] == '\"' {
      SkipTakesString(t, depth);
      StringIsExact(t, String(t).used, String(t).value);
      node := Str(String(t).used, String(t).value);
      StringTakes(t, node, depth);
    } else if t[0] == '[' {
      node := ArrayGiven(t, depth);
    } else if t[0] == '{' {
      node := ObjectGiven(t, depth);
    } else if t[0] == 't' || t[0] == 'f' || t[0] == 'n' {
      node := WordGiven(t, depth);
    } else {
      node := NumGiven(t, depth);
    }
  }

  lemma {:induction false} StringTakes(t: Bytes, node: Node, depth: nat)
    requires node.Str? && IsString(t, node.size, node.value) && depth <= 32
    ensures Takes(t, node, depth)
  {
    StringBounds(t, node.size, node.value);
    hide IsString;
  }

  lemma {:induction false} SkipTakesString(t: Bytes, depth: nat)
    requires Skip(t, depth).Done? && depth <= 32 && t != [] && t[0] == '\"'
    ensures String(t).Done? && Skip(t, depth).used == String(t).used
  {
    hide String, SkipMembers, SkipItems, SkipNumber, Open, Literal;
    assert Blanks(t) == 0 && t[0..] == t;
  }

  lemma {:induction false} WordGiven(t: Bytes, depth: nat) returns (node: Node)
    requires Skip(t, depth).Done? && depth <= 32 && t != [] && (t[0] == 't' || t[0] == 'f' || t[0] == 'n')
    ensures Takes(t, node, depth) && Length(node) == Skip(t, depth).used
  {
    hide String, SkipMembers, SkipItems, SkipNumber, Open;
    assert Blanks(t) == 0 && t[0..] == t;
    node := Word(0, if t[0] == 't' then "true" else if t[0] == 'f' then "false" else "null");
  }

  lemma {:induction false} NumGiven(t: Bytes, depth: nat) returns (node: Node)
    requires Skip(t, depth).Done? && depth <= 32 && t != [] && !IsSpace(t[0])
    requires t[0] !in "\"[{tfn"
    ensures Takes(t, node, depth) && Length(node) == Skip(t, depth).used
  {
    SkipIsNumber(t, depth);
    var lead, minus, digits, fraction, exponent := NumberGiven(t);
    node := Num(lead, minus, digits, fraction, exponent);
    NumTakes(t, node, depth);
  }

  lemma {:induction false} SkipIsNumber(t: Bytes, depth: nat)
    requires depth <= 32 && t != [] && !IsSpace(t[0]) && t[0] !in "\"[{tfn"
    ensures Skip(t, depth) == SkipNumber(t)
  {
    hide String, SkipMembers, SkipItems, SkipNumber, Open, Literal;
    assert Blanks(t) == 0 && t[0..] == t;
  }

  lemma {:induction false} NumTakes(t: Bytes, node: Node, depth: nat)
    requires node.Num? && depth <= 32 && node.lead <= |t| && AllSpaces(t[..node.lead])
    requires SpellsNumber(t[node.lead..], node.minus, node.digits, node.fraction, node.exponent)
    requires Plain(node)
    ensures Takes(t, node, depth)
  {
    hide IsFractionText, IsExponentText, AllSpaces;
  }

  lemma {:induction false} ArrayGiven(t: Bytes, depth: nat) returns (node: Node)
    requires Skip(t, depth).Done? && depth <= 32 && t != [] && t[0] == '['
    ensures Takes(t, node, depth) && Length(node) == Skip(t, depth).used
    decreases |t|, -1
  {
    hide Skip, SkipItems, TakesItems, Takes;
    assert GapThen(t, 0, '[');
    SkipsArray(t, depth);
    var u := t[1..];
    if Next(u[Blanks(u)..], ']') {
      node := Arr(0, Blanks(u), NoItems);
      EmptyArray(t, depth);
    } else {
      var items := ItemsGiven(u, depth);
      node := Arr(0, 0, items);
      FullArray(t, items, depth);
    }
  }

  lemma {:induction false} EmptyArray(t: Bytes, depth: nat)
    requires GapThen(t, 0, '[') && Next(t[1..][Blanks(t[1..])..], ']') && depth <= 32
    ensures Takes(t, Arr(0, Blanks(t[1..]), NoItems), depth) && Length(Arr(0, Blanks(t[1..]), NoItems)) == Blanks(t[1..]) + 2
  {
    hide Blanks;
    assert PlainItems(NoItems);
    GapIsBlanks(t[1..], Blanks(t[1..]), ']');
  }

  lemma {:induction false} FullArray(t: Bytes, items: Items, depth: nat)
    requires GapThen(t, 0, '[') && TakesItems(t[1..], items, depth)
    ensures Takes(t, Arr(0, 0, items), depth) && Length(Arr(0, 0, items)) == 1 + ItemsLength(items)
  {
    hide SpellsItems, ItemsDepth;
    assert Plain(Arr(0, 0, items)) && Depth(Arr(0, 0, items)) == 1 + ItemsDepth(items);
    assert Spells(t, Arr(0, 0, items)) && Length(Arr(0, 0, items)) == 1 + ItemsLength(items) <= |t|;
  }

  lemma {:induction false} ObjectGiven(t: Bytes, depth: nat) returns (node: Node)
    requires Skip(t, depth).Done? && depth <= 32 && t != [] && t[0] == '{'
    ensures Takes(t, node, depth) && Length(node) == Skip(t, depth).used
    decreases |t|, -1
  {
    hide Skip, SkipMembers, TakesEntries, Takes;
    assert GapThen(t, 0, '{');
    SkipsObject(t, depth);
    var u := t[1..];
    if Next(u[Blanks(u)..], '}') {
      node := Obj(0, Blanks(u), NoEntries);
      EmptyObject(t, depth);
    } else {
      var entries := EntriesGiven(u, depth);
      node := Obj(0, 0, entries);
      FullObject(t, entries, depth);
    }
  }

  lemma {:induction false} EmptyObject(t: Bytes, depth: nat)
    requires GapThen(t, 0, '{') && Next(t[1..][Blanks(t[1..])..], '}') && depth <= 32
    ensures Takes(t, Obj(0, Blanks(t[1..]), NoEntries), depth) && Length(Obj(0, Blanks(t[1..]), NoEntries)) == Blanks(t[1..]) + 2
  {
    hide Blanks;
    assert PlainEntries(NoEntries);
    GapIsBlanks(t[1..], Blanks(t[1..]), '}');
  }

  lemma {:induction false} FullObject(t: Bytes, entries: Entries, depth: nat)
    requires GapThen(t, 0, '{') && TakesEntries(t[1..], entries, depth)
    ensures Takes(t, Obj(0, 0, entries), depth) && Length(Obj(0, 0, entries)) == 1 + EntriesLength(entries)
  {
    hide SpellsEntries, EntriesDepth;
    assert Plain(Obj(0, 0, entries)) && Depth(Obj(0, 0, entries)) == 1 + EntriesDepth(entries);
    assert Spells(t, Obj(0, 0, entries)) && Length(Obj(0, 0, entries)) == 1 + EntriesLength(entries) <= |t|;
  }

  lemma {:induction false} ItemsGiven(s: Bytes, depth: nat) returns (items: Items)
    requires SkipItems(s, depth).Done?
    ensures TakesItems(s, items, depth) && ItemsLength(items) == SkipItems(s, depth).used
    decreases |s|, 2
  {
    hide Skip, SkipItems, Turns, TakesItems, Takes, GapThen;
    SkipItemsRound(s, depth);
    var value := SkipGiven(s, depth + 1);
    TakesFits(s, value, depth + 1);
    var t := s[Length(value)..];
    var turn := Turns(t, ']');
    var gap := turn.used - 1;
    TurnsIs(t, gap, ']');
    var rest := NoItems;
    if turn.More? {
      assert s[Length(value) + turn.used..] == t[gap + 1..];
      rest := ItemsGiven(t[gap + 1..], depth);
      HasItems(t[gap + 1..], rest, depth);
    }
    items := Item(value, gap, rest);
    TakesItemsIs(s, value, gap, rest, depth);
  }

  lemma {:induction false} HasItems(s: Bytes, items: Items, depth: nat)
    requires TakesItems(s, items, depth)
    ensures items.Item?
  {
  }

  lemma {:induction false} EntriesGiven(s: Bytes, depth: nat) returns (entries: Entries)
    requires SkipMembers(s, depth).Done?
    ensures TakesEntries(s, entries, depth) && EntriesLength(entries) == SkipMembers(s, depth).used
    decreases |s|, 2
  {
    hide Skip, SkipMembers, Turns, TakesEntries, Takes, GapThen, IsString, Key;
    SkipMembersRound(s, depth);
    var size, colon := KeyGiven(s);
    var u := s[size + colon + 1..];
    var value := SkipGiven(u, depth + 1);
    TakesFits(u, value, depth + 1);
    var t := u[Length(value)..];
    assert s[size + colon + 1 + Length(value)..] == t;
    var turn := Turns(t, '}');
    var gap := turn.used - 1;
    TurnsIs(t, gap, '}');
    var rest := NoEntries;
    if turn.More? {
      assert s[size + colon + 1 + Length(value) + turn.used..] == t[gap + 1..];
      rest := EntriesGiven(t[gap + 1..], depth);
      HasEntries(t[gap + 1..], rest, depth);
    }
    entries := Entry(size, Key(s).value, colon, value, gap, rest);
    TakesEntriesIs(s, size, Key(s).value, colon, value, gap, rest, depth);
  }

  lemma {:induction false} HasEntries(s: Bytes, entries: Entries, depth: nat)
    requires TakesEntries(s, entries, depth)
    ensures entries.Entry?
  {
  }

  lemma {:induction false} KeyGiven(s: Bytes) returns (size: nat, colon: nat)
    requires Key(s).Done?
    ensures IsString(s, size, Key(s).value) && size <= |s| && GapThen(s[size..], colon, ':')
    ensures Key(s).used == size + colon + 1
  {
    hide String, IsString, GapThen;
    size := String(s).used;
    StringIsExact(s, size, String(s).value);
    colon := Take(s[size..], ':').used - 1;
    assert Take(s[size..], ':') == Done((), colon + 1);
    TakeIs(s[size..], colon, ':');
  }

  // skip_value takes a text exactly if it begins with a JSON value that nests at most 32 levels deep in
  // all and that no number goes on behind, and it takes just this value.
  lemma {:induction false} SkipIsExact(s: Bytes, depth: nat, n: nat)
    requires n <= |s| && NumberEnds(s[n..])
    ensures Skip(s, depth) == Done((), n) <==> exists node :: Takes(s, node, depth) && Length(node) == n
  {
    hide Takes, Skip;
    forall node | Takes(s, node, depth) && Length(node) == n ensures Skip(s, depth) == Done((), n) {
      SkipReads(s, node, depth);
    }
    if Skip(s, depth) == Done((), n) { var node := SkipGiven(s, depth); }
  }
}
