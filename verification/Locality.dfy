// What a reader of JSON text sees: it depends on the bytes it uses up and on the one behind them, and
// on nothing else (core/src/config.cpp).
module Locality {
  import opened Text
  import opened CodePoints
  import opened JsonText
  import opened ConfigSchema
  import opened ConfigParse

  // The same bytes up to and with the n-th.
  predicate Alike(s: Bytes, t: Bytes, n: nat) {
    n < |s| && n < |t| && forall k :: 0 <= k <= n ==> s[k] == t[k]
  }

  // A byte that ends a number in front of it.
  predicate Quiet(c: Byte) {
    !IsDigit(c) && c != '.' && c != 'e' && c != 'E'
  }

  // The same bytes before the n-th, and there the same byte or two that end a number.
  predicate Enough(s: Bytes, t: Bytes, n: nat) {
    && n < |s| && n < |t| && (forall k :: 0 <= k < n ==> s[k] == t[k])
    && (s[n] == t[n] || (Quiet(s[n]) && Quiet(t[n])))
  }

  lemma {:induction false} EnoughLess(s: Bytes, t: Bytes, n: nat, m: nat)
    requires Enough(s, t, n) && m <= n
    ensures Enough(s, t, m) && (m < n ==> Alike(s, t, m))
  {
  }

  lemma {:induction false} EnoughDrop(s: Bytes, t: Bytes, n: nat, d: nat)
    requires Enough(s, t, n) && d <= n
    ensures d <= |s| && d <= |t| && Enough(s[d..], t[d..], n - d)
  {
  }

  lemma {:induction false} AlikeIsEnough(s: Bytes, t: Bytes, n: nat)
    requires Alike(s, t, n)
    ensures Enough(s, t, n)
  {
  }

  lemma {:induction false} AlikeDrop(s: Bytes, t: Bytes, n: nat, d: nat)
    requires Alike(s, t, n) && d <= n
    ensures d <= |s| && d <= |t| && Alike(s[d..], t[d..], n - d)
  {
  }

  lemma {:induction false} AlikeLess(s: Bytes, t: Bytes, n: nat, m: nat)
    requires Alike(s, t, n) && m <= n
    ensures Alike(s, t, m)
  {
  }

  // The same first n bytes.
  predicate SameStart(s: Bytes, t: Bytes, n: nat) {
    n <= |s| && n <= |t| && s[..n] == t[..n]
  }

  lemma {:induction false} AlikeStart(s: Bytes, t: Bytes, n: nat, d: nat, m: nat)
    requires Alike(s, t, n) && d + m <= n + 1
    ensures d <= |s| && d <= |t| && SameStart(s[d..], t[d..], m)
    ensures forall k :: 0 <= k < m ==> s[d..][k] == t[d..][k]
  {
  }

  lemma {:induction false} BlanksLocal(s: Bytes, t: Bytes)
    requires Alike(s, t, Blanks(s))
    ensures Blanks(t) == Blanks(s)
  {
    if s != [] && IsSpace(s[0]) {
      AlikeDrop(s, t, Blanks(s), 1);
      BlanksLocal(s[1..], t[1..]);
    }
  }

  lemma {:induction false} NextLocal(s: Bytes, t: Bytes, n: nat, d: nat, c: Byte)
    requires Alike(s, t, n) && d <= n
    ensures Next(s[d..], c) <==> Next(t[d..], c)
  {
  }

  lemma {:induction false} TakeLocal(s: Bytes, t: Bytes, c: Byte)
    requires Take(s, c).Done? && Alike(s, t, Take(s, c).used - 1)
    ensures Take(t, c) == Take(s, c)
  {
    BlanksLocal(s, t);
    NextLocal(s, t, Blanks(s), Blanks(s), c);
  }

  lemma {:induction false} LiteralLocal(s: Bytes, t: Bytes, word: Bytes)
    requires Literal(s, word).Done? && word != [] && Alike(s, t, Literal(s, word).used - 1)
    ensures Literal(t, word) == Literal(s, word)
  {
    var b := Blanks(s);
    AlikeLess(s, t, Literal(s, word).used - 1, b);
    BlanksLocal(s, t);
    AlikeStart(s, t, Literal(s, word).used - 1, b, |word|);
  }

  // How far a look at an opening bracket goes.
  function Looks(o: Turn): nat
    requires o.Close? ==> o.used > 0
  {
    match o case Bad => 0 case Close(used) => used - 1 case More(used) => used
  }

  lemma {:induction false} OpenLocal(s: Bytes, t: Bytes, open: Byte, close: Byte)
    requires !Open(s, open, close).Bad? && Alike(s, t, Looks(Open(s, open, close)))
    ensures Open(t, open, close) == Open(s, open, close)
  {
    hide Blanks, Take;
    var n, a := Looks(Open(s, open, close)), Take(s, open).used;
    var b := Blanks(s[a..]);
    assert n == a + b;
    AlikeLess(s, t, n, a - 1);
    TakeLocal(s, t, open);
    AlikeDrop(s, t, n, a);
    BlanksLocal(s[a..], t[a..]);
    NextLocal(s, t, n, n, close);
  }

  lemma {:induction false} TurnsLocal(s: Bytes, t: Bytes, close: Byte)
    requires !Turns(s, close).Bad? && Alike(s, t, Turns(s, close).used - 1)
    ensures Turns(t, close) == Turns(s, close)
  {
    hide Blanks;
    var b := Blanks(s);
    BlanksLocal(s, t);
    NextLocal(s, t, b, b, close);
    NextLocal(s, t, b, b, ',');
  }

  // ----- strings -----

  lemma {:induction false} UnitLocal(s: Bytes, t: Bytes)
    requires UnicodeUnit(s).Done? && SameStart(s, t, 4)
    ensures UnicodeUnit(t) == UnicodeUnit(s)
  {
    assert forall k :: 0 <= k < 4 ==> s[k] == s[..4][k] && t[k] == t[..4][k];
  }

  lemma {:induction false} UnicodeLocal(s: Bytes, t: Bytes, n: nat)
    requires Unicode(s).Done? && Alike(s, t, n) && Unicode(s).used <= n + 1
    ensures Unicode(t) == Unicode(s)
  {
    hide Utf8;
    assert s[0..] == s && t[0..] == t;
    AlikeStart(s, t, n, 0, 4);
    UnitLocal(s, t);
    if 0xD800 <= UnicodeUnit(s).value <= 0xDBFF {
      AlikeStart(s, t, n, 4, 2);
      AlikeStart(s, t, n, 6, 4);
      UnitLocal(s[6..], t[6..]);
    }
  }

  lemma {:induction false} EscapeLocal(s: Bytes, t: Bytes, n: nat)
    requires Escape(s).Done? && Alike(s, t, n) && Escape(s).used <= n + 1
    ensures Escape(t) == Escape(s)
  {
    hide Unicode;
    if s[0] == 'u' && n > 0 {
      AlikeDrop(s, t, n, 1);
      UnicodeLocal(s[1..], t[1..], n - 1);
    } else if s[0] == 'u' {
      NoUnicode(s[1..]);
    }
  }

  lemma {:induction false} NoUnicode(s: Bytes)
    ensures Unicode(s).Done? ==> Unicode(s).used >= 4
  {
  }

  lemma {:induction false} BodyLocal(s: Bytes, t: Bytes)
    requires Body(s).Done? && Alike(s, t, Body(s).used - 1)
    ensures Body(t) == Body(s)
  {
    hide Escape;
    var n := Body(s).used - 1;
    if s[0] != '\"' {
      if s[0] != '\\' {
        AlikeDrop(s, t, n, 1);
        BodyLocal(s[1..], t[1..]);
      } else {
        AlikeDrop(s, t, n, 1);
        var e := Escape(s[1..]);
        EscapeLocal(s[1..], t[1..], n - 1);
        AlikeDrop(s, t, n, 1 + e.used);
        BodyLocal(s[1 + e.used..], t[1 + e.used..]);
      }
    }
  }

  lemma {:induction false} StringLocal(s: Bytes, t: Bytes)
    requires String(s).Done? && Alike(s, t, String(s).used - 1)
    ensures String(t) == String(s)
  {
    hide Blanks, Body;
    var b, n := Blanks(s), String(s).used - 1;
    AlikeLess(s, t, n, b);
    BlanksLocal(s, t);
    NextLocal(s, t, n, b, '\"');
    AlikeDrop(s, t, n, b + 1);
    BodyLocal(s[b + 1..], t[b + 1..]);
  }

  lemma {:induction false} KeyLocal(s: Bytes, t: Bytes)
    requires Key(s).Done? && Alike(s, t, Key(s).used - 1)
    ensures Key(t) == Key(s)
  {
    hide String, Take;
    var n, a := Key(s).used - 1, String(s).used;
    AlikeLess(s, t, n, a - 1);
    StringLocal(s, t);
    AlikeDrop(s, t, n, a);
    TakeLocal(s[a..], t[a..], ':');
  }

  // ----- numbers and booleans -----

  lemma {:induction false} DigitsLocal(s: Bytes, t: Bytes)
    requires Enough(s, t, Digits(s))
    ensures Digits(t) == Digits(s) && t[..Digits(s)] == s[..Digits(s)]
  {
    if s != [] && IsDigit(s[0]) {
      EnoughDrop(s, t, Digits(s), 1);
      DigitsLocal(s[1..], t[1..]);
    }
  }

  lemma {:induction false} FractionLocal(s: Bytes, t: Bytes, n: nat)
    requires Enough(s, t, n)
    ensures IsFraction(s[n..]) <==> IsFraction(t[n..])
  {
  }

  lemma {:induction false} IntegerLocal(s: Bytes, t: Bytes)
    requires Integer(s).Done? && Enough(s, t, Integer(s).used)
    ensures Integer(t) == Integer(s)
  {
    hide Blanks, Digits, Number, AllDigits, Enough;
    var b, n := Blanks(s), Integer(s).used;
    EnoughLess(s, t, n, b);
    BlanksLocal(s, t);
    NextLocal(s, t, b, b, '-');
    var start := if Next(s[b..], '-') then b + 1 else b;
    EnoughDrop(s, t, n, start);
    DigitsLocal(s[start..], t[start..]);
    FractionLocal(s, t, n);
  }

  lemma {:induction false} UnsignedLocal(s: Bytes, t: Bytes)
    requires Unsigned(s).Done? && Enough(s, t, Unsigned(s).used)
    ensures Unsigned(t) == Unsigned(s)
  {
    hide Blanks, Digits, Number, AllDigits, Enough;
    var b, n := Blanks(s), Unsigned(s).used;
    EnoughLess(s, t, n, b);
    BlanksLocal(s, t);
    EnoughDrop(s, t, n, b);
    DigitsLocal(s[b..], t[b..]);
    FractionLocal(s, t, n);
  }

  lemma {:induction false} BooleanLocal(s: Bytes, t: Bytes)
    requires Boolean(s).Done? && Alike(s, t, Boolean(s).used - 1)
    ensures Boolean(t) == Boolean(s)
  {
    hide Blanks;
    var b, n := Blanks(s), Boolean(s).used - 1;
    AlikeLess(s, t, n, b);
    BlanksLocal(s, t);
    AlikeStart(s, t, n, b, 4);
    if !Boolean(s).value { AlikeStart(s, t, n, b, 5); }
  }

  lemma {:induction false} SkipFractionLocal(s: Bytes, t: Bytes)
    requires SkipFraction(s).Done? && Enough(s, t, SkipFraction(s).used)
    ensures SkipFraction(t) == SkipFraction(s)
  {
    hide Digits;
    if Next(s, '.') {
      EnoughDrop(s, t, SkipFraction(s).used, 1);
      DigitsLocal(s[1..], t[1..]);
    }
  }

  lemma {:induction false} SkipExponentLocal(s: Bytes, t: Bytes)
    requires SkipExponent(s).Done? && Enough(s, t, SkipExponent(s).used)
    ensures SkipExponent(t) == SkipExponent(s)
  {
    hide Digits;
    if Next(s, 'e') || Next(s, 'E') {
      var n := SkipExponent(s).used;
      EnoughLess(s, t, n, 1);
      NextLocal(s, t, 1, 1, '+');
      NextLocal(s, t, 1, 1, '-');
      var sign := if Next(s[1..], '+') || Next(s[1..], '-') then 2 else 1;
      EnoughDrop(s, t, n, sign);
      DigitsLocal(s[sign..], t[sign..]);
    }
  }

  lemma {:induction false} StartLocal(s: Bytes, t: Bytes)
    requires Start(s) < |s| && Alike(s, t, Start(s))
    ensures Start(t) == Start(s)
  {
    hide Blanks;
    AlikeLess(s, t, Start(s), Blanks(s));
    BlanksLocal(s, t);
    NextLocal(s, t, Blanks(s), Blanks(s), '-');
  }

  lemma {:induction false} WholeLocal(s: Bytes, t: Bytes)
    requires Whole(s) > 0 && Enough(s, t, Whole(s))
    ensures Whole(t) == Whole(s)
  {
    if !Next(s, '0') { DigitsLocal(s, t); }
  }

  lemma {:induction false} SkipNumberLocal(s: Bytes, t: Bytes)
    requires SkipNumber(s).Done? && Enough(s, t, SkipNumber(s).used)
    ensures SkipNumber(t) == SkipNumber(s)
  {
    hide Start, Whole, SkipFraction, SkipExponent, Enough;
    var used, start := SkipNumber(s).used, Start(s);
    var n := start + Whole(s[start..]);
    var f := n + SkipFraction(s[n..]).used;
    EnoughLess(s, t, used, start);
    StartLocal(s, t);
    EnoughLess(s, t, used, n);
    EnoughDrop(s, t, n, start);
    WholeLocal(s[start..], t[start..]);
    EnoughLess(s, t, used, f);
    EnoughDrop(s, t, f, n);
    SkipFractionLocal(s[n..], t[n..]);
    EnoughDrop(s, t, used, f);
    SkipExponentLocal(s[f..], t[f..]);
  }

  // ----- skipped values -----

  lemma {:induction false} SkipLocal(s: Bytes, t: Bytes, depth: nat)
    requires Skip(s, depth).Done? && Enough(s, t, Skip(s, depth).used)
    ensures Skip(t, depth) == Skip(s, depth)
    decreases |s|, 0
  {
    hide Blanks, String, Open, SkipMembers, SkipItems, Literal, SkipNumber, Enough;
    var n, b := Skip(s, depth).used, Blanks(s);
    EnoughLess(s, t, n, b);
    BlanksLocal(s, t);
    EnoughDrop(s, t, n, b);
    var x, y := s[b..], t[b..];
    assert x[0] == y[0];
    EnoughLess(x, y, n - b, n - b - 1);
    if x[0] == '\"' {
      StringLocal(x, y);
    } else if x[0] == '{' {
      SkipObjectLocal(x, y, depth, n - b);
    } else if x[0] == '[' {
      SkipArrayLocal(x, y, depth, n - b);
    } else if x[0] == 't' {
      LiteralLocal(x, y, "true");
    } else if x[0] == 'f' {
      LiteralLocal(x, y, "false");
    } else if x[0] == 'n' {
      LiteralLocal(x, y, "null");
    } else {
      SkipNumberLocal(x, y);
    }
  }

  lemma {:induction false} SkipObjectLocal(s: Bytes, t: Bytes, depth: nat, n: nat)
    requires 0 < n && Alike(s, t, n - 1)
    requires var o := Open(s, '{', '}');
             && !o.Bad? && (o.Close? ==> o.used == n)
             && (o.More? ==> SkipMembers(s[o.used..], depth).Done? && n == o.used + SkipMembers(s[o.used..], depth).used)
    ensures Open(t, '{', '}') == Open(s, '{', '}')
    ensures var o := Open(s, '{', '}');
            o.More? ==> o.used <= |t| && SkipMembers(t[o.used..], depth) == SkipMembers(s[o.used..], depth)
    decreases |s|, -1
  {
    hide Alike, Open, SkipMembers;
    BracketLocal(s, t, '{', '}', n);
    var o := Open(s, '{', '}');
    if o.More? {
      AlikeDrop(s, t, n - 1, o.used);
      SkipMembersLocal(s[o.used..], t[o.used..], depth);
    }
  }

  lemma {:induction false} SkipArrayLocal(s: Bytes, t: Bytes, depth: nat, n: nat)
    requires 0 < n && Alike(s, t, n - 1)
    requires var o := Open(s, '[', ']');
             && !o.Bad? && (o.Close? ==> o.used == n)
             && (o.More? ==> SkipItems(s[o.used..], depth).Done? && n == o.used + SkipItems(s[o.used..], depth).used)
    ensures Open(t, '[', ']') == Open(s, '[', ']')
    ensures var o := Open(s, '[', ']');
            o.More? ==> o.used <= |t| && SkipItems(t[o.used..], depth) == SkipItems(s[o.used..], depth)
    decreases |s|, -1
  {
    hide Alike, Open, SkipItems;
    BracketLocal(s, t, '[', ']', n);
    var o := Open(s, '[', ']');
    if o.More? {
      AlikeDrop(s, t, n - 1, o.used);
      SkipItemsLocal(s[o.used..], t[o.used..], depth);
    }
  }

  // An opening bracket in front of a text of n bytes in all.
  lemma {:induction false} BracketLocal(s: Bytes, t: Bytes, open: Byte, close: Byte, n: nat)
    requires !Open(s, open, close).Bad? && 0 < n && Alike(s, t, n - 1)
    requires var o := Open(s, open, close);
             !o.Bad? && (o.Close? ==> o.used == n) && (o.More? ==> o.used < n)
    ensures Open(t, open, close) == Open(s, open, close)
  {
    hide Open;
    AlikeLess(s, t, n - 1, Looks(Open(s, open, close)));
    OpenLocal(s, t, open, close);
  }

  lemma {:induction false} SkipMembersLocal(s: Bytes, t: Bytes, depth: nat)
    requires SkipMembers(s, depth).Done? && Alike(s, t, SkipMembers(s, depth).used - 1)
    ensures SkipMembers(t, depth) == SkipMembers(s, depth)
    decreases |s|, 1
  {
    hide Alike, Key, Skip, Turns, SkipMembers;
    SkipMembersRound(s, depth);
    SkipMembersRound(t, depth);
    var used, k := SkipMembers(s, depth).used, Key(s).used;
    var n := k + Skip(s[k..], depth + 1).used;
    AlikeLess(s, t, used - 1, n);
    AlikeIsEnough(s, t, n);
    SkipMemberLocal(s, t, depth + 1);
    SkipNextLocal(s, t, depth, n, used);
  }

  lemma {:induction false} SkipNextLocal(s: Bytes, t: Bytes, depth: nat, n: nat, used: nat)
    requires 0 < n <= |s| && 0 < used && Alike(s, t, used - 1)
    requires var turn := Turns(s[n..], '}');
             && !turn.Bad? && (turn.Close? ==> used == n + turn.used)
             && (turn.More? ==> SkipMembers(s[n + turn.used..], depth).Done?
                                && used == n + turn.used + SkipMembers(s[n + turn.used..], depth).used)
    ensures n <= |t| && Turns(t[n..], '}') == Turns(s[n..], '}')
    ensures Turns(s[n..], '}').More? ==>
            var u := Turns(s[n..], '}').used;
            n + u <= |t| && SkipMembers(t[n + u..], depth) == SkipMembers(s[n + u..], depth)
    decreases |s|, 0
  {
    hide Alike, Turns, SkipMembers;
    var u := Turns(s[n..], '}').used;
    AlikeLess(s, t, used - 1, n + u - 1);
    AlikeDrop(s, t, n + u - 1, n);
    TurnsLocal(s[n..], t[n..], '}');
    if Turns(s[n..], '}').More? {
      AlikeDrop(s, t, used - 1, n + u);
      SkipMembersLocal(s[n + u..], t[n + u..], depth);
    }
  }

  lemma {:induction false} SkipMemberLocal(s: Bytes, t: Bytes, depth: nat)
    requires Key(s).Done? && Skip(s[Key(s).used..], depth).Done?
    requires Enough(s, t, Key(s).used + Skip(s[Key(s).used..], depth).used)
    ensures Key(t) == Key(s) && Key(s).used <= |t| && Skip(t[Key(s).used..], depth) == Skip(s[Key(s).used..], depth)
    decreases |s|, 0
  {
    hide Alike, Enough, Key, Skip;
    var k := Key(s).used;
    var n := k + Skip(s[k..], depth).used;
    EnoughLess(s, t, n, k - 1);
    KeyLocal(s, t);
    EnoughDrop(s, t, n, k);
    SkipLocal(s[k..], t[k..], depth);
  }

  lemma {:induction false} SkipItemsLocal(s: Bytes, t: Bytes, depth: nat)
    requires SkipItems(s, depth).Done? && Alike(s, t, SkipItems(s, depth).used - 1)
    ensures SkipItems(t, depth) == SkipItems(s, depth)
    decreases |s|, 1
  {
    hide Alike, Skip, Turns, SkipItems;
    SkipItemsRound(s, depth);
    SkipItemsRound(t, depth);
    var used, n := SkipItems(s, depth).used, Skip(s, depth + 1).used;
    var u := Turns(s[n..], ']').used;
    AlikeLess(s, t, used - 1, n);
    AlikeIsEnough(s, t, n);
    SkipLocal(s, t, depth + 1);
    AlikeLess(s, t, used - 1, n + u - 1);
    AlikeDrop(s, t, n + u - 1, n);
    TurnsLocal(s[n..], t[n..], ']');
    if Turns(s[n..], ']').More? {
      AlikeDrop(s, t, used - 1, n + u);
      SkipItemsLocal(s[n + u..], t[n + u..], depth);
    }
  }

  // ----- configuration values -----

  lemma {:induction false} ValueLocal(k: Kind, was: Value, s: Bytes, t: Bytes)
    requires ParseInto(k, was, s).Done? && Enough(s, t, ParseInto(k, was, s).used)
    ensures ParseInto(k, was, t) == ParseInto(k, was, s)
    decreases |s|, 1
  {
    hide String, Integer, Unsigned, Boolean, ParseRecord, ParseItems, Open, Enough;
    var n := ParseInto(k, was, s).used;
    EnoughLess(s, t, n, n - 1);
    match k
    case TextKind => StringLocal(s, t);
    case IntKind => IntegerLocal(s, t);
    case UintKind => UnsignedLocal(s, t);
    case SmallKind(_) => IntegerLocal(s, t);
    case FlagKind => BooleanLocal(s, t);
    case RecordKind(members) => RecordLocal(members, Fields(members, was), s, t);
    case ListKind(item, blank, size) =>
      BracketLocal(s, t, '[', ']', n);
      var o := Open(s, '[', ']');
      if o.More? {
        AlikeDrop(s, t, n - 1, o.used);
        ItemsLocal(item, Copies(blank, size), 0, s[o.used..], t[o.used..]);
      }
  }

  lemma {:induction false} RecordLocal(members: seq<Member>, vals: seq<Value>, s: Bytes, t: Bytes)
    requires |vals| == |members|
    requires ParseRecord(members, vals, s).Done? && Alike(s, t, ParseRecord(members, vals, s).used - 1)
    ensures ParseRecord(members, vals, t) == ParseRecord(members, vals, s)
    decreases |s|, 0
  {
    hide ParseMembers, Open, AllPass;
    var n, o := ParseRecord(members, vals, s).used, Open(s, '{', '}');
    BracketLocal(s, t, '{', '}', n);
    if o.More? {
      AlikeDrop(s, t, n - 1, o.used);
      MembersLocal(members, vals, {}, s[o.used..], t[o.used..]);
    }
  }

  lemma {:induction false} MembersLocal(members: seq<Member>, vals: seq<Value>, seen: set<nat>, s: Bytes, t: Bytes)
    requires |vals| == |members|
    requires ParseMembers(members, vals, seen, s).Done? && Alike(s, t, ParseMembers(members, vals, seen, s).used - 1)
    ensures ParseMembers(members, vals, seen, t) == ParseMembers(members, vals, seen, s)
    decreases |s|, 2
  {
    hide Alike, Enough, Key, Skip, NextMember, IndexOf, ParseInto;
    var used, k := ParseMembers(members, vals, seen, s).used, Key(s).used;
    var i := IndexOf(members, Key(s).value);
    AlikeLess(s, t, used - 1, k - 1);
    KeyLocal(s, t);
    if i < |members| {
      var v := ParseInto(members[i].kind, vals[i], s[k..]);
      AlikeLess(s, t, used - 1, k + v.used);
      AlikeDrop(s, t, k + v.used, k);
      AlikeIsEnough(s[k..], t[k..], v.used);
      ValueLocal(members[i].kind, vals[i], s[k..], t[k..]);
      NextMemberLocal(members, vals[i := v.value], seen + {i}, s, t, k + v.used);
    } else {
      var v := Skip(s[k..], 0);
      AlikeLess(s, t, used - 1, k + v.used);
      AlikeDrop(s, t, k + v.used, k);
      AlikeIsEnough(s[k..], t[k..], v.used);
      SkipLocal(s[k..], t[k..], 0);
      NextMemberLocal(members, vals, seen, s, t, k + v.used);
    }
  }

  lemma {:induction false} NextMemberLocal(members: seq<Member>, vals: seq<Value>, seen: set<nat>, s: Bytes, t: Bytes, n: nat)
    requires |vals| == |members| && n <= |s|
    requires NextMember(members, vals, seen, s, n).Done? && Alike(s, t, NextMember(members, vals, seen, s, n).used - 1)
    ensures n <= |t| && NextMember(members, vals, seen, t, n) == NextMember(members, vals, seen, s, n)
    decreases |s|, 1
  {
    hide Alike, Turns, ParseMembers;
    var used, u := NextMember(members, vals, seen, s, n).used, Turns(s[n..], '}').used;
    AlikeLess(s, t, used - 1, n + u - 1);
    AlikeDrop(s, t, n + u - 1, n);
    TurnsLocal(s[n..], t[n..], '}');
    if Turns(s[n..], '}').More? {
      AlikeDrop(s, t, used - 1, n + u);
      MembersLocal(members, vals, seen, s[n + u..], t[n + u..]);
    }
  }

  lemma {:induction false} ItemsLocal(item: seq<Member>, list: seq<Value>, count: nat, s: Bytes, t: Bytes)
    requires ParseItems(item, list, count, s).Done? && Alike(s, t, ParseItems(item, list, count, s).used - 1)
    ensures ParseItems(item, list, count, t) == ParseItems(item, list, count, s)
    decreases |s|, 1
  {
    hide Alike, Turns, ParseRecord, Fields, ParseItems;
    ItemsRound(item, list, count, s);
    ItemsRound(item, list, count, t);
    var used, v := ParseItems(item, list, count, s).used, ParseRecord(item, Fields(item, list[count]), s);
    var n, u := v.used, Turns(s[v.used..], ']').used;
    AlikeLess(s, t, used - 1, n - 1);
    RecordLocal(item, Fields(item, list[count]), s, t);
    AlikeLess(s, t, used - 1, n + u - 1);
    AlikeDrop(s, t, n + u - 1, n);
    TurnsLocal(s[n..], t[n..], ']');
    if Turns(s[n..], ']').More? {
      AlikeDrop(s, t, used - 1, n + u);
      ItemsLocal(item, list[count := Record(v.value.vals)], count + 1, s[n + u..], t[n + u..]);
    }
  }
}
