// Reading back what serialize_config_json wrote (core/src/config.cpp, core/src/text.cpp).
module ConfigRoundTrip {
  import opened Text
  import opened JsonText
  import opened ConfigSchema
  import opened ConfigParse

  // ----- strings, for all bytes -----

  lemma {:induction false} StartsHere(s: Bytes)
    requires s != [] && !IsSpace(s[0])
    ensures Blanks(s) == 0 && s[0..] == s
  {
  }

  lemma {:induction false} HexDigitReads(d: nat)
    requires d < 16
    ensures Hex(HexDigit(d)) == d
  {
  }

  lemma {:induction false} ControlReads(c: Byte, tail: Bytes)
    requires c as int < 0x20
    ensures var s := "u00" + [HexDigit(c as int / 16), HexDigit(c as int % 16)] + tail;
            Escape(s) == Done([c], 5) && s[5..] == tail
  {
    var high, low := HexDigit(c as int / 16), HexDigit(c as int % 16);
    var s := "u00" + [high, low] + tail;
    HexDigitReads(c as int / 16);
    HexDigitReads(c as int % 16);
    var t := s[1..];
    assert t == "00" + [high, low] + tail;
    assert t[0] == '0' && t[1] == '0' && t[2] == high && t[3] == low;
    assert UnicodeUnit(t) == Done(c as nat, 4);
  }

  lemma {:induction false} BodyReadsByte(c: Byte, tail: Bytes)
    ensures Body(EscapeByte(c) + tail) == Prefixed([c], |EscapeByte(c)|, Body(tail))
  {
    if |EscapeByte(c)| == 1 {
      PlainReads(c, tail);
    } else if |EscapeByte(c)| == 2 {
      PairReads(c, tail);
    } else {
      UnicodeReads(c, tail);
    }
  }

  lemma {:induction false} PlainReads(c: Byte, tail: Bytes)
    requires |EscapeByte(c)| == 1
    ensures Body(EscapeByte(c) + tail) == Prefixed([c], 1, Body(tail))
  {
    assert (EscapeByte(c) + tail)[1..] == tail;
  }

  lemma {:induction false} PairEscapes(c: Byte, tail: Bytes)
    requires |EscapeByte(c)| == 2
    ensures EscapeByte(c)[0] == '\\' && Escape(EscapeByte(c)[1..] + tail) == Done([c], 1)
  {
    hide UnicodeUnit, HexDigit;
  }

  lemma {:induction false} PairReads(c: Byte, tail: Bytes)
    requires |EscapeByte(c)| == 2
    ensures Body(EscapeByte(c) + tail) == Prefixed([c], 2, Body(tail))
  {
    hide Escape, Body, EscapeByte;
    var s := EscapeByte(c) + tail;
    PairEscapes(c, tail);
    assert s[1..] == EscapeByte(c)[1..] + tail && s[2..] == tail;
    BodyEscaped(s);
  }

  lemma {:induction false} UnicodeReads(c: Byte, tail: Bytes)
    requires |EscapeByte(c)| > 2
    ensures Body(EscapeByte(c) + tail) == Prefixed([c], |EscapeByte(c)|, Body(tail))
  {
    hide HexDigit, Escape, Body;
    var s := EscapeByte(c) + tail;
    assert c as int < 0x20;
    ControlReads(c, tail);
    assert s[1..] == "u00" + [HexDigit(c as int / 16), HexDigit(c as int % 16)] + tail;
    assert s[1..][5..] == s[6..];
    assert s[0] == '\\';
    BodyEscaped(s);
  }

  lemma {:induction false} BodyReads(t: Bytes, rest: Bytes)
    ensures Body(Escaped(t) + ("\"" + rest)) == Done(t, |Escaped(t)| + 1)
  {
    var close := "\"" + rest;
    if t == [] {
      assert Escaped(t) + close == close;
    } else {
      Associative(EscapeByte(t[0]), Escaped(t[1..]), close);
      BodyReadsByte(t[0], Escaped(t[1..]) + close);
      BodyReads(t[1..], rest);
      assert t == [t[0]] + t[1..];
    }
  }

  lemma {:induction false} StringReads(t: Bytes, rest: Bytes)
    ensures String(Quoted(t) + rest) == Done(t, |Quoted(t)|)
  {
    var s := Quoted(t) + rest;
    StartsHere(s);
    assert s[1..] == Escaped(t) + ("\"" + rest);
    BodyReads(t, rest);
  }

  // ----- numbers -----

  lemma {:induction false} DigitsRead(d: Bytes, rest: Bytes)
    requires AllDigits(d) && (rest == [] || !IsDigit(rest[0]))
    ensures Digits(d + rest) == |d| && (d + rest)[..|d|] == d && (d + rest)[|d|..] == rest
  {
    if d == [] {
      assert d + rest == rest;
    } else {
      assert (d + rest)[1..] == d[1..] + rest;
      DigitsRead(d[1..], rest);
    }
  }

  // What may stand behind a value in a serialized text.
  predicate Stops(rest: Bytes) {
    rest != [] && (rest[0] == ',' || rest[0] == '}' || rest[0] == ']')
  }

  lemma {:induction false} DecimalReads(n: nat, rest: Bytes)
    requires Stops(rest)
    ensures var s := Decimal(n) + rest;
            && s != [] && IsDigit(s[0])
            && Digits(s) == |Decimal(n)| > 0 && s[..Digits(s)] == Decimal(n) && s[Digits(s)..] == rest
            && Number(s[..Digits(s)]) == n
  {
    DecimalIsNumber(n);
    DigitsRead(Decimal(n), rest);
  }

  lemma {:induction false} NegativeReads(m: nat, rest: Bytes)
    requires Stops(rest) && 0 < m <= 0x8000_0000
    ensures Integer("-" + Decimal(m) + rest) == Done(0 - m, 1 + |Decimal(m)|)
  {
    hide Digits, Decimal, Number, Blanks, AllDigits;
    var d := Decimal(m) + rest;
    var s := "-" + Decimal(m) + rest;
    DecimalReads(m, rest);
    assert s[0] == '-' && s[1..] == d;
    StartsHere(s);
    assert s[1 + Digits(d)..] == d[Digits(d)..];
  }

  lemma {:induction false} IntegerReads(n: int, rest: Bytes)
    requires Stops(rest) && -0x8000_0000 <= n <= 0x7FFF_FFFF
    ensures Integer(Signed(n) + rest) == Done(n, |Signed(n)|)
  {
    hide Integer, Decimal;
    if n < 0 { NegativeReads(-n, rest); } else { PositiveReads(n, rest); }
  }

  lemma {:induction false} PositiveReads(n: nat, rest: Bytes)
    requires Stops(rest) && n <= 0x7FFF_FFFF
    ensures Integer(Decimal(n) + rest) == Done(n, |Decimal(n)|)
  {
    hide Digits, Decimal, Number, Blanks, AllDigits;
    DecimalReads(n, rest);
    StartsHere(Decimal(n) + rest);
  }

  lemma {:induction false} UnsignedReads(n: nat, rest: Bytes)
    requires Stops(rest) && n <= UINT32_MAX
    ensures Unsigned(Decimal(n) + rest) == Done(n, |Decimal(n)|)
  {
    var s := Decimal(n) + rest;
    DecimalReads(n, rest);
    StartsHere(s);
  }

  lemma {:induction false} BooleanReads(on: bool, rest: Bytes)
    ensures var word := if on then "true" else "false"; Boolean(word + rest) == Done(on, |word|)
  {
    var word := if on then "true" else "false";
    StartsHere(word + rest);
    assert (word + rest)[..|word|] == word;
    if !on { assert (word + rest)[0] == 'f' && "true"[0] == 't'; assert (word + rest)[..4][0] == 'f'; }
  }

  // ----- punctuation -----

  lemma {:induction false} TakeReads(c: Byte, rest: Bytes)
    requires !IsSpace(c)
    ensures Take([c] + rest, c) == Done((), 1) && ([c] + rest)[1..] == rest
  {
    StartsHere([c] + rest);
  }

  lemma {:induction false} TurnsRead(close: Byte, rest: Bytes)
    requires close == '}' || close == ']'
    ensures Turns([close] + rest, close) == Close(1) && Turns([','] + rest, close) == More(1)
    ensures ([','] + rest)[1..] == rest
  {
    StartsHere([close] + rest);
    StartsHere([','] + rest);
  }

  lemma {:induction false} OpenReads(open: Byte, close: Byte, rest: Bytes)
    requires !IsSpace(open) && rest != [] && !IsSpace(rest[0])
    ensures ([open] + rest)[1..] == rest
    ensures Open([open] + rest, open, close) == if rest[0] == close then Close(2) else More(1)
  {
    TakeReads(open, rest);
    StartsHere(rest);
    assert ([open] + rest)[1..] == rest;
    assert ([open] + rest)[1] == rest[0];
    assert ([open] + rest)[1..][0] == rest[0];
  }

  lemma {:induction false} KeyReads(name: Bytes, rest: Bytes)
    ensures var s := Quoted(name) + (":" + rest);
            Key(s) == Done(name, |Quoted(name)| + 1) && s[|Quoted(name)| + 1..] == rest
  {
    var s := Quoted(name) + (":" + rest);
    StringReads(name, ":" + rest);
    assert s[|Quoted(name)|..] == [':'] + rest;
    TakeReads(':', rest);
  }

  // ----- tables whose texts can be read back -----

  predicate Sound(k: Kind)
    decreases k, 1
  {
    match k
    case RecordKind(members) => AllSound(members)
    case ListKind(item, _, size) => size > 0 && AllSound(item)
    case _ => true
  }

  // There are members, and no name stands twice.
  predicate AllSound(members: seq<Member>)
    decreases members, 0
  {
    members != [] && forall i :: 0 <= i < |members| ==> IndexOf(members, members[i].name) == i && Sound(members[i].kind)
  }

  // The places from i up to n.
  ghost function From(i: nat, n: nat): set<nat>
    decreases n - i
  {
    if i >= n then {} else {i} + From(i + 1, n)
  }

  predicate RestInRange(members: seq<Member>, vals: seq<Value>, i: nat)
    requires |vals| == |members|
  {
    forall j :: i <= j < |members| ==> InRange(members[j].kind, vals[j])
  }

  predicate ItemsInRange(item: seq<Member>, items: seq<Value>, i: nat) {
    forall j :: i <= j < |items| ==> items[j].Record? && AllInRange(item, items[j].fields)
  }

  // ----- values -----

  // The text of a value reads back as that value when every range is met, and not at all otherwise.
  lemma {:induction false} ShowReads(k: Kind, v: Value, was: Value, rest: Bytes)
    requires Typed(k, v) && Sound(k) && Stops(rest)
    ensures ParseInto(k, was, Show(k, v) + rest) == if InRange(k, v) then Done(v, |Show(k, v)|) else Fail
    decreases k, 1
  {
    hide String, Integer, Unsigned, Boolean, ParseRecord, ShowMembers, Quoted, Decimal, AllTyped, AllSound, AllInRange, Stops;
    match k
    case TextKind => StringReads(v.text, rest);
    case IntKind => IntegerReads(v.n, rest);
    case UintKind => UnsignedReads(v.n, rest);
    case SmallKind(_) => IntegerReads(v.n, rest);
    case FlagKind => BooleanReads(v.on, rest);
    case RecordKind(members) => RecordReads(members, v.fields, Fields(members, was), rest);
    case ListKind(item, blank, size) => ListReads(item, v.items, blank, was, rest);
  }

  lemma {:induction false} RecordReads(members: seq<Member>, fields: seq<Value>, vals: seq<Value>, rest: Bytes)
    requires AllTyped(members, fields) && AllSound(members) && |vals| == |members|
    ensures var text := "{" + ShowMembers(members, fields, 0);
            ParseRecord(members, vals, text + rest) ==
            if AllInRange(members, fields) then Done(Loaded(fields, From(0, |members|)), |text|) else Fail
    decreases members, 1
  {
    hide ShowMembers, ParseMembers, AllTyped, AllSound, AllPass, Open, From, InRange;
    SoundIsNotEmpty(members);
    var inner := ShowMembers(members, fields, 0);
    ShowStarts(members, fields, 0);
    Associative("{", inner, rest);
    OpenReads('{', '}', inner + rest);
    MembersRead(members, fields, vals, {}, 0, rest);
    assert {} + From(0, |members|) == From(0, |members|);
  }

  lemma {:induction false} SoundIsNotEmpty(members: seq<Member>)
    requires AllSound(members)
    ensures members != []
  {
  }

  lemma {:induction false} ShowStarts(members: seq<Member>, fields: seq<Value>, i: nat)
    requires AllTyped(members, fields) && i < |members|
    ensures ShowMembers(members, fields, i) != [] && ShowMembers(members, fields, i)[0] == '\"'
  {
  }

  lemma {:induction false} MembersRead(members: seq<Member>, fields: seq<Value>, vals: seq<Value>, seen: set<nat>, i: nat, rest: Bytes)
    requires AllTyped(members, fields) && AllSound(members) && |vals| == |members| && i < |members|
    requires vals[..i] == fields[..i]
    ensures var text := ShowMembers(members, fields, i);
            ParseMembers(members, vals, seen, text + rest) ==
            if RestInRange(members, fields, i) then Done(Loaded(fields, seen + From(i, |members|)), |text|) else Fail
    decreases members, 0, |members| - i, 0
  {
    hide AllTyped, AllSound, RestInRange, ParseMembers, NextMember, ShowMembers, MoreText, From, InRange, Show, ParseInto, Typed, Sound, Stops;
    MemberFits(members, fields, i);
    TailStops(members, fields, i, rest);
    TailAt(members, fields, i, rest);
    ShowReads(members[i].kind, fields[i], vals[i], MoreText(members, fields, i) + rest);
    MemberReads(members, fields, vals, seen, i, rest);
    if InRange(members[i].kind, fields[i]) {
      var s, tail := TextFrom(members, fields, i, rest), TailFrom(members, fields, i, rest);
      UpdatedPrefix(vals, fields, i);
      NextReads(members, fields, vals[i := fields[i]], seen + {i}, s, |s| - |tail|, i, rest);
      SeenGrows(seen, i, |members|);
    }
  }

  // The text from the i-th member on, from its value on, and from behind its value on.
  function TextFrom(members: seq<Member>, fields: seq<Value>, i: nat, rest: Bytes): Bytes
    requires AllTyped(members, fields) && i < |members|
  {
    ShowMembers(members, fields, i) + rest
  }

  function ValueFrom(members: seq<Member>, fields: seq<Value>, i: nat, rest: Bytes): Bytes
    requires AllTyped(members, fields) && i < |members|
  {
    Show(members[i].kind, fields[i]) + TailFrom(members, fields, i, rest)
  }

  function TailFrom(members: seq<Member>, fields: seq<Value>, i: nat, rest: Bytes): Bytes
    requires AllTyped(members, fields) && i < |members|
  {
    MoreText(members, fields, i) + rest
  }

  lemma {:induction false} KeyAt(members: seq<Member>, fields: seq<Value>, i: nat, rest: Bytes)
    requires AllTyped(members, fields) && i < |members|
    ensures var s, u := TextFrom(members, fields, i, rest), |Quoted(members[i].name)| + 1;
            Key(s) == Done(members[i].name, u) && s[u..] == ValueFrom(members, fields, i, rest)
  {
    hide AllTyped, Show, ShowMembers, MoreText, Quoted, Key;
    ShowIs(members, fields, i, rest);
    KeyReads(members[i].name, ValueFrom(members, fields, i, rest));
  }

  // The value of the i-th member, read from where it starts.
  predicate ValueReads(members: seq<Member>, fields: seq<Value>, was: Value, i: nat, rest: Bytes)
    requires AllTyped(members, fields) && i < |members| == |fields|
  {
    var k, v, t := members[i].kind, fields[i], ValueFrom(members, fields, i, rest);
    ParseInto(k, was, t) == if InRange(k, v) then Done(v, |t| - |TailFrom(members, fields, i, rest)|) else Fail
  }

  lemma {:induction false} TailAt(members: seq<Member>, fields: seq<Value>, i: nat, rest: Bytes)
    requires AllTyped(members, fields) && i < |members|
    ensures var t, tail := ValueFrom(members, fields, i, rest), TailFrom(members, fields, i, rest);
            && |t| - |tail| == |Show(members[i].kind, fields[i])| && t[|t| - |tail|..] == tail
  {
    hide Typed, Show, MoreText;
    DropFirst(Show(members[i].kind, fields[i]), TailFrom(members, fields, i, rest));
  }

  lemma {:induction false} MemberReads(members: seq<Member>, fields: seq<Value>, vals: seq<Value>, seen: set<nat>, i: nat, rest: Bytes)
    requires AllTyped(members, fields) && AllSound(members) && |vals| == |members| == |fields| && i < |members|
    requires ValueReads(members, fields, vals[i], i, rest)
    ensures var s, tail := TextFrom(members, fields, i, rest), TailFrom(members, fields, i, rest);
            var n := |s| - |tail|;
            && 0 <= n && s[n..] == tail
            && ParseMembers(members, vals, seen, s) ==
               if InRange(members[i].kind, fields[i]) then NextMember(members, vals[i := fields[i]], seen + {i}, s, n) else Fail
  {
    hide AllTyped, AllSound, TextFrom, TailFrom, ValueFrom, ParseInto, ParseMembers, NextMember, IndexOf, Key, Show, Quoted, InRange, Typed, Sound, RestInRange;
    MemberFits(members, fields, i);
    KeyAt(members, fields, i, rest);
    TailAt(members, fields, i, rest);
    var t, tail := ValueFrom(members, fields, i, rest), TailFrom(members, fields, i, rest);
    MemberStep(members, vals, seen, TextFrom(members, fields, i, rest), members[i].name, i, t, |t| - |tail|, tail);
  }

  lemma {:induction false} DropFirst(a: Bytes, b: Bytes)
    ensures (a + b)[|a|..] == b
  {
  }

  lemma {:induction false} ShowIs(members: seq<Member>, fields: seq<Value>, i: nat, rest: Bytes)
    requires AllTyped(members, fields) && i < |members|
    ensures var name, shown, more := Quoted(members[i].name), Show(members[i].kind, fields[i]), MoreText(members, fields, i);
            && ShowMembers(members, fields, i) == name + ":" + shown + more
            && ShowMembers(members, fields, i) + rest == name + (":" + (shown + (more + rest)))
  {
    var name, shown, more := Quoted(members[i].name), Show(members[i].kind, fields[i]), MoreText(members, fields, i);
    assert ShowMembers(members, fields, i) == name + ":" + shown + more;
    hide ShowMembers, Show, MoreText, Quoted, AllTyped;
    Regroup(name, ":", shown, more, rest);
  }

  lemma {:induction false} UpdatedPrefix<T>(a: seq<T>, b: seq<T>, i: nat)
    requires |a| == |b| && i < |a| && a[..i] == b[..i]
    ensures a[i := b[i]][..i + 1] == b[..i + 1]
  {
    assert a[i := b[i]][..i] == a[..i];
    assert b[..i + 1] == b[..i] + [b[i]];
  }

  lemma {:induction false} DropTwice(s: Bytes, u: nat, m: nat, tail: Bytes)
    requires u <= |s| && m <= |s[u..]| && s[u..][m..] == tail
    ensures u + m <= |s| && s[u + m..] == tail
  {
  }

  lemma {:induction false} MemberFits(members: seq<Member>, fields: seq<Value>, i: nat)
    requires AllTyped(members, fields) && AllSound(members) && i < |members|
    ensures |fields| == |members|
    ensures Typed(members[i].kind, fields[i]) && Sound(members[i].kind) && IndexOf(members, members[i].name) == i
    ensures RestInRange(members, fields, i) <==> InRange(members[i].kind, fields[i]) && RestInRange(members, fields, i + 1)
  {
    hide Typed, Sound, InRange, IndexOf;
  }

  lemma {:induction false} SeenGrows(seen: set<nat>, i: nat, n: nat)
    requires i < n
    ensures seen + {i} + From(i + 1, n) == seen + From(i, n)
  {
  }

  // What stands behind the i-th member.
  function MoreText(members: seq<Member>, vals: seq<Value>, i: nat): Bytes
    requires AllTyped(members, vals) && i < |members|
  {
    if i + 1 < |members| then "," + ShowMembers(members, vals, i + 1) else "}"
  }

  lemma {:induction false} TailStops(members: seq<Member>, fields: seq<Value>, i: nat, rest: Bytes)
    requires AllTyped(members, fields) && i < |members|
    ensures Stops(MoreText(members, fields, i) + rest)
  {
  }

  lemma {:induction false} Regroup(a: Bytes, b: Bytes, c: Bytes, d: Bytes, e: Bytes)
    ensures a + b + c + d + e == a + (b + (c + (d + e)))
  {
  }

  // One round of the member loop: the key is the i-th name, its value takes m bytes of the text t
  // behind the colon, and `tail` is what is left.
  lemma {:induction false} MemberStep(members: seq<Member>, vals: seq<Value>, seen: set<nat>, s: Bytes, name: Bytes, i: nat,
                   t: Bytes, m: nat, tail: Bytes)
    requires |vals| == |members| && i < |members| && IndexOf(members, name) == i
    requires Key(s).Done? && Key(s).value == name && s[Key(s).used..] == t && m <= |t| && t[m..] == tail
    requires ParseInto(members[i].kind, vals[i], t).Done? ==> ParseInto(members[i].kind, vals[i], t).used == m
    ensures var r := ParseInto(members[i].kind, vals[i], t);
            && |s| >= |tail| && s[|s| - |tail|..] == tail
            && ParseMembers(members, vals, seen, s) ==
               if r.Fail? then Fail else NextMember(members, vals[i := r.value], seen + {i}, s, |s| - |tail|)
  {
    hide ParseInto, NextMember, IndexOf, Key;
    DropTwice(s, Key(s).used, m, tail);
  }

  lemma {:induction false} NextReads(members: seq<Member>, fields: seq<Value>, after: seq<Value>, seen: set<nat>,
                                     s: Bytes, n: nat, i: nat, rest: Bytes)
    requires AllTyped(members, fields) && AllSound(members) && |after| == |members| && i < |members|
    requires after[..i + 1] == fields[..i + 1]
    requires n <= |s| && s[n..] == MoreText(members, fields, i) + rest
    ensures NextMember(members, after, seen, s, n) ==
            if RestInRange(members, fields, i + 1)
            then Done(Loaded(fields, seen + From(i + 1, |members|)), n + |MoreText(members, fields, i)|) else Fail
    decreases members, 0, |members| - i - 1, 1
  {
    hide Typed, InRange, Sound, ParseMembers, ShowMembers;
    if i + 1 == |members| {
      TurnsRead('}', rest);
      assert after == fields;
      assert seen + From(i + 1, |members|) == seen;
    } else {
      var inner := ShowMembers(members, fields, i + 1);
      Associative(",", inner, rest);
      TurnsRead('}', inner + rest);
      assert s[n + 1..] == s[n..][1..] == inner + rest;
      MembersRead(members, fields, after, seen, i + 1, rest);
    }
  }

  // ----- arrays -----

  lemma {:induction false} ListReads(item: seq<Member>, items: seq<Value>, blank: seq<Value>, was: Value, rest: Bytes)
    requires AllSound(item) && items != [] && forall x :: x in items ==> x.Record? && AllTyped(item, x.fields)
    ensures var k := ListKind(item, blank, |items|);
            var text := "[" + ShowItems(item, items, 0);
            ParseInto(k, was, text + rest) == if ItemsInRange(item, items, 0) then Done(List(items), |text|) else Fail
    decreases item, 3
  {
    hide ParseItems, AllTyped, AllSound;
    var inner := ShowItems(item, items, 0);
    Associative("[", inner, rest);
    OpenReads('[', ']', inner + rest);
    ItemsRead(item, items, Copies(blank, |items|), 0, rest);
  }

  function MoreItems(item: seq<Member>, items: seq<Value>, i: nat): Bytes
    requires i < |items| && forall x :: x in items ==> x.Record? && AllTyped(item, x.fields)
  {
    if i + 1 < |items| then "," + ShowItems(item, items, i + 1) else "]"
  }

  lemma {:induction false} ItemsRead(item: seq<Member>, items: seq<Value>, list: seq<Value>, i: nat, rest: Bytes)
    requires AllSound(item) && i < |items| == |list| && list[..i] == items[..i]
    requires forall x :: x in items ==> x.Record? && AllTyped(item, x.fields)
    ensures var text := ShowItems(item, items, i);
            ParseItems(item, list, i, text + rest) == if ItemsInRange(item, items, i) then Done(items, |text|) else Fail
    decreases item, 2, |items| - i, 0
  {
    assert ShowItems(item, items, i) == "{" + ShowMembers(item, items[i].fields, 0) + MoreItems(item, items, i);
    assert AllTyped(item, items[i].fields);
    hide AllTyped, AllSound, ShowMembers, ShowItems, ParseItems, ParseRecord, Fields, MoreItems, ItemsInRange, AllInRange, NextItem;
    var fields := items[i].fields;
    var shown := "{" + ShowMembers(item, fields, 0);
    var more := MoreItems(item, items, i);
    var s := shown + (more + rest);
    Associative(shown, more, rest);
    RecordReads(item, fields, Fields(item, list[i]), more + rest);
    ItemStep(item, list, i, s);
    ItemRange(item, items, i);
    if AllInRange(item, fields) {
      var after := list[i := Record(fields)];
      UpdatedPrefix(list, items, i);
      assert s[|shown|..] == more + rest;
      NextItemReads(item, items, after, s, |shown|, i, rest);
    }
  }

  lemma {:induction false} ItemRange(item: seq<Member>, items: seq<Value>, i: nat)
    requires i < |items| && items[i].Record?
    ensures ItemsInRange(item, items, i) <==> AllInRange(item, items[i].fields) && ItemsInRange(item, items, i + 1)
  {
    hide AllInRange;
  }

  // Behind an item, n bytes on.
  function NextItem(item: seq<Member>, list: seq<Value>, count: nat, s: Bytes, n: nat): Parse<seq<Value>>
    requires n <= |s|
  {
    match Turns(s[n..], ']')
    case Bad => Fail
    case Close(used) => Done(list, n + used)
    case More(used) => After(n + used, ParseItems(item, list, count, s[n + used..]))
  }

  lemma {:induction false} ItemStep(item: seq<Member>, list: seq<Value>, i: nat, s: Bytes)
    requires i < |list|
    ensures var r := ParseRecord(item, Fields(item, list[i]), s);
            ParseItems(item, list, i, s) ==
            if r.Fail? then Fail else NextItem(item, list[i := Record(r.value.vals)], i + 1, s, r.used)
  {
    hide ParseRecord, Fields;
  }

  lemma {:induction false} NextItemReads(item: seq<Member>, items: seq<Value>, after: seq<Value>,
                                         s: Bytes, n: nat, i: nat, rest: Bytes)
    requires AllSound(item) && i < |items| == |after| && after[..i + 1] == items[..i + 1]
    requires forall x :: x in items ==> x.Record? && AllTyped(item, x.fields)
    requires n <= |s| && s[n..] == MoreItems(item, items, i) + rest
    ensures NextItem(item, after, i + 1, s, n) ==
            if ItemsInRange(item, items, i + 1) then Done(items, n + |MoreItems(item, items, i)|) else Fail
    decreases item, 2, |items| - i - 1, 1
  {
    hide AllTyped, AllSound, AllInRange, ShowMembers, ShowItems, ParseItems;
    if i + 1 == |items| {
      TurnsRead(']', rest);
      assert after == items;
    } else {
      var inner := ShowItems(item, items, i + 1);
      Associative(",", inner, rest);
      TurnsRead(']', inner + rest);
      assert s[n + 1..] == s[n..][1..] == inner + rest;
      ItemsRead(item, items, after, i + 1, rest);
    }
  }

  // ----- the table of AppConfig -----

  predicate NamesDiffer(members: seq<Member>) {
    forall i, j :: 0 <= i < j < |members| ==> members[i].name != members[j].name
  }

  lemma {:induction false} IndexOfFinds(members: seq<Member>, i: nat)
    requires NamesDiffer(members) && i < |members|
    ensures IndexOf(members, members[i].name) == i
  {
    var n := |members| - 1;
    if i < n {
      IndexOfFinds(members[..n], i);
      assert members[..n][i] == members[i];
    }
  }

  // Tables whose members are numbers, flags and texts.
  predicate Flat(members: seq<Member>) {
    forall m :: m in members ==> !m.kind.RecordKind? && !m.kind.ListKind?
  }

  lemma {:induction false} FlatIsSound(members: seq<Member>)
    requires members != [] && NamesDiffer(members) && Flat(members)
    ensures AllSound(members)
  {
    forall i | 0 <= i < |members| ensures IndexOf(members, members[i].name) == i && Sound(members[i].kind) {
      IndexOfFinds(members, i);
      assert members[i] in members;
    }
  }

  lemma ModemIsSound()
    ensures AllSound(Modem())
  {
    hide AllSound, Sound, IndexOf;
    FlatIsSound(Modem());
  }

  lemma ChannelIsSound()
    ensures AllSound(Channel())
  {
    hide AllSound, Sound, IndexOf;
    FlatIsSound(Channel());
  }

  lemma EmailIsSound()
    ensures AllSound(Email())
  {
    hide AllSound, Sound, IndexOf;
    FlatIsSound(Email());
  }

  lemma StorageIsSound()
    ensures AllSound(Storage())
  {
    hide AllSound, Sound, IndexOf;
    FlatIsSound(Storage());
  }

  lemma WifiIsSound()
    ensures AllSound(Wifi())
  {
    hide AllSound, Sound, IndexOf;
    FlatIsSound(Wifi());
  }

  lemma WebIsSound()
    ensures AllSound(Web())
  {
    hide AllSound, Sound, IndexOf;
    FlatIsSound(Web());
  }

  lemma TimeIsSound()
    ensures AllSound(Time())
  {
    hide AllSound, Sound, IndexOf;
    FlatIsSound(Time());
  }

  lemma KeepaliveIsSound()
    ensures AllSound(Keepalive())
  {
    hide AllSound, Sound, IndexOf;
    FlatIsSound(Keepalive());
  }

  lemma CellularIsSound()
    ensures AllSound(Cellular())
  {
    hide AllSound, Sound, IndexOf;
    FlatIsSound(Cellular());
  }

  lemma TaskIsSound()
    ensures AllSound(Task())
  {
    hide AllSound, Sound, IndexOf, Task, NamesDiffer, Flat;
    TaskNamesDiffer();
    TaskIsFlat();
    FlatIsSound(Task());
  }

  lemma TaskNamesDiffer()
    ensures NamesDiffer(Task())
  {
  }

  lemma TaskIsFlat()
    ensures Task() != [] && Flat(Task())
  {
  }

  // Names differ when their lengths or first bytes do.
  function Mark(name: Bytes): nat {
    if name == [] then 0 else 256 * |name| + name[0] as int
  }

  const ROOT_MARKS: seq<nat> :=
    [3443, 1389, 2162, 2657, 3950, 3174, 4451, 2928, 3184, 1381, 1907, 1143, 887, 1140, 2411, 2147, 3699]

  lemma {:induction false} RootMark(i: nat)
    requires i < 17
    ensures |Root()| == |ROOT_MARKS| == 17 && Mark(Root()[i].name) == ROOT_MARKS[i]
  {
    hide Inits, Copies, Modem, Channel, Email, Storage, Wifi, Web, Time, Keepalive, Cellular, Task;
  }

  lemma {:induction false} MarksDiffer(i: nat, j: nat)
    requires i < j < 17
    ensures ROOT_MARKS[i] != ROOT_MARKS[j]
  {
  }

  lemma RootNamesDiffer()
    ensures NamesDiffer(Root())
  {
    hide Root, Mark;
    RootMark(0);
    forall i, j | 0 <= i < j < 17 ensures Root()[i].name != Root()[j].name {
      RootMark(i);
      RootMark(j);
      MarksDiffer(i, j);
    }
  }

  lemma RootIsSound()
    ensures AllSound(Root())
  {
    hide IndexOf, Modem, Channel, Email, Storage, Wifi, Web, Time, Keepalive, Cellular, Task, Inits, Copies, AllSound, NamesDiffer;
    RootNamesDiffer();
    ModemIsSound();
    ChannelIsSound();
    EmailIsSound();
    StorageIsSound();
    WifiIsSound();
    WebIsSound();
    TimeIsSound();
    KeepaliveIsSound();
    CellularIsSound();
    TaskIsSound();
    var members := Root();
    forall i | 0 <= i < |members| ensures IndexOf(members, members[i].name) == i && Sound(members[i].kind) {
      IndexOfFinds(members, i);
    }
    SoundIs(members);
  }

  lemma {:induction false} SoundIs(members: seq<Member>)
    requires members != [] && forall i :: 0 <= i < |members| ==> IndexOf(members, members[i].name) == i && Sound(members[i].kind)
    ensures AllSound(members)
  {
  }

  // ----- the whole text -----

  lemma {:induction false} VersionedRange(members: seq<Member>, vals: seq<Value>)
    requires |vals| == |members| > 0 && members[0].kind == IntKind && members[0].check == Free
    ensures AllInRange(members, Versioned(vals)) <==> AllInRange(members, vals)
  {
    hide InRange, Passes;
    var after := Versioned(vals);
    assert forall i :: 0 < i < |members| ==> after[i] == vals[i];
    assert InRange(members[0].kind, vals[0]) && InRange(members[0].kind, after[0]) by { FirstIsFree(members[0], vals[0], after[0]); }
    assert Passes(members[0].check, vals[0]) && Passes(members[0].check, after[0]) by { FirstIsFree(members[0], vals[0], after[0]); }
  }

  lemma {:induction false} FirstIsFree(m: Member, a: Value, b: Value)
    requires m.kind == IntKind && m.check == Free
    ensures InRange(m.kind, a) && InRange(m.kind, b) && Passes(m.check, a) && Passes(m.check, b)
  {
  }

  lemma {:induction false} FromCovers(i: nat, n: nat)
    requires i < n
    ensures i in From(i, n)
  {
  }

  lemma {:induction false} WholeText(text: Bytes, vals: seq<Value>, seen: set<nat>)
    requires |vals| == |Root()| && 0 in seen && vals != [] && vals[0] == Int(SCHEMA_VERSION)
    requires ParseRecord(Root(), Inits(Root()), text) == Done(Loaded(vals, seen), |text|)
    ensures ParseConfig(text) == if |text| <= MAX_BYTES then Accepted(AppConfig(vals, seen)) else Rejected
  {
    hide Root, ParseRecord;
    assert text[|text|..] == "";
  }

  lemma {:induction false} NoText(text: Bytes)
    requires ParseRecord(Root(), Inits(Root()), text) == Fail
    ensures ParseConfig(text) == Rejected
  {
    hide Root, ParseRecord;
  }

  // A configuration comes back from its own text with every value as it was and every member seen; it
  // does so exactly when each value is in the range that the parser asks for and the text is at most
  // one mebibyte. Otherwise the text is rejected.
  lemma {:induction false} RoundTrip(c: AppConfig)
    requires AllTyped(Root(), c.vals)
    ensures c.vals != []
    ensures ParseConfig(Serialize(c)) ==
            if AllInRange(Root(), c.vals) && |Serialize(c)| <= MAX_BYTES
            then Accepted(AppConfig(Versioned(c.vals), From(0, |Root()|))) else Rejected
  {
    hide Root, AllTyped, AllSound, AllInRange, ShowMembers, ParseRecord, ParseConfig, From;
    RootStarts();
    RootIsSound();
    VersionFits(c.vals);
    LengthIs(Root(), c.vals);
    VersionedRange(Root(), c.vals);
    var text := Serialize(c);
    RecordReads(Root(), Versioned(c.vals), Inits(Root()), "");
    assert text + "" == text;
    FromCovers(0, |Root()|);
    if AllInRange(Root(), c.vals) { WholeText(text, Versioned(c.vals), From(0, |Root()|)); } else { NoText(text); }
  }

  lemma {:induction false} LengthIs(members: seq<Member>, vals: seq<Value>)
    requires AllTyped(members, vals)
    ensures |vals| == |members|
  {
  }
}
