// The text of a configuration piece by piece: its members in the order of the table, without white space,
// every byte of a string by itself or by its escape (core/src/text.cpp:25-44, core/src/config.cpp:601-732).
module ConfigText {
  import opened Text
  import opened Lines
  import opened ConfigSchema
  import opened ConfigParse

  // ----- what is written -----

  // A byte in a string: a letter escape, four hex digits for any other control character, or itself.
  predicate IsByteText(t: Bytes, c: Byte) {
    if c == '\\' then t == "\\\\"
    else if c == '"' then t == "\\\""
    else if c == '\n' then t == "\\n"
    else if c == '\r' then t == "\\r"
    else if c == '\t' then t == "\\t"
    else if c as int < 0x20 then
      |t| == 6 && t[..4] == "\\u00" && t[4] == (if c as int < 16 then '0' else '1') && t[5] == "0123456789abcdef"[c as int % 16]
    else t == [c]
  }

  ghost predicate IsStringText(t: Bytes, s: Bytes) {
    exists pieces: seq<Bytes> ::
      t == "\"" + Join(pieces) + "\"" && |pieces| == |s| && forall i :: 0 <= i < |s| ==> IsByteText(pieces[i], s[i])
  }

  // Decimal digits without a zero in front, behind a minus for a negative number.
  predicate IsIntText(t: Bytes, n: int) {
    var digits := if n < 0 && t != "" then t[1..] else t;
    && (n < 0 ==> t != "" && t[0] == '-')
    && digits != "" && AllDigits(digits) && Number(digits) == (if n < 0 then -n else n)
    && (digits[0] == '0' ==> n == 0 && |digits| == 1)
  }

  function Pairs(keys: seq<Bytes>, values: seq<Bytes>): (r: seq<Bytes>)
    requires |keys| == |values|
    ensures |r| == |keys| && forall i :: 0 <= i < |r| ==> r[i] == keys[i] + ":" + values[i]
  {
    if keys == [] then [] else [keys[0] + ":" + values[0]] + Pairs(keys[1..], values[1..])
  }

  ghost predicate IsText(k: Kind, v: Value, t: Bytes)
    decreases k, 1
  {
    match v
    case Text(s) => IsStringText(t, s)
    case Int(n) => IsIntText(t, n)
    case Flag(on) => t == if on then "true" else "false"
    case Record(fields) => k.RecordKind? && IsObject(k.members, fields, t)
    case List(items) =>
      k.ListKind? && exists pieces: seq<Bytes> ::
        && t == "[" + JoinOn(pieces, ',') + "]" && |pieces| == |items|
        && forall i :: 0 <= i < |items| ==> items[i].Record? && IsObject(k.item, items[i].fields, pieces[i])
  }

  // Each member once, by name and in order, with a comma between two of them.
  ghost predicate IsObject(members: seq<Member>, vals: seq<Value>, t: Bytes)
    decreases members, 0
  {
    exists keys: seq<Bytes>, values: seq<Bytes> ::
      && |keys| == |values| == |members| == |vals|
      && t == "{" + JoinOn(Pairs(keys, values), ',') + "}"
      && forall i :: 0 <= i < |members| ==> IsStringText(keys[i], members[i].name) && IsText(members[i].kind, vals[i], values[i])
  }

  // ----- it is so written -----

  lemma {:induction false} ByteIs(c: Byte)
    ensures IsByteText(EscapeByte(c), c)
  {
  }

  lemma {:induction false} EscapedIs(s: Bytes) returns (pieces: seq<Bytes>)
    ensures Escaped(s) == Join(pieces) && |pieces| == |s| && forall i :: 0 <= i < |s| ==> IsByteText(pieces[i], s[i])
  {
    hide IsByteText, EscapeByte;
    if s == [] {
      pieces := [];
    } else {
      var rest := EscapedIs(s[1..]);
      ByteIs(s[0]);
      pieces := [EscapeByte(s[0])] + rest;
      JoinAppends([EscapeByte(s[0])], rest);
      JoinOnly(EscapeByte(s[0]));
    }
  }

  lemma {:induction false} JoinOnly(piece: Bytes)
    ensures Join([piece]) == piece
  {
    JoinOne([], piece);
    assert [] + [piece] == [piece];
  }

  lemma {:induction false} QuotedIs(s: Bytes)
    ensures IsStringText(Quoted(s), s)
  {
    hide IsByteText;
    var pieces := EscapedIs(s);
  }

  lemma {:induction false} SignedIs(n: int)
    ensures IsIntText(Signed(n), n)
  {
    var m := if n < 0 then -n else n;
    DecimalIsNumber(m);
    DecimalHasNoLeadingZero(m);
  }

  lemma {:induction false} JoinOnFirst(first: Bytes, rest: seq<Bytes>)
    ensures JoinOn([first] + rest, ',') == first + if rest == [] then "" else "," + JoinOn(rest, ',')
  {
    if rest == [] {
      JoinOnLast([], first, ',');
      assert [] + [first] == [first];
    } else {
      JoinCons(first, rest, ',');
      Associative(first, ",", JoinOn(rest, ','));
    }
  }

  // The members from the i-th on.
  ghost predicate AreMembers(members: seq<Member>, vals: seq<Value>, i: nat, keys: seq<Bytes>, values: seq<Bytes>) {
    && i <= |members| == |vals| && |keys| == |values| == |members| - i
    && forall j :: i <= j < |members| ==>
         IsStringText(keys[j - i], members[j].name) && IsText(members[j].kind, vals[j], values[j - i])
  }

  lemma {:induction false} MembersAre(members: seq<Member>, vals: seq<Value>, i: nat) returns (keys: seq<Bytes>, values: seq<Bytes>)
    requires AllTyped(members, vals) && i <= |members|
    ensures AreMembers(members, vals, i, keys, values)
    ensures ShowMembers(members, vals, i) == JoinOn(Pairs(keys, values), ',') + "}"
    decreases members, 0, |members| - i
  {
    hide AllTyped, Typed, IsStringText, IsText, Quoted, Show, JoinOn, AreMembers, ShowMembers, Pairs;
    TypedAt(members, vals);
    if i == |members| {
      keys, values := [], [];
      NoMembers(members, vals);
    } else {
      var key, value := Quoted(members[i].name), Show(members[i].kind, vals[i]);
      ShowIs(members[i].kind, vals[i]);
      QuotedIs(members[i].name);
      var laterKeys, laterValues := MembersAre(members, vals, i + 1);
      keys, values := [key] + laterKeys, [value] + laterValues;
      OneMember(members, vals, i, key, value, laterKeys, laterValues);
      ShowStep(members, vals, i);
      PairsFirst(key, value, laterKeys, laterValues);
      JoinStep(key + ":" + value, Pairs(laterKeys, laterValues), "}");
    }
  }

  lemma {:induction false} TypedAt(members: seq<Member>, vals: seq<Value>)
    requires AllTyped(members, vals)
    ensures |vals| == |members| && forall i :: 0 <= i < |members| ==> Typed(members[i].kind, vals[i])
  {
    hide Typed;
  }

  lemma {:induction false} NoMembers(members: seq<Member>, vals: seq<Value>)
    requires AllTyped(members, vals)
    ensures AreMembers(members, vals, |members|, [], [])
    ensures ShowMembers(members, vals, |members|) == JoinOn(Pairs([], []), ',') + "}"
  {
    hide Typed, IsStringText, IsText;
  }

  lemma {:induction false} ShowStep(members: seq<Member>, vals: seq<Value>, i: nat)
    requires AllTyped(members, vals) && i < |members| == |vals| && Typed(members[i].kind, vals[i])
    ensures ShowMembers(members, vals, i) ==
            Quoted(members[i].name) + ":" + Show(members[i].kind, vals[i]) +
            if i + 1 < |members| then "," + ShowMembers(members, vals, i + 1) else "}"
  {
    hide AllTyped, Typed, Quoted, Show;
  }

  lemma {:induction false} OneMember(members: seq<Member>, vals: seq<Value>, i: nat, key: Bytes, value: Bytes, keys: seq<Bytes>, values: seq<Bytes>)
    requires i < |members| == |vals|
    requires IsStringText(key, members[i].name) && IsText(members[i].kind, vals[i], value)
    requires AreMembers(members, vals, i + 1, keys, values)
    ensures AreMembers(members, vals, i, [key] + keys, [value] + values) && |keys| == |values| == |members| - i - 1
  {
    hide IsStringText, IsText;
    var allKeys, allValues := [key] + keys, [value] + values;
    forall j | i <= j < |members| ensures IsStringText(allKeys[j - i], members[j].name) && IsText(members[j].kind, vals[j], allValues[j - i]) {
      if j > i {
        assert allKeys[j - i] == keys[j - (i + 1)] && allValues[j - i] == values[j - (i + 1)];
      }
    }
  }

  // One more piece in front of the others, before the closing bracket.
  lemma {:induction false} JoinStep(first: Bytes, rest: seq<Bytes>, close: Bytes)
    ensures JoinOn([first] + rest, ',') + close == first + if rest == [] then close else "," + (JoinOn(rest, ',') + close)
  {
    hide JoinOn;
    JoinOnFirst(first, rest);
    if rest != [] {
      var more := JoinOn(rest, ',');
      Associative(first, "," + more, close);
      Associative(",", more, close);
    }
  }

  lemma {:induction false} PairsFirst(key: Bytes, value: Bytes, keys: seq<Bytes>, values: seq<Bytes>)
    requires |keys| == |values|
    ensures Pairs([key] + keys, [value] + values) == [key + ":" + value] + Pairs(keys, values)
  {
    assert ([key] + keys)[1..] == keys && ([value] + values)[1..] == values;
  }

  lemma {:induction false} ObjectIs(members: seq<Member>, vals: seq<Value>)
    requires AllTyped(members, vals)
    ensures IsObject(members, vals, "{" + ShowMembers(members, vals, 0))
    decreases members, 1
  {
    hide AllTyped, IsStringText, IsText, ShowMembers, JoinOn;
    var keys, values := MembersAre(members, vals, 0);
    Associative("{", JoinOn(Pairs(keys, values), ','), "}");
  }

  // The items from the i-th on.
  ghost predicate AreItems(item: seq<Member>, items: seq<Value>, i: nat, pieces: seq<Bytes>, t: Bytes) {
    && i <= |items| && |pieces| == |items| - i && t == JoinOn(pieces, ',') + "]"
    && forall j :: 0 <= j < |pieces| ==> items[i + j].Record? && IsObject(item, items[i + j].fields, pieces[j])
  }

  lemma {:induction false} ItemsAre(item: seq<Member>, items: seq<Value>, i: nat) returns (pieces: seq<Bytes>)
    requires i <= |items| && forall x :: x in items ==> x.Record? && AllTyped(item, x.fields)
    ensures AreItems(item, items, i, pieces, ShowItems(item, items, i))
    decreases item, 2, |items| - i
  {
    hide AllTyped, IsObject, ShowMembers, JoinOn;
    if i == |items| {
      pieces := [];
      NoItems();
    } else {
      assert items[i] in items;
      var piece := "{" + ShowMembers(item, items[i].fields, 0);
      ObjectIs(item, items[i].fields);
      var later := ItemsAre(item, items, i + 1);
      pieces := [piece] + later;
      JoinStep(piece, later, "]");
    }
  }

  lemma NoItems()
    ensures JoinOn([], ',') == ""
  {
  }

  lemma {:induction false} ShowIs(k: Kind, v: Value)
    requires Typed(k, v)
    ensures IsText(k, v, Show(k, v))
    decreases k, 3
  {
    hide AllTyped, IsStringText, IsObject, IsIntText, Quoted, Signed, ShowMembers, ShowItems, JoinOn;
    match v
    case Text(s) => QuotedIs(s);
    case Int(n) => SignedIs(n);
    case Flag(_) =>
    case Record(fields) => ObjectIs(k.members, fields);
    case List(items) =>
      var pieces := ItemsAre(k.item, items, 0);
      ListIs(k, items, pieces);
  }

  lemma {:induction false} ListIs(k: Kind, items: seq<Value>, pieces: seq<Bytes>)
    requires k.ListKind? && Typed(k, List(items))
    requires AreItems(k.item, items, 0, pieces, ShowItems(k.item, items, 0))
    ensures IsText(k, List(items), Show(k, List(items)))
  {
    hide AllTyped, IsObject, ShowItems, JoinOn;
    if items == [] { NoItems(); }
    Associative("[", JoinOn(pieces, ','), "]");
  }

  // The text of a configuration is the object of its members, the version being that of the code.
  lemma {:induction false} SerializeIs(c: AppConfig)
    requires AllTyped(Root(), c.vals)
    ensures c.vals != [] && IsObject(Root(), [Int(1)] + c.vals[1..], Serialize(c))
  {
    hide Root, AllTyped, IsObject, ShowMembers;
    VersionFits(c.vals);
    ObjectIs(Root(), Versioned(c.vals));
    assert Versioned(c.vals) == [Int(1)] + c.vals[1..];
  }
}
