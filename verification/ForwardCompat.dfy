// A reader of version 1 passes over members it does not know (core/src/config.cpp): text of a newer
// writer with extra members is read as if they were not there.
module ForwardCompat {
  import opened Text
  import opened JsonText
  import opened ConfigSchema
  import opened ConfigParse
  import opened ConfigRanges
  import opened Locality

  // The text of a member whose key the table does not have: from the quote of the key to the last byte
  // of its value, which is all that skip_value takes, at the depth at which the parser calls it.
  predicate Unknown(table: seq<Member>, m: Bytes) {
    var s := m + ",";
    && Next(m, '\"')
    && Key(s).Done? && Key(s).used < |s| && IndexOf(table, Key(s).value) == |table|
    && Skip(s[Key(s).used..], 0).Done? && Skip(s[Key(s).used..], 0).used == |m| - Key(s).used
  }

  // Where it goes: in front of a member, behind the last one, or into an empty object.
  datatype Form = Front | Last | Lone

  function WithComma(form: Form, m: Bytes): Bytes {
    match form case Front => m + "," case Last => "," + m case Lone => m
  }

  function Insert(s: Bytes, at: nat, ins: Bytes): Bytes
    requires at <= |s|
  {
    s[..at] + ins + s[at..]
  }

  // ----- the places -----

  // Reading s, the parser comes to an object with this table and offset `at` is a place in it: the
  // start of a round of its member loop, the end of its last value, or the bracket that closes it
  // while it is empty.
  predicate InValue(k: Kind, was: Value, s: Bytes, at: nat, table: seq<Member>, form: Form)
    decreases |s|, 1
  {
    match k
    case RecordKind(members) => InRecord(members, Fields(members, was), s, at, table, form)
    case ListKind(item, blank, size) =>
      var o := Open(s, '[', ']');
      o.More? && o.used <= at && InItems(item, Copies(blank, size), 0, s[o.used..], at - o.used, table, form)
    case _ => false
  }

  predicate InRecord(members: seq<Member>, vals: seq<Value>, s: Bytes, at: nat, table: seq<Member>, form: Form)
    requires |vals| == |members|
    decreases |s|, 0
  {
    var o := Open(s, '{', '}');
    || (form == Lone && o.Close? && at == o.used - 1 && table == members)
    || (o.More? && o.used <= at && InMembers(members, vals, {}, s[o.used..], at - o.used, table, form))
  }

  predicate InMembers(members: seq<Member>, vals: seq<Value>, seen: set<nat>, s: Bytes, at: nat, table: seq<Member>, form: Form)
    requires |vals| == |members|
    decreases |s|, 2
  {
    || (form == Front && at == 0 && table == members)
    || (var key := Key(s);
        key.Done? &&
        var i := IndexOf(members, key.value);
        if i < |members| then
          var v := ParseInto(members[i].kind, vals[i], s[key.used..]);
          v.Done? &&
          (|| (key.used <= at && InValue(members[i].kind, vals[i], s[key.used..], at - key.used, table, form))
           || InNext(members, vals[i := v.value], seen + {i}, s, key.used + v.used, at, table, form))
        else
          var skipped := Skip(s[key.used..], 0);
          skipped.Done? && InNext(members, vals, seen, s, key.used + skipped.used, at, table, form))
  }

  predicate InNext(members: seq<Member>, vals: seq<Value>, seen: set<nat>, s: Bytes, n: nat, at: nat, table: seq<Member>, form: Form)
    requires |vals| == |members| && n <= |s|
    decreases |s|, 1
  {
    var turn := Turns(s[n..], '}');
    || (form == Last && turn.Close? && at == n && table == members)
    || (turn.More? && n + turn.used <= at
        && InMembers(members, vals, seen, s[n + turn.used..], at - n - turn.used, table, form))
  }

  predicate InItems(item: seq<Member>, list: seq<Value>, count: nat, s: Bytes, at: nat, table: seq<Member>, form: Form)
    decreases |s|, 1
  {
    count < |list| &&
    var v := ParseRecord(item, Fields(item, list[count]), s);
    v.Done? &&
    (|| InRecord(item, Fields(item, list[count]), s, at, table, form)
     || (var turn := Turns(s[v.used..], ']');
         && turn.More? && v.used + turn.used <= at
         && InItems(item, list[count := Record(v.value.vals)], count + 1, s[v.used + turn.used..], at - v.used - turn.used, table, form)))
  }

  // ----- text that is put in -----

  lemma {:induction false} InsertDrop(s: Bytes, at: nat, ins: Bytes, d: nat)
    requires d <= at <= |s|
    ensures d <= |Insert(s, at, ins)| && Insert(s, at, ins)[d..] == Insert(s[d..], at - d, ins)
  {
  }

  lemma {:induction false} DropInserted(s: Bytes, at: nat, ins: Bytes, n: nat)
    requires at <= n <= |s|
    ensures n + |ins| <= |Insert(s, at, ins)| && Insert(s, at, ins)[n + |ins|..] == s[n..]
  {
  }

  lemma {:induction false} InsertAlike(s: Bytes, at: nat, ins: Bytes, n: nat)
    requires n < at <= |s|
    ensures Alike(s, Insert(s, at, ins), n)
  {
  }

  // At the place itself the text goes on with a quiet byte instead of a quiet byte.
  lemma {:induction false} InsertEnough(s: Bytes, at: nat, ins: Bytes)
    requires at < |s| && Quiet(s[at]) && ins != [] && Quiet(ins[0])
    ensures Enough(s, Insert(s, at, ins), at)
  {
  }

  lemma {:induction false} TurnIsQuiet(s: Bytes, close: Byte)
    requires !Turns(s, close).Bad? && Quiet(close)
    ensures s != [] && Quiet(s[0])
  {
  }

  lemma {:induction false} OpenBehind(s: Bytes, at: nat, ins: Bytes, open: Byte, close: Byte)
    requires Open(s, open, close).More? && Open(s, open, close).used < at <= |s|
    ensures Open(Insert(s, at, ins), open, close) == Open(s, open, close)
  {
    hide Open, Insert;
    InsertAlike(s, at, ins, Open(s, open, close).used);
    OpenLocal(s, Insert(s, at, ins), open, close);
  }

  // Right behind the bracket and its blanks, a text that starts with a quote is the first item.
  lemma {:induction false} OpenAt(s: Bytes, at: nat, ins: Bytes, open: Byte, close: Byte)
    requires Next(ins, '\"') && close != '\"'
    requires !Open(s, open, close).Bad? && at == Looks(Open(s, open, close))
    ensures at <= |s| && Open(Insert(s, at, ins), open, close) == More(at)
  {
    hide Take, Blanks;
    var t, a := Insert(s, at, ins), Take(s, open).used;
    TakeInserted(s, at, ins, open);
    InsertDrop(s, at, ins, a);
    BlanksInserted(s[a..], at - a, ins);
    assert t[at] == '\"';
  }

  lemma {:induction false} TakeInserted(s: Bytes, at: nat, ins: Bytes, c: Byte)
    requires Take(s, c).Done? && Take(s, c).used <= at <= |s|
    ensures Take(Insert(s, at, ins), c) == Take(s, c)
  {
    hide Take, Insert;
    InsertAlike(s, at, ins, Take(s, c).used - 1);
    TakeLocal(s, Insert(s, at, ins), c);
  }

  lemma {:induction false} BlanksInserted(s: Bytes, at: nat, ins: Bytes)
    requires Blanks(s) == at && Next(ins, '\"')
    ensures at <= |s| && Blanks(Insert(s, at, ins)) == at
  {
    if s != [] && IsSpace(s[0]) {
      BlanksInserted(s[1..], at - 1, ins);
      InsertDrop(s, at, ins, 1);
    }
  }

  // ----- the unknown member itself -----

  // The member loop passes over it.
  lemma {:induction false} PassesOver(members: seq<Member>, vals: seq<Value>, seen: set<nat>, m: Bytes, rest: Bytes)
    requires |vals| == |members| && Unknown(members, m) && rest != [] && Quiet(rest[0])
    ensures ParseMembers(members, vals, seen, m + rest) == NextMember(members, vals, seen, m + rest, |m|)
  {
    hide Key, Skip, NextMember, IndexOf;
    var s, t := m + ",", m + rest;
    var k := Key(s).used;
    assert Enough(s, t, |m|);
    EnoughLess(s, t, |m|, k - 1);
    KeyLocal(s, t);
    EnoughDrop(s, t, |m|, k);
    SkipLocal(s[k..], t[k..], 0);
  }

  lemma {:induction false} PassesInFront(members: seq<Member>, vals: seq<Value>, seen: set<nat>, m: Bytes, rest: Bytes)
    requires |vals| == |members| && Unknown(members, m)
    ensures ParseMembers(members, vals, seen, m + "," + rest) == After(|m| + 1, ParseMembers(members, vals, seen, rest))
  {
    hide ParseMembers, Unknown;
    var t := "," + rest;
    PassesOver(members, vals, seen, m, t);
    assert m + "," + rest == m + t;
    assert (m + t)[|m|..] == t && (m + t)[|m| + 1..] == rest;
    assert Blanks(t) == 0 && t[0..] == t;
  }

  lemma {:induction false} PassesBehind(members: seq<Member>, vals: seq<Value>, seen: set<nat>, s: Bytes, n: nat, m: Bytes)
    requires |vals| == |members| && Unknown(members, m) && n <= |s| && Turns(s[n..], '}').Close?
    ensures var t := Insert(s, n, "," + m);
            n <= |t| && NextMember(members, vals, seen, t, n) == After(|m| + 1, NextMember(members, vals, seen, s, n))
  {
    hide ParseMembers, Unknown;
    var t, rest := Insert(s, n, "," + m), s[n..];
    TurnIsQuiet(rest, '}');
    PassesOver(members, vals, seen, m, rest);
    assert t[n..] == "," + (m + rest) && t[n + 1..] == m + rest && (m + rest)[|m|..] == rest;
    assert Blanks(t[n..]) == 0 && t[n..][0..] == t[n..];
  }

  lemma {:induction false} PassesAlone(members: seq<Member>, vals: seq<Value>, s: Bytes, at: nat, m: Bytes)
    requires |vals| == |members| && Unknown(members, m) && AllPass(members, vals)
    requires Open(s, '{', '}').Close? && at == Open(s, '{', '}').used - 1
    ensures at < |s| && ParseRecord(members, vals, Insert(s, at, m)) == Done(Loaded(vals, {}), at + |m| + 1)
  {
    hide Unknown, AllPass, ParseMembers;
    var t, rest := Insert(s, at, m), s[at..];
    CloseIsThere(s, at);
    UnknownStarts(members, m);
    OpenAt(s, at, m, '{', '}');
    PassesOver(members, vals, {}, m, rest);
    assert t[at..] == m + rest && (m + rest)[|m|..] == rest;
    assert Blanks(rest) == 0 && rest[0..] == rest;
  }

  lemma {:induction false} CloseIsThere(s: Bytes, at: nat)
    requires Open(s, '{', '}').Close? && at == Open(s, '{', '}').used - 1
    ensures at < |s| && s[at] == '}'
  {
  }

  lemma {:induction false} UnknownStarts(table: seq<Member>, m: Bytes)
    requires Unknown(table, m)
    ensures Next(m, '\"')
  {
  }

  // ----- a place lies behind what was read before it -----

  lemma {:induction false} RecordPlaceIsInside(members: seq<Member>, vals: seq<Value>, s: Bytes, at: nat, table: seq<Member>, form: Form)
    requires |vals| == |members| && InRecord(members, vals, s, at, table, form)
    ensures at > 0
  {
    hide InMembers;
  }

  lemma {:induction false} ItemPlaceIsInside(item: seq<Member>, list: seq<Value>, count: nat, s: Bytes, at: nat, table: seq<Member>, form: Form)
    requires InItems(item, list, count, s, at, table, form)
    ensures at > 0
  {
    hide InRecord, ParseRecord, Turns;
    var v := ParseRecord(item, Fields(item, list[count]), s);
    if InRecord(item, Fields(item, list[count]), s, at, table, form) {
      RecordPlaceIsInside(item, Fields(item, list[count]), s, at, table, form);
    }
  }

  lemma {:induction false} ValuePlaceIsInside(k: Kind, was: Value, s: Bytes, at: nat, table: seq<Member>, form: Form)
    requires InValue(k, was, s, at, table, form)
    ensures at > 0
  {
    hide Open, InRecord, InItems;
    match k
    case RecordKind(members) => RecordPlaceIsInside(members, Fields(members, was), s, at, table, form);
    case ListKind(_, _, _) =>
    case _ => assert false;
  }

  // ----- nothing changes -----

  lemma {:induction false} ValueInserted(k: Kind, was: Value, s: Bytes, at: nat, table: seq<Member>, form: Form, m: Bytes)
    requires Proper(k) && Good(k, was)
    requires InValue(k, was, s, at, table, form) && ParseInto(k, was, s).Done? && Unknown(table, m)
    ensures at <= ParseInto(k, was, s).used
    ensures ParseInto(k, was, Insert(s, at, WithComma(form, m))) == After(|WithComma(form, m)|, ParseInto(k, was, s))
    decreases |s|, 1
  {
    hide Open, ParseRecord, ParseItems, InRecord, InItems, Unknown, Insert, WithComma, AllProper, AllGood, Good;
    match k
    case RecordKind(members) =>
      GoodFields(members, was);
      RecordInserted(members, Fields(members, was), s, at, table, form, m);
    case ListKind(item, blank, size) =>
      var list, u := Copies(blank, size), Open(s, '[', ']').used;
      GoodBlanks(item, blank, size);
      ItemPlaceIsInside(item, list, 0, s[u..], at - u, table, form);
      ItemsInserted(item, list, 0, s[u..], at - u, table, form, m);
      OpenBehind(s, at, WithComma(form, m), '[', ']');
      InsertDrop(s, at, WithComma(form, m), u);
    case _ => assert false;
  }

  lemma {:induction false} GoodFields(members: seq<Member>, was: Value)
    requires Good(RecordKind(members), was)
    ensures AllGood(members, Fields(members, was))
  {
    RecordFields(members, was);
    GoodRecord(members, was.fields);
  }

  lemma {:induction false} GoodBlanks(item: seq<Member>, blank: seq<Value>, size: nat)
    requires Proper(ListKind(item, blank, size))
    ensures AllProper(item) && forall x :: x in Copies(blank, size) ==> Good(RecordKind(item), x)
  {
    GoodRecord(item, blank);
    hide Good, AllGood, AllProper;
  }

  lemma {:induction false} RecordInserted(members: seq<Member>, vals: seq<Value>, s: Bytes, at: nat, table: seq<Member>, form: Form, m: Bytes)
    requires |vals| == |members| && AllProper(members) && AllGood(members, vals)
    requires InRecord(members, vals, s, at, table, form) && ParseRecord(members, vals, s).Done? && Unknown(table, m)
    ensures at <= ParseRecord(members, vals, s).used
    ensures ParseRecord(members, vals, Insert(s, at, WithComma(form, m))) == After(|WithComma(form, m)|, ParseRecord(members, vals, s))
    decreases |s|, 0
  {
    hide Open, ParseMembers, InMembers, Unknown, AllPass, Insert, AllProper, PartsGood;
    var o, ins := Open(s, '{', '}'), WithComma(form, m);
    if o.Close? {
      PassesAlone(members, vals, s, at, m);
    } else {
      MembersInserted(members, vals, {}, s[o.used..], at - o.used, table, form, m);
      if at == o.used {
        StartIsInFront(members, vals, {}, s[o.used..], table, form);
        UnknownStarts(table, m);
        assert Next(ins, '\"');
        OpenAt(s, at, ins, '{', '}');
      } else {
        OpenBehind(s, at, ins, '{', '}');
      }
      InsertDrop(s, at, ins, o.used);
    }
  }

  // Only the first form has a place at the very start of the member loop.
  lemma {:induction false} StartIsInFront(members: seq<Member>, vals: seq<Value>, seen: set<nat>, s: Bytes, table: seq<Member>, form: Form)
    requires |vals| == |members| && InMembers(members, vals, seen, s, 0, table, form)
    ensures form == Front
  {
    hide Key, IndexOf, ParseInto, Skip, InValue;
  }

  lemma {:induction false} MembersInserted(members: seq<Member>, vals: seq<Value>, seen: set<nat>, s: Bytes, at: nat,
                                           table: seq<Member>, form: Form, m: Bytes)
    requires |vals| == |members| && AllProper(members) && PartsGood(members, vals)
    requires InMembers(members, vals, seen, s, at, table, form) && ParseMembers(members, vals, seen, s).Done? && Unknown(table, m)
    ensures at <= ParseMembers(members, vals, seen, s).used
    ensures ParseMembers(members, vals, seen, Insert(s, at, WithComma(form, m))) ==
            After(|WithComma(form, m)|, ParseMembers(members, vals, seen, s))
    decreases |s|, 2
  {
    hide InMembers, ParseMembers, Unknown, AllProper, PartsGood;
    if form == Front && at == 0 && table == members {
      PassesInFront(members, vals, seen, m, s);
      assert Insert(s, 0, m + ",") == m + "," + s;
    } else {
      RoundInserted(members, vals, seen, s, at, table, form, m);
    }
  }

  // A later place: in the value of this round, or behind it.
  lemma {:induction false} RoundInserted(members: seq<Member>, vals: seq<Value>, seen: set<nat>, s: Bytes, at: nat,
                                         table: seq<Member>, form: Form, m: Bytes)
    requires |vals| == |members| && AllProper(members) && PartsGood(members, vals) && !(form == Front && at == 0 && table == members)
    requires InMembers(members, vals, seen, s, at, table, form) && ParseMembers(members, vals, seen, s).Done? && Unknown(table, m)
    ensures at <= ParseMembers(members, vals, seen, s).used
    ensures ParseMembers(members, vals, seen, Insert(s, at, WithComma(form, m))) ==
            After(|WithComma(form, m)|, ParseMembers(members, vals, seen, s))
    decreases |s|, 1
  {
    hide Key, Skip, IndexOf, ParseInto, NextMember, InValue, InNext, Unknown, Insert, WithComma, AllProper, PartsGood, Proper, Good;
    var k := Key(s).used;
    var i := IndexOf(members, Key(s).value);
    if i == |members| {
      var skipped := Skip(s[k..], 0);
      NextInserted(members, vals, seen, s, k + skipped.used, at, table, form, m);
      LaterAfterSkip(members, vals, seen, s, at, WithComma(form, m), k + skipped.used);
    } else {
      var v := ParseInto(members[i].kind, vals[i], s[k..]);
      MemberIsGood(members, vals, i);
      if InNext(members, vals[i := v.value], seen + {i}, s, k + v.used, at, table, form) {
        ValueIsGood(members[i].kind, vals[i], s[k..]);
        PartsStayGood(members, vals, i, v.value);
        NextInserted(members, vals[i := v.value], seen + {i}, s, k + v.used, at, table, form, m);
        LaterAfterValue(members, vals, seen, s, at, WithComma(form, m), i, v.value, k + v.used);
      } else {
        ValuePlaceIsInside(members[i].kind, vals[i], s[k..], at - k, table, form);
        ValueInserted(members[i].kind, vals[i], s[k..], at - k, table, form, m);
        InsideValue(members, vals, seen, s, at, WithComma(form, m));
      }
    }
  }

  lemma {:induction false} MemberIsGood(members: seq<Member>, vals: seq<Value>, i: nat)
    requires AllProper(members) && PartsGood(members, vals) && i < |members|
    ensures |vals| == |members| && Proper(members[i].kind) && Good(members[i].kind, vals[i])
  {
    hide Proper, Good, Passes;
  }

  lemma {:induction false} PartsStayGood(members: seq<Member>, vals: seq<Value>, i: nat, v: Value)
    requires PartsGood(members, vals) && i < |members| == |vals| && Good(members[i].kind, v)
    ensures PartsGood(members, vals[i := v])
  {
    hide Good;
  }

  // The text goes into the value of this round, which is read as before.
  lemma {:induction false} InsideValue(members: seq<Member>, vals: seq<Value>, seen: set<nat>, s: Bytes, at: nat, ins: Bytes)
    requires |vals| == |members| && Key(s).Done? && ParseMembers(members, vals, seen, s).Done?
    requires var k, i := Key(s).used, IndexOf(members, Key(s).value);
             && i < |members| && k < at <= |s|
             && var v := ParseInto(members[i].kind, vals[i], s[k..]);
                && v.Done? && at - k <= v.used
                && ParseInto(members[i].kind, vals[i], Insert(s[k..], at - k, ins)) == After(|ins|, v)
    ensures at <= ParseMembers(members, vals, seen, s).used
    ensures ParseMembers(members, vals, seen, Insert(s, at, ins)) == After(|ins|, ParseMembers(members, vals, seen, s))
  {
    hide Key, IndexOf, ParseInto, NextMember, Insert, Alike, Skip;
    var t, k, i := Insert(s, at, ins), Key(s).used, IndexOf(members, Key(s).value);
    var v := ParseInto(members[i].kind, vals[i], s[k..]);
    InsertAlike(s, at, ins, k - 1);
    KeyLocal(s, t);
    InsertDrop(s, at, ins, k);
    NextShifted(members, vals[i := v.value], seen + {i}, s, at, ins, k + v.used);
  }

  lemma {:induction false} NextShifted(members: seq<Member>, vals: seq<Value>, seen: set<nat>, s: Bytes, at: nat, ins: Bytes, n: nat)
    requires |vals| == |members| && at <= n <= |s|
    ensures n + |ins| <= |Insert(s, at, ins)|
    ensures NextMember(members, vals, seen, Insert(s, at, ins), n + |ins|) == After(|ins|, NextMember(members, vals, seen, s, n))
  {
    hide ParseMembers;
    var t := Insert(s, at, ins);
    assert t[n + |ins|..] == s[n..];
    var turn := Turns(s[n..], '}');
    if turn.More? { assert t[n + |ins| + turn.used..] == s[n + turn.used..]; }
  }

  // The text goes behind this round, and the parser goes on from n as if it were not there.
  predicate GoesOn(members: seq<Member>, vals: seq<Value>, seen: set<nat>, s: Bytes, n: nat, at: nat, ins: Bytes)
    requires |vals| == |members|
  {
    && n <= at <= |s| && n <= |Insert(s, at, ins)| && Enough(s, Insert(s, at, ins), n)
    && Absorbed(NextMember(members, vals, seen, s, n), NextMember(members, vals, seen, Insert(s, at, ins), n), at, |ins|)
  }

  // The same result with so many more bytes used, all of them before the end.
  predicate Absorbed<T(==)>(before: Parse<T>, after: Parse<T>, at: nat, more: nat) {
    before.Done? && at <= before.used && after == After(more, before)
  }

  lemma {:induction false} LaterAfterValue(members: seq<Member>, vals: seq<Value>, seen: set<nat>, s: Bytes, at: nat, ins: Bytes,
                                           i: nat, v: Value, n: nat)
    requires |vals| == |members| && Key(s).Done? && i == IndexOf(members, Key(s).value) < |members|
    requires Key(s).used <= n && ParseInto(members[i].kind, vals[i], s[Key(s).used..]) == Done(v, n - Key(s).used)
    requires GoesOn(members, vals[i := v], seen + {i}, s, n, at, ins)
    ensures Absorbed(ParseMembers(members, vals, seen, s), ParseMembers(members, vals, seen, Insert(s, at, ins)), at, |ins|)
  {
    hide Key, IndexOf, ParseInto, NextMember, Insert, Alike, Enough, Skip, ParseMembers;
    var t, k := Insert(s, at, ins), Key(s).used;
    MembersRound(members, vals, seen, s);
    MembersRound(members, vals, seen, t);
    EnoughLess(s, t, n, k - 1);
    KeyLocal(s, t);
    EnoughDrop(s, t, n, k);
    ValueLocal(members[i].kind, vals[i], s[k..], t[k..]);
  }

  // The same behind a member that the table does not have.
  lemma {:induction false} LaterAfterSkip(members: seq<Member>, vals: seq<Value>, seen: set<nat>, s: Bytes, at: nat, ins: Bytes, n: nat)
    requires |vals| == |members| && Key(s).Done? && IndexOf(members, Key(s).value) == |members|
    requires Key(s).used <= n && Skip(s[Key(s).used..], 0).Done? && Skip(s[Key(s).used..], 0).used == n - Key(s).used
    requires GoesOn(members, vals, seen, s, n, at, ins)
    ensures Absorbed(ParseMembers(members, vals, seen, s), ParseMembers(members, vals, seen, Insert(s, at, ins)), at, |ins|)
  {
    hide Key, IndexOf, ParseInto, NextMember, Insert, Alike, Enough, Skip, ParseMembers;
    var t, k := Insert(s, at, ins), Key(s).used;
    MembersRound(members, vals, seen, s);
    MembersRound(members, vals, seen, t);
    EnoughLess(s, t, n, k - 1);
    KeyLocal(s, t);
    EnoughDrop(s, t, n, k);
    SkipLocal(s[k..], t[k..], 0);
  }

  lemma {:induction false} NextInserted(members: seq<Member>, vals: seq<Value>, seen: set<nat>, s: Bytes, n: nat, at: nat,
                                        table: seq<Member>, form: Form, m: Bytes)
    requires |vals| == |members| && AllProper(members) && PartsGood(members, vals)
    requires n <= |s| && NextMember(members, vals, seen, s, n).Done? && Unknown(table, m)
    requires n > 0 && InNext(members, vals, seen, s, n, at, table, form)
    ensures GoesOn(members, vals, seen, s, n, at, WithComma(form, m))
    decreases |s|, 0
  {
    hide Turns, ParseMembers, InMembers, Unknown, Insert, Alike, AllProper, PartsGood;
    if form == Last && Turns(s[n..], '}').Close? && at == n {
      TurnIsQuiet(s[n..], '}');
      InsertEnough(s, n, "," + m);
      PassesBehind(members, vals, seen, s, n, m);
    } else {
      var u := Turns(s[n..], '}').used;
      MembersInserted(members, vals, seen, s[n + u..], at - n - u, table, form, m);
      LaterRound(members, vals, seen, s, n, at, WithComma(form, m), n + u);
    }
  }

  lemma {:induction false} LaterRound(members: seq<Member>, vals: seq<Value>, seen: set<nat>, s: Bytes, n: nat, at: nat, ins: Bytes, next: nat)
    requires |vals| == |members| && 0 < n < next <= at <= |s| && Turns(s[n..], '}') == More(next - n)
    requires Absorbed(ParseMembers(members, vals, seen, s[next..]),
                      ParseMembers(members, vals, seen, Insert(s[next..], at - next, ins)), at - next, |ins|)
    ensures GoesOn(members, vals, seen, s, n, at, ins)
  {
    hide Turns, ParseMembers, Insert, Alike, Enough;
    var t := Insert(s, at, ins);
    InsertDrop(s, at, ins, next);
    InsertAlike(s, at, ins, next - 1);
    AlikeLess(s, t, next - 1, n);
    AlikeIsEnough(s, t, n);
    AlikeDrop(s, t, next - 1, n);
    TurnsLocal(s[n..], t[n..], '}');
  }

  lemma {:induction false} ItemsInserted(item: seq<Member>, list: seq<Value>, count: nat, s: Bytes, at: nat,
                                         table: seq<Member>, form: Form, m: Bytes)
    requires AllProper(item) && forall x :: x in list ==> Good(RecordKind(item), x)
    requires InItems(item, list, count, s, at, table, form) && ParseItems(item, list, count, s).Done? && Unknown(table, m)
    ensures at <= ParseItems(item, list, count, s).used
    ensures ParseItems(item, list, count, Insert(s, at, WithComma(form, m))) ==
            After(|WithComma(form, m)|, ParseItems(item, list, count, s))
    decreases |s|, 1
  {
    hide ParseRecord, InRecord, Fields, Turns, Insert, Alike, Unknown, WithComma, AllProper, AllGood, Good;
    var v := ParseRecord(item, Fields(item, list[count]), s);
    GoodFields(item, list[count]);
    if InRecord(item, Fields(item, list[count]), s, at, table, form) {
      RecordInserted(item, Fields(item, list[count]), s, at, table, form, m);
      InsideItem(item, list, count, s, at, WithComma(form, m));
    } else {
      var after := list[count := Record(v.value.vals)];
      var u := Turns(s[v.used..], ']').used;
      RecordIsGood(item, Fields(item, list[count]), s);
      GoodRecord(item, v.value.vals);
      ItemsInserted(item, after, count + 1, s[v.used + u..], at - v.used - u, table, form, m);
      BehindItem(item, list, count, s, at, WithComma(form, m), v.value, v.used, v.used + u);
    }
  }

  // The text goes into this item, which is read as before.
  lemma {:induction false} InsideItem(item: seq<Member>, list: seq<Value>, count: nat, s: Bytes, at: nat, ins: Bytes)
    requires count < |list| && ParseItems(item, list, count, s).Done?
    requires var v := ParseRecord(item, Fields(item, list[count]), s);
             at <= v.used && ParseRecord(item, Fields(item, list[count]), Insert(s, at, ins)) == After(|ins|, v)
    ensures at <= ParseItems(item, list, count, s).used
    ensures ParseItems(item, list, count, Insert(s, at, ins)) == After(|ins|, ParseItems(item, list, count, s))
  {
    hide ParseRecord, Fields, Turns, Insert;
    var n := ParseRecord(item, Fields(item, list[count]), s).used;
    DropInserted(s, at, ins, n);
    if Turns(s[n..], ']').More? { DropInserted(s, at, ins, n + Turns(s[n..], ']').used); }
  }

  // The text goes behind this item, and the items behind it are read as before.
  lemma {:induction false} BehindItem(item: seq<Member>, list: seq<Value>, count: nat, s: Bytes, at: nat, ins: Bytes,
                                      v: Loaded, n: nat, next: nat)
    requires count < |list| && ParseRecord(item, Fields(item, list[count]), s) == Done(v, n)
    requires 0 < n < next <= at <= |s| && Turns(s[n..], ']') == More(next - n)
    requires var after := list[count := Record(v.vals)];
             Absorbed(ParseItems(item, after, count + 1, s[next..]),
                      ParseItems(item, after, count + 1, Insert(s[next..], at - next, ins)), at - next, |ins|)
    ensures Absorbed(ParseItems(item, list, count, s), ParseItems(item, list, count, Insert(s, at, ins)), at, |ins|)
  {
    hide ParseRecord, Fields, Turns, Insert, Alike, ParseItems;
    var t := Insert(s, at, ins);
    ItemsRound(item, list, count, s);
    ItemsRound(item, list, count, t);
    InsertDrop(s, at, ins, next);
    InsertAlike(s, at, ins, n - 1);
    RecordLocal(item, Fields(item, list[count]), s, t);
    InsertAlike(s, at, ins, next - 1);
    AlikeDrop(s, t, next - 1, n);
    TurnsLocal(s[n..], t[n..], ']');
  }

  // ----- the whole text -----

  // A place for a member in the text of a configuration, in an object with this table.
  predicate Place(text: Bytes, at: nat, table: seq<Member>, form: Form) {
    InRecord(Root(), Inits(Root()), text, at, table, form)
  }

  // Whatever object of an accepted configuration gets an unknown member, in front of a member, behind
  // the last or as its only one: as long as the text fits, it is accepted with the same values and the
  // same members seen.
  lemma {:induction false} UnknownMembersChangeNothing(text: Bytes, at: nat, table: seq<Member>, form: Form, m: Bytes)
    requires ParseConfig(text).Accepted? && Place(text, at, table, form) && Unknown(table, m)
    requires |text| + |WithComma(form, m)| <= MAX_BYTES
    ensures at <= |text| && ParseConfig(Insert(text, at, WithComma(form, m))) == ParseConfig(text)
  {
    hide Root, ParseRecord, InRecord, Unknown, WithComma, AllProper, AllGood;
    RootStarts();
    RootIsProper();
    InitsGood(Root());
    RecordInserted(Root(), Inits(Root()), text, at, table, form, m);
    DropInserted(text, at, WithComma(form, m), ParseRecord(Root(), Inits(Root()), text).used);
  }

  // There is always such a place: an accepted text has a member, and in front of the first one there
  // is room.
  lemma {:induction false} RootHasPlace(text: Bytes)
    requires ParseConfig(text).Accepted?
    ensures var o := Open(text, '{', '}'); o.More? && Place(text, o.used, Root(), Front)
  {
    hide Root, ParseMembers, InValue, InNext;
    RootStarts();
    var o := Open(text, '{', '}');
    if o.More? {
      assert InMembers(Root(), Inits(Root()), {}, text[o.used..], 0, Root(), Front);
    }
  }
}
