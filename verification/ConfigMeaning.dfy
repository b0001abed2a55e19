// What parse_config_json makes of a text, told by the JSON value that the text spells: the members are
// laid over the defaults one after the other, unknown ones passed over, and the ranges looked at in
// every object that is not empty (core/src/config.cpp:292-755).
module ConfigMeaning {
  import opened Text
  import opened JsonText
  import opened JsonStrings
  import opened JsonTrees
  import opened ConfigSchema
  import opened ConfigParse

  // ----- the meaning of a tree -----

  function WholeValue(minus: bool, digits: Bytes): int
    requires DigitsOnly(digits)
  {
    if minus then -(Number(digits) as int) else Number(digits)
  }

  // A number without fraction and exponent.
  function WholeNumber(node: Node): Option<int> {
    if node.Num? && node.fraction == 0 && node.exponent == 0 && DigitsOnly(node.digits)
    then Some(WholeValue(node.minus, node.digits)) else None
  }

  function Between(low: int, n: Option<int>, high: int): Option<Value> {
    match n case None => None case Some(v) => if low <= v <= high then Some(Int(v)) else None
  }

  // Trees of unknown members are plain JSON of at most 32 levels.
  predicate Passable(node: Node) {
    Plain(node) && Depth(node) <= 32
  }

  // The value that a tree gives to a member that had the value `was`, if it fits the type.
  function Meant(k: Kind, was: Value, node: Node): Option<Value>
    decreases node, 1
  {
    match k
    case TextKind => if node.Str? then Some(Text(node.value)) else None
    case IntKind => Between(-0x8000_0000, WholeNumber(node), 0x7FFF_FFFF)
    case UintKind => if node.Num? && node.minus then None else Between(0, WholeNumber(node), 0xFFFF_FFFF)
    case SmallKind(most) => if most <= 0x7FFF_FFFF then Between(0, WholeNumber(node), most) else Between(0, WholeNumber(node), 0x7FFF_FFFF)
    case FlagKind =>
      if node.Word? && node.word == "true" then Some(Flag(true))
      else if node.Word? && node.word == "false" then Some(Flag(false)) else None
    case RecordKind(members) =>
      (match MeantRecord(members, Fields(members, was), node)
       case None => None
       case Some(loaded) => Some(Record(loaded.vals)))
    case ListKind(item, blank, size) =>
      if !node.Arr? then None
      else
        match MeantItems(item, Copies(blank, size), 0, node.items)
        case None => None
        case Some(items) => Some(List(items))
  }

  function MeantRecord(members: seq<Member>, vals: seq<Value>, node: Node): (r: Option<Loaded>)
    requires |vals| == |members|
    ensures r.Some? ==> |r.value.vals| == |members|
    decreases node, 0
  {
    if !node.Obj? then None
    else if node.entries.NoEntries? then Some(Loaded(vals, {}))
    else
      var r := MeantEntries(members, vals, {}, node.entries);
      if r.Some? && AllPass(members, r.value.vals) then r else None
  }

  // One member after the other; a later one of the same name wins.
  function MeantEntries(members: seq<Member>, vals: seq<Value>, seen: set<nat>, entries: Entries): (r: Option<Loaded>)
    requires |vals| == |members|
    ensures r.Some? ==> |r.value.vals| == |members|
    decreases entries, 0
  {
    match entries
    case NoEntries => Some(Loaded(vals, seen))
    case Entry(_, key, _, value, _, rest) =>
      var i := IndexOf(members, key);
      if i == |members| then (if Passable(value) then MeantEntries(members, vals, seen, rest) else None)
      else
        match Meant(members[i].kind, vals[i], value)
        case None => None
        case Some(v) => MeantEntries(members, vals[i := v], seen + {i}, rest)
  }

  // The items in the order of the list, which has room for so many.
  function MeantItems(item: seq<Member>, list: seq<Value>, count: nat, items: Items): (r: Option<seq<Value>>)
    ensures r.Some? ==> |r.value| == |list|
    decreases items, 0
  {
    match items
    case NoItems => Some(list)
    case Item(value, _, rest) =>
      if count >= |list| then None
      else
        match MeantRecord(item, Fields(item, list[count]), value)
        case None => None
        case Some(loaded) => MeantItems(item, list[count := Record(loaded.vals)], count + 1, rest)
  }

  // The configuration that a tree stands for: of the current version, which it must state.
  function MeantConfig(doc: Node): Option<AppConfig> {
    RootStarts();
    hide Root;
    match MeantRecord(Root(), Inits(Root()), doc)
    case None => None
    case Some(loaded) =>
      if 0 in loaded.seen && loaded.vals[0] == Int(1) then Some(AppConfig(loaded.vals, loaded.seen)) else None
  }

  // ----- loops that start behind blanks -----

  lemma {:induction false} NextShifts(members: seq<Member>, vals: seq<Value>, seen: set<nat>, s: Bytes, b: nat, n: nat)
    requires |vals| == |members| && b + n <= |s|
    ensures NextMember(members, vals, seen, s, b + n) == After(b, NextMember(members, vals, seen, s[b..], n))
  {
    hide Turns, ParseMembers, NextMember;
    NextMemberRound(members, vals, seen, s, b + n);
    NextMemberRound(members, vals, seen, s[b..], n);
    assert s[b + n..] == s[b..][n..];
    var turn := Turns(s[b + n..], '}');
    if turn.More? { assert s[b + n + turn.used..] == s[b..][n + turn.used..]; }
  }

  lemma {:induction false} MembersShift(members: seq<Member>, vals: seq<Value>, seen: set<nat>, s: Bytes, b: nat)
    requires |vals| == |members| && b <= Blanks(s)
    ensures ParseMembers(members, vals, seen, s) == After(b, ParseMembers(members, vals, seen, s[b..]))
  {
    hide Blanks, Key, Skip, IndexOf, ParseInto, NextMember, ParseMembers;
    MembersRound(members, vals, seen, s);
    MembersRound(members, vals, seen, s[b..]);
    KeyShifts(s, b);
    var key := Key(s[b..]);
    if key.Done? {
      assert s[b + key.used..] == s[b..][key.used..];
      var i := IndexOf(members, key.value);
      if i == |members| {
        var value := Skip(s[b + key.used..], 0);
        if value.Done? { NextShifts(members, vals, seen, s, b, key.used + value.used); }
      } else {
        var value := ParseInto(members[i].kind, vals[i], s[b + key.used..]);
        if value.Done? { NextShifts(members, vals[i := value.value], seen + {i}, s, b, key.used + value.used); }
      }
    }
  }

  lemma {:induction false} OpenShifts(s: Bytes, b: nat, open: Byte, close: Byte)
    requires b <= Blanks(s)
    ensures Open(s, open, close) ==
            match Open(s[b..], open, close) case Bad => Bad case Close(used) => Close(b + used) case More(used) => More(b + used)
  {
    hide Blanks;
    BlanksDrop(s, b);
    if Take(s, open).Done? {
      assert s[Take(s, open).used..] == s[b..][Take(s[b..], open).used..];
      var t := s[Take(s, open).used..];
      assert s[Take(s, open).used + Blanks(t)..] == t[Blanks(t)..] == s[b..][Take(s[b..], open).used + Blanks(t)..];
    }
  }

  lemma {:induction false} RecordShifts(members: seq<Member>, vals: seq<Value>, s: Bytes, b: nat)
    requires |vals| == |members| && b <= Blanks(s)
    ensures ParseRecord(members, vals, s) == After(b, ParseRecord(members, vals, s[b..]))
  {
    hide Blanks, Open, ParseMembers, AllPass;
    OpenShifts(s, b, '{', '}');
    var o := Open(s[b..], '{', '}');
    if o.More? { assert s[b + o.used..] == s[b..][o.used..]; }
  }

  lemma {:induction false} ItemsShift(item: seq<Member>, list: seq<Value>, count: nat, s: Bytes, b: nat)
    requires b <= Blanks(s)
    ensures ParseItems(item, list, count, s) == After(b, ParseItems(item, list, count, s[b..]))
  {
    hide Blanks, ParseRecord, Fields, Turns, ParseItems;
    ItemsRound(item, list, count, s);
    ItemsRound(item, list, count, s[b..]);
    if count < |list| {
      RecordShifts(item, Fields(item, list[count]), s, b);
      var v := ParseRecord(item, Fields(item, list[count]), s[b..]);
      if v.Done? {
        assert s[b + v.used..] == s[b..][v.used..];
        var turn := Turns(s[b + v.used..], ']');
        if turn.More? { assert s[b + v.used + turn.used..] == s[b..][v.used + turn.used..]; }
      }
    }
  }

  // ----- scalars -----

  // The text begins with this tree and no number goes on behind it.
  ghost predicate Begins(s: Bytes, node: Node) {
    Spells(s, node) && Length(node) <= |s| && NumberEnds(s[Length(node)..])
  }

  lemma {:induction false} StringMeant(s: Bytes, node: Node)
    requires Begins(s, node) && node.Str?
    ensures String(s) == Done(node.value, node.size)
  {
    hide IsString, String;
    StringIsExact(s, node.size, node.value);
  }

  lemma {:induction false} FlagMeant(s: Bytes, node: Node)
    requires Begins(s, node) && node.Word? && (node.word == "true" || node.word == "false")
    ensures Boolean(s) == Done(node.word == "true", Length(node))
  {
    hide AllSpaces, Blanks;
    assert s[node.lead..][..|node.word|][0] == s[node.lead];
    BlanksCount(s, node.lead);
  }

  // A whole number: where its digits start, how many there are, and that nothing goes on behind.
  lemma {:induction false} DigitsMeant(s: Bytes, node: Node)
    requires Begins(s, node) && WholeNumber(node).Some?
    ensures Blanks(s) == node.lead && (Next(s[node.lead..], '-') <==> node.minus)
    ensures var start := node.lead + if node.minus then 1 else 0;
            && start + |node.digits| == Length(node) && start <= |s| && node.digits != []
            && Digits(s[start..]) == |node.digits| && s[start..][..|node.digits|] == node.digits
            && !IsFraction(s[Length(node)..])
  {
    hide AllSpaces, Blanks, Digits, IsFractionText, IsExponentText;
    var t, i := s[node.lead..], if node.minus then 1 else 0;
    NumberFirst(t, node.minus, node.digits, 0, 0);
    BlanksCount(s, node.lead);
    var start := node.lead + i;
    Middle(s, node.lead, i, |node.digits|);
    if !node.minus { assert t[0..|node.digits|][0] == t[0]; }
    DigitsAre(s[start..], |node.digits|);
    assert s[start..][|node.digits|..] == s[Length(node)..];
  }

  lemma {:induction false} IntMeant(s: Bytes, node: Node)
    requires Begins(s, node) && WholeNumber(node).Some? && -0x8000_0000 <= WholeNumber(node).value <= 0x7FFF_FFFF
    ensures Integer(s) == Done(WholeNumber(node).value, Length(node))
  {
    hide Blanks, Digits, Begins, Number;
    DigitsMeant(s, node);
  }

  lemma {:induction false} UintMeant(s: Bytes, node: Node)
    requires Begins(s, node) && WholeNumber(node).Some? && !node.minus && WholeNumber(node).value <= 0xFFFF_FFFF
    ensures Unsigned(s) == Done(WholeNumber(node).value, Length(node))
  {
    hide Blanks, Digits, Begins, Number;
    DigitsMeant(s, node);
  }

  lemma {:induction false} StringFound(s: Bytes) returns (node: Node)
    requires String(s).Done?
    ensures Spells(s, node) && node == Str(String(s).used, String(s).value) && Length(node) == String(s).used
  {
    hide IsString, String;
    node := Str(String(s).used, String(s).value);
    StringIsExact(s, String(s).used, String(s).value);
  }

  lemma {:induction false} FlagFound(s: Bytes) returns (node: Node)
    requires Boolean(s).Done?
    ensures Spells(s, node) && Length(node) == Boolean(s).used && node.Word?
    ensures node.word == if Boolean(s).value then "true" else "false"
  {
    hide Blanks, AllSpaces;
    BlanksGiven(s);
    node := Word(Blanks(s), if Boolean(s).value then "true" else "false");
  }

  lemma {:induction false} DigitsFound(s: Bytes, lead: nat, minus: bool)
    requires lead == Blanks(s) && (minus ==> Next(s[lead..], '-'))
    requires Digits(s[lead + (if minus then 1 else 0)..]) > 0
    ensures var start := lead + if minus then 1 else 0;
            var digits := s[start..][..Digits(s[start..])];
            var node := Num(lead, minus, digits, 0, 0);
            && Spells(s, node) && Length(node) == start + Digits(s[start..])
            && WholeNumber(node) == Some(WholeValue(minus, digits))
  {
    hide Blanks, AllSpaces, Digits;
    BlanksGiven(s);
    var i := if minus then 1 else 0;
    var start := lead + i;
    var n := Digits(s[start..]);
    DigitsAre(s[start..], n);
    Middle(s, lead, i, n);
    Middle(s, lead, i + n, 0);
  }

  lemma {:induction false} IntFound(s: Bytes) returns (node: Node)
    requires Integer(s).Done?
    ensures Spells(s, node) && Length(node) == Integer(s).used && WholeNumber(node) == Some(Integer(s).value)
  {
    hide Blanks, Digits, Number, Spells;
    var b := Blanks(s);
    var minus := Next(s[b..], '-');
    DigitsFound(s, b, minus);
    var start := b + if minus then 1 else 0;
    node := Num(b, minus, s[start..][..Digits(s[start..])], 0, 0);
  }

  lemma {:induction false} UintFound(s: Bytes) returns (node: Node)
    requires Unsigned(s).Done?
    ensures Spells(s, node) && Length(node) == Unsigned(s).used && WholeNumber(node) == Some(Unsigned(s).value as int) && !node.minus
  {
    hide Blanks, Digits, Number, Spells;
    var b := Blanks(s);
    DigitsFound(s, b, false);
    node := Num(b, false, s[b..][..Digits(s[b..])], 0, 0);
  }

  // ----- from the tree to what is read -----

  // The pieces of an object's text from one of its members on.
  lemma {:induction false} EntryPieces(s: Bytes, size: nat, key: Bytes, colon: nat, value: Node, gap: nat, rest: Entries)
    requires var entries := Entry(size, key, colon, value, gap, rest); SpellsEntries(s, entries) && EntriesLength(entries) <= |s|
    ensures size + colon + 1 <= |s| && Key(s) == Done(key, size + colon + 1)
    ensures var u := s[size + colon + 1..];
            && Begins(u, value)
            && var t := u[Length(value)..];
               && gap < |t| && Turns(t, '}') == (if rest.NoEntries? then Close(gap + 1) else More(gap + 1))
               && SpellsEntries(t[gap + 1..], rest) && EntriesLength(rest) <= |t[gap + 1..]|
  {
    hide IsString, Spells, Turns, GapThen, NumberEnds, Key;
    GapFits(s[size..], colon, ':');
    KeyIs(s, size, key, colon);
    var u := s[size + colon + 1..];
    var t := u[Length(value)..];
    var close := if rest.NoEntries? then '}' else ',';
    GapFits(t, gap, close);
    GapEnds(t, gap, close);
    TurnsIs(t, gap, '}');
  }

  lemma {:induction false} ItemPieces(s: Bytes, value: Node, gap: nat, rest: Items)
    requires var items := Item(value, gap, rest); SpellsItems(s, items) && ItemsLength(items) <= |s|
    ensures Begins(s, value)
    ensures var t := s[Length(value)..];
            && gap < |t| && Turns(t, ']') == (if rest.NoItems? then Close(gap + 1) else More(gap + 1))
            && SpellsItems(t[gap + 1..], rest) && ItemsLength(rest) <= |t[gap + 1..]|
  {
    hide Spells, Turns, GapThen, NumberEnds;
    var t := s[Length(value)..];
    var close := if rest.NoItems? then ']' else ',';
    GapFits(t, gap, close);
    GapEnds(t, gap, close);
    TurnsIs(t, gap, ']');
  }

  // A round of the member loop, by suffixes of the text.
  lemma {:induction false} MembersStep(members: seq<Member>, vals: seq<Value>, seen: set<nat>, s: Bytes, k: nat, m: nat,
                                       after: seq<Value>, marks: set<nat>)
    requires |vals| == |members| == |after| && Key(s).Done? && Key(s).used == k <= |s| && m <= |s[k..]|
    requires var i := IndexOf(members, Key(s).value);
             if i == |members| then Skip(s[k..], 0).Done? && Skip(s[k..], 0).used == m && after == vals && marks == seen
             else var v := ParseInto(members[i].kind, vals[i], s[k..]);
                  v.Done? && v.used == m && after == vals[i := v.value] && marks == seen + {i}
    ensures var t := s[k..][m..];
            ParseMembers(members, vals, seen, s) ==
            match Turns(t, '}')
            case Bad => Fail
            case Close(used) => Done(Loaded(after, marks), k + m + used)
            case More(used) => After(k + m + used, ParseMembers(members, after, marks, t[used..]))
  {
    hide Key, Skip, IndexOf, ParseInto, NextMember, ParseMembers, Turns;
    MembersRound(members, vals, seen, s);
    NextMemberRound(members, after, marks, s, k + m);
    var t := s[k..][m..];
    assert s[k + m..] == t;
    var turn := Turns(t, '}');
    if turn.More? { assert s[k + m + turn.used..] == t[turn.used..]; }
  }

  lemma {:induction false} ValueReads(k: Kind, was: Value, s: Bytes, node: Node)
    requires Begins(s, node) && Meant(k, was, node).Some?
    ensures ParseInto(k, was, s) == Done(Meant(k, was, node).value, Length(node))
    decreases node, 1
  {
    hide Begins, ParseRecord, ParseItems, Open, WholeValue, MeantRecord, MeantItems;
    match k {
      case RecordKind(members) => RecordReads(members, ConfigParse.Fields(members, was), s, node);
      case ListKind(item, blank, size) => ListReads(item, Copies(blank, size), s, node);
      case _ => ScalarReads(k, was, s, node);
    }
  }

  lemma {:induction false} ScalarReads(k: Kind, was: Value, s: Bytes, node: Node)
    requires Begins(s, node) && Meant(k, was, node).Some? && !k.RecordKind? && !k.ListKind?
    ensures ParseInto(k, was, s) == Done(Meant(k, was, node).value, Length(node))
  {
    hide Begins, Integer, Unsigned, String, Boolean, WholeValue;
    match k {
      case TextKind => StringMeant(s, node);
      case FlagKind => FlagMeant(s, node);
      case UintKind => UintMeant(s, node);
      case _ => IntMeant(s, node);
    }
  }

  lemma {:induction false} RecordReads(members: seq<Member>, vals: seq<Value>, s: Bytes, node: Node)
    requires |vals| == |members| && Begins(s, node) && MeantRecord(members, vals, node).Some?
    ensures ParseRecord(members, vals, s) == Done(MeantRecord(members, vals, node).value, Length(node))
    decreases node, 0
  {
    hide ParseMembers, AllPass, Open, Blanks, MeantEntries, NumberEnds, SpellsEntries, Key;
    var t := s[node.lead + 1..];
    GapFits(s, node.lead, '{');
    OpenIs(s, node.lead, '{', '}');
    if node.entries.NoEntries? {
      GapIsBlanks(t, node.gap, '}');
    } else {
      EntriesRead(members, vals, {}, t, node.entries);
      MembersShift(members, vals, {}, t, Blanks(t));
      KeyIsNoClose(members, vals, t);
      assert s[node.lead + 1 + Blanks(t)..] == t[Blanks(t)..];
    }
  }

  lemma {:induction false} KeyIsNoClose(members: seq<Member>, vals: seq<Value>, t: Bytes)
    requires |vals| == |members| && ParseMembers(members, vals, {}, t).Done?
    ensures !Next(t[Blanks(t)..], '}')
  {
    hide ParseMembers, Skip, ParseInto, NextMember, IndexOf, Blanks, Body, Take;
    MembersRound(members, vals, {}, t);
  }

  lemma {:induction false} EntriesRead(members: seq<Member>, vals: seq<Value>, seen: set<nat>, s: Bytes, entries: Entries)
    requires |vals| == |members| && entries.Entry? && SpellsEntries(s, entries) && EntriesLength(entries) <= |s|
    requires MeantEntries(members, vals, seen, entries).Some?
    ensures ParseMembers(members, vals, seen, s) == Done(MeantEntries(members, vals, seen, entries).value, EntriesLength(entries))
    decreases entries, 0
  {
    hide Key, Skip, IndexOf, ParseInto, ParseMembers, Turns, Begins, SpellsEntries, Meant, Passable;
    var Entry(size, key, colon, value, gap, rest) := entries;
    EntryPieces(s, size, key, colon, value, gap, rest);
    var u := s[size + colon + 1..];
    var t := u[Length(value)..];
    var i := IndexOf(members, key);
    var after, marks := vals, seen;
    if i == |members| {
      PassableIsSkipped(u, value);
    } else {
      ValueReads(members[i].kind, vals[i], u, value);
      after, marks := vals[i := Meant(members[i].kind, vals[i], value).value], seen + {i};
    }
    MembersStep(members, vals, seen, s, size + colon + 1, Length(value), after, marks);
    if rest.Entry? { EntriesRead(members, after, marks, t[gap + 1..], rest); }
  }

  lemma {:induction false} PassableIsSkipped(u: Bytes, value: Node)
    requires Begins(u, value) && Passable(value)
    ensures Skip(u, 0) == Done((), Length(value))
  {
    hide Skip, Spells, Plain, Depth, NumberEnds;
    SkipReads(u, value, 0);
  }

  lemma {:induction false} ListReads(item: seq<Member>, list: seq<Value>, s: Bytes, node: Node)
    requires Begins(s, node) && node.Arr? && MeantItems(item, list, 0, node.items).Some?
    ensures var o := Open(s, '[', ']');
            && !o.Bad? && o.used <= |s|
            && if o.Close? then o.used == Length(node) && MeantItems(item, list, 0, node.items).value == list
               else After(o.used, ParseItems(item, list, 0, s[o.used..])) == Done(MeantItems(item, list, 0, node.items).value, Length(node))
    decreases node, 0
  {
    hide ParseItems, Open, Blanks, NumberEnds, SpellsItems, MeantRecord, ParseRecord;
    var t := s[node.lead + 1..];
    GapFits(s, node.lead, '[');
    OpenIs(s, node.lead, '[', ']');
    if node.items.NoItems? {
      GapIsBlanks(t, node.gap, ']');
    } else {
      ItemsRead(item, list, 0, t, node.items);
      ItemsShift(item, list, 0, t, Blanks(t));
      ItemIsNoClose(item, list, 0, t);
      assert s[node.lead + 1 + Blanks(t)..] == t[Blanks(t)..];
    }
  }

  lemma {:induction false} ItemIsNoClose(item: seq<Member>, list: seq<Value>, count: nat, t: Bytes)
    requires ParseItems(item, list, count, t).Done?
    ensures !Next(t[Blanks(t)..], ']')
  {
    hide ParseItems, ParseMembers, AllPass, Blanks;
    ItemsRound(item, list, count, t);
  }

  lemma {:induction false} ItemsRead(item: seq<Member>, list: seq<Value>, count: nat, s: Bytes, items: Items)
    requires items.Item? && SpellsItems(s, items) && ItemsLength(items) <= |s| && MeantItems(item, list, count, items).Some?
    ensures ParseItems(item, list, count, s) == Done(MeantItems(item, list, count, items).value, ItemsLength(items))
    decreases items, 0
  {
    hide ParseRecord, ParseItems, Turns, Begins, SpellsItems, MeantRecord, ConfigParse.Fields;
    var Item(value, gap, rest) := items;
    ItemPieces(s, value, gap, rest);
    var t := s[Length(value)..];
    ItemsRound(item, list, count, s);
    RecordReads(item, ConfigParse.Fields(item, list[count]), s, value);
    var after := list[count := Record(MeantRecord(item, ConfigParse.Fields(item, list[count]), value).value.vals)];
    if rest.Item? {
      assert s[Length(value) + (gap + 1)..] == t[gap + 1..];
      ItemsRead(item, after, count + 1, t[gap + 1..], rest);
    }
  }

  // ----- from what is read to the tree -----

  lemma {:induction false} ValueFound(k: Kind, was: Value, s: Bytes) returns (node: Node)
    requires ParseInto(k, was, s).Done?
    ensures Spells(s, node) && Length(node) == ParseInto(k, was, s).used && Meant(k, was, node) == Some(ParseInto(k, was, s).value)
    decreases |s|, 1
  {
    hide Spells, ParseRecord, ParseItems, Open, MeantRecord, MeantItems, WholeValue;
    match k {
      case TextKind => node := StringFound(s);
      case IntKind => node := IntFound(s);
      case UintKind => node := UintFound(s);
      case SmallKind(_) => node := IntFound(s);
      case FlagKind => node := FlagFound(s);
      case RecordKind(members) => node := RecordFound(members, ConfigParse.Fields(members, was), s);
      case ListKind(item, blank, size) => node := ListFound(item, Copies(blank, size), s);
    }
  }

  lemma {:induction false} RecordFound(members: seq<Member>, vals: seq<Value>, s: Bytes) returns (node: Node)
    requires |vals| == |members| && ParseRecord(members, vals, s).Done?
    ensures Spells(s, node) && Length(node) == ParseRecord(members, vals, s).used
    ensures MeantRecord(members, vals, node) == Some(ParseRecord(members, vals, s).value)
    decreases |s|, 0
  {
    hide ParseMembers, AllPass, Open, Blanks, MeantEntries, GapThen, SpellsEntries;
    var lead := OpenGiven(s, '{', '}');
    GapFits(s, lead, '{');
    OpenIs(s, lead, '{', '}');
    var t := s[lead + 1..];
    if Next(t[Blanks(t)..], '}') {
      GapIsBlanks(t, Blanks(t), '}');
      node := Obj(lead, Blanks(t), NoEntries);
    } else {
      assert s[lead + 1 + Blanks(t)..] == t[Blanks(t)..];
      MembersShift(members, vals, {}, t, Blanks(t));
      var entries := EntriesFound(members, vals, {}, t);
      node := Obj(lead, 0, entries);
    }
  }

  lemma {:induction false} EntriesFound(members: seq<Member>, vals: seq<Value>, seen: set<nat>, s: Bytes) returns (entries: Entries)
    requires |vals| == |members| && ParseMembers(members, vals, seen, s).Done?
    ensures entries.Entry? && SpellsEntries(s, entries) && EntriesLength(entries) == ParseMembers(members, vals, seen, s).used
    ensures MeantEntries(members, vals, seen, entries) == Some(ParseMembers(members, vals, seen, s).value)
    decreases |s|, 2
  {
    hide Key, Skip, IndexOf, ParseInto, ParseMembers, Turns, Spells, Meant, Passable, IsString, NextMember, GapThen, SpellsEntries;
    var size, colon, value, after, marks := EntryFound(members, vals, seen, s);
    var u := s[size + colon + 1..];
    var t := u[Length(value)..];
    MembersStep(members, vals, seen, s, size + colon + 1, Length(value), after, marks);
    var turn := Turns(t, '}');
    var gap := turn.used - 1;
    TurnsIs(t, gap, '}');
    var rest := NoEntries;
    if turn.More? { rest := EntriesFound(members, after, marks, t[gap + 1..]); }
    entries := Entry(size, Key(s).value, colon, value, gap, rest);
    NoMoreEntries(t[gap + 1..], rest);
    EntryJoins(s, size, Key(s).value, colon, value, gap, rest);
    EntryMeans(members, vals, seen, entries, after, marks);
  }

  lemma {:induction false} EntryJoins(s: Bytes, size: nat, key: Bytes, colon: nat, value: Node, gap: nat, rest: Entries)
    requires IsString(s, size, key) && size + colon + 1 <= |s| && GapThen(s[size..], colon, ':')
    requires var u := s[size + colon + 1..];
             && Spells(u, value) && Length(value) <= |u|
             && var t := u[Length(value)..];
                && gap < |t| && GapThen(t, gap, if rest.NoEntries? then '}' else ',') && SpellsEntries(t[gap + 1..], rest)
    ensures var entries := Entry(size, key, colon, value, gap, rest);
            SpellsEntries(s, entries) && EntriesLength(entries) == size + colon + 1 + Length(value) + gap + 1 + EntriesLength(rest)
  {
    hide Spells, IsString, GapThen;
  }

  lemma {:induction false} EntryMeans(members: seq<Member>, vals: seq<Value>, seen: set<nat>, entries: Entries, after: seq<Value>, marks: set<nat>)
    requires |vals| == |members| == |after| && entries.Entry?
    requires var i := IndexOf(members, entries.key);
             if i == |members| then Passable(entries.value) && after == vals && marks == seen
             else var v := Meant(members[i].kind, vals[i], entries.value);
                  v.Some? && after == vals[i := v.value] && marks == seen + {i}
    ensures MeantEntries(members, vals, seen, entries) == MeantEntries(members, after, marks, entries.rest)
  {
    hide IndexOf, Meant, Passable;
  }

  // One member, and what it makes of the values.
  lemma {:induction false} EntryFound(members: seq<Member>, vals: seq<Value>, seen: set<nat>, s: Bytes)
    returns (size: nat, colon: nat, value: Node, after: seq<Value>, marks: set<nat>)
    requires |vals| == |members| && ParseMembers(members, vals, seen, s).Done?
    ensures Key(s).Done? && IsString(s, size, Key(s).value) && size <= |s| && GapThen(s[size..], colon, ':')
    ensures Key(s).used == size + colon + 1 <= |s|
    ensures var u := s[size + colon + 1..];
            && Spells(u, value) && Length(value) <= |u| && |after| == |vals|
            && var i := IndexOf(members, Key(s).value);
               if i == |members| then Passable(value) && Skip(u, 0).Done? && Skip(u, 0).used == Length(value) && after == vals && marks == seen
               else var v := ParseInto(members[i].kind, vals[i], u);
                    && v.Done? && v.used == Length(value) && Meant(members[i].kind, vals[i], value) == Some(v.value)
                    && after == vals[i := v.value] && marks == seen + {i}
    decreases |s|, 1
  {
    hide Key, Skip, IndexOf, ParseInto, ParseMembers, Turns, Spells, Meant, Plain, Depth, IsString, NextMember, GapThen;
    MembersRound(members, vals, seen, s);
    size, colon := KeyGiven(s);
    var u := s[size + colon + 1..];
    var i := IndexOf(members, Key(s).value);
    if i == |members| {
      value := SkipGiven(u, 0);
      after, marks := vals, seen;
    } else {
      value := ValueFound(members[i].kind, vals[i], u);
      after, marks := vals[i := ParseInto(members[i].kind, vals[i], u).value], seen + {i};
    }
  }

  lemma {:induction false} ListFound(item: seq<Member>, list: seq<Value>, s: Bytes) returns (node: Node)
    requires var o := Open(s, '[', ']');
             !o.Bad? && (o.More? ==> o.used <= |s| && ParseItems(item, list, 0, s[o.used..]).Done?)
    ensures node.Arr? && Spells(s, node)
    ensures var o := Open(s, '[', ']');
            && Length(node) == (if o.Close? then o.used else o.used + ParseItems(item, list, 0, s[o.used..]).used)
            && MeantItems(item, list, 0, node.items) == Some(if o.Close? then list else ParseItems(item, list, 0, s[o.used..]).value)
    decreases |s|, 0
  {
    hide ParseItems, Open, Blanks, MeantRecord, GapThen, SpellsItems;
    var lead := OpenGiven(s, '[', ']');
    GapFits(s, lead, '[');
    OpenIs(s, lead, '[', ']');
    var t := s[lead + 1..];
    if Next(t[Blanks(t)..], ']') {
      GapIsBlanks(t, Blanks(t), ']');
      node := Arr(lead, Blanks(t), NoItems);
    } else {
      assert s[lead + 1 + Blanks(t)..] == t[Blanks(t)..];
      ItemsShift(item, list, 0, t, Blanks(t));
      var items := ItemsFound(item, list, 0, t);
      node := Arr(lead, 0, items);
    }
  }

  lemma {:induction false} ItemsFound(item: seq<Member>, list: seq<Value>, count: nat, s: Bytes) returns (items: Items)
    requires ParseItems(item, list, count, s).Done?
    ensures items.Item? && SpellsItems(s, items) && ItemsLength(items) == ParseItems(item, list, count, s).used
    ensures MeantItems(item, list, count, items) == Some(ParseItems(item, list, count, s).value)
    decreases |s|, 2
  {
    hide ParseRecord, ParseItems, Turns, Spells, MeantRecord, ConfigParse.Fields, GapThen;
    ItemsRound(item, list, count, s);
    var fields := ConfigParse.Fields(item, list[count]);
    var value := RecordFound(item, fields, s);
    var after := list[count := Record(ParseRecord(item, fields, s).value.vals)];
    var t := s[Length(value)..];
    var turn := Turns(t, ']');
    var gap := turn.used - 1;
    TurnsIs(t, gap, ']');
    var rest := NoItems;
    if turn.More? {
      assert s[Length(value) + turn.used..] == t[gap + 1..];
      rest := ItemsFound(item, after, count + 1, t[gap + 1..]);
    }
    items := Item(value, gap, rest);
  }

  // ----- the whole text -----

  // A text of at most 1 MiB that spells this value, with nothing but white space behind it.
  ghost predicate IsDocument(text: Bytes, doc: Node) {
    |text| <= 1_048_576 && Spells(text, doc) && Length(doc) <= |text| && AllSpaces(text[Length(doc)..])
  }

  // parse_config_json takes a text exactly if it is a document that stands for a configuration, and
  // gives this configuration.
  lemma {:induction false} ParseIsExact(text: Bytes, config: AppConfig)
    ensures ParseConfig(text) == Accepted(config) <==> exists doc :: IsDocument(text, doc) && MeantConfig(doc) == Some(config)
    ensures ParseConfig(text).Rejected? <==> forall doc :: IsDocument(text, doc) ==> MeantConfig(doc).None?
  {
    hide IsDocument, MeantConfig, ParseConfig;
    forall doc | IsDocument(text, doc) && MeantConfig(doc).Some? ensures ParseConfig(text) == Accepted(MeantConfig(doc).value) {
      DocumentReads(text, doc);
    }
    if ParseConfig(text).Accepted? { var doc := DocumentFound(text); }
  }

  lemma {:induction false} DocumentReads(text: Bytes, doc: Node)
    requires IsDocument(text, doc) && MeantConfig(doc).Some?
    ensures ParseConfig(text) == Accepted(MeantConfig(doc).value)
  {
    hide Root, ParseRecord, MeantRecord, Spells, Blanks, AllSpaces;
    var rest := text[Length(doc)..];
    SpacesEnd(rest);
    RecordReads(Root(), Inits(Root()), text, doc);
  }

  lemma {:induction false} SpacesEnd(rest: Bytes)
    requires AllSpaces(rest)
    ensures NumberEnds(rest) && Blanks(rest) == |rest|
  {
    assert rest[..|rest|] == rest;
    BlanksCount(rest, |rest|);
  }

  lemma {:induction false} DocumentFound(text: Bytes) returns (doc: Node)
    requires ParseConfig(text).Accepted?
    ensures IsDocument(text, doc) && MeantConfig(doc) == Some(ParseConfig(text).config)
  {
    hide Root, ParseRecord, MeantRecord, Spells, Blanks, AllSpaces;
    doc := RecordFound(Root(), Inits(Root()), text);
    var rest := text[Length(doc)..];
    BlanksGiven(rest);
    assert rest[..|rest|] == rest;
  }
}
