// parse_config_json and serialize_config_json of core/src/config.cpp over the tables of ConfigSchema.
// The member loops of its struct parsers differ only in their names, types and ranges, so here they
// are one loop that looks a key up in a table.
module ConfigParse {
  import opened Text
  import opened JsonText
  import opened ConfigSchema

  // ----- parsing -----

  datatype Loaded = Loaded(vals: seq<Value>, seen: set<nat>)

  // The members a struct holds before its text is read.
  function Fields(members: seq<Member>, v: Value): (r: seq<Value>)
    ensures |r| == |members|
  {
    if v.Record? && |v.fields| == |members| then v.fields else Inits(members)
  }

  function ToText(r: Parse<Bytes>): Parse<Value> {
    match r case Fail => Fail case Done(v, used) => Done(Text(v), used)
  }

  function ToInt(r: Parse<int>): Parse<Value> {
    match r case Fail => Fail case Done(v, used) => Done(Int(v), used)
  }

  function ToUint(r: Parse<nat>): Parse<Value> {
    match r case Fail => Fail case Done(v, used) => Done(Int(v), used)
  }

  function ToSmall(r: Parse<int>, most: nat): Parse<Value> {
    match r case Fail => Fail case Done(v, used) => if 0 <= v <= most then Done(Int(v), used) else Fail
  }

  function ToFlag(r: Parse<bool>): Parse<Value> {
    match r case Fail => Fail case Done(v, used) => Done(Flag(v), used)
  }

  function ToRecord(r: Parse<Loaded>): Parse<Value> {
    match r case Fail => Fail case Done(v, used) => Done(Record(v.vals), used)
  }

  function ToList(r: Parse<seq<Value>>): Parse<Value> {
    match r case Fail => Fail case Done(v, used) => Done(List(v), used)
  }

  function ParseInto(k: Kind, was: Value, s: Bytes): (r: Parse<Value>)
    ensures r.Done? ==> 0 < r.used <= |s|
    decreases |s|, 1
  {
    match k
    case TextKind => ToText(String(s))
    case IntKind => ToInt(Integer(s))
    case UintKind => ToUint(Unsigned(s))
    case SmallKind(most) => ToSmall(Integer(s), most)
    case FlagKind => ToFlag(Boolean(s))
    case RecordKind(members) => ToRecord(ParseRecord(members, Fields(members, was), s))
    case ListKind(item, blank, size) =>
      var list := Copies(blank, size);
      match Open(s, '[', ']')
      case Bad => Fail
      case Close(used) => Done(List(list), used)
      case More(used) => After(used, ToList(ParseItems(item, list, 0, s[used..])))
  }

  // An empty object is taken as it is, without a look at the ranges.
  function ParseRecord(members: seq<Member>, vals: seq<Value>, s: Bytes): (r: Parse<Loaded>)
    requires |vals| == |members|
    ensures r.Done? ==> 0 < r.used <= |s| && |r.value.vals| == |members|
    decreases |s|, 0
  {
    match Open(s, '{', '}')
    case Bad => Fail
    case Close(used) => Done(Loaded(vals, {}), used)
    case More(used) =>
      var r := ParseMembers(members, vals, {}, s[used..]);
      if r.Done? && AllPass(members, r.value.vals) then After(used, r) else Fail
  }

  // The member loop, at the start of a round.
  function ParseMembers(members: seq<Member>, vals: seq<Value>, seen: set<nat>, s: Bytes): (r: Parse<Loaded>)
    requires |vals| == |members|
    ensures r.Done? ==> 0 < r.used <= |s| && |r.value.vals| == |members|
    decreases |s|, 2
  {
    var key := Key(s);
    if key.Fail? then Fail
    else
      var i := IndexOf(members, key.value);
      if i < |members| then
        var v := ParseInto(members[i].kind, vals[i], s[key.used..]);
        if v.Fail? then Fail
        else NextMember(members, vals[i := v.value], seen + {i}, s, key.used + v.used)
      else
        var skipped := Skip(s[key.used..], 0);
        if skipped.Fail? then Fail else NextMember(members, vals, seen, s, key.used + skipped.used)
  }

  // Behind a member's value, n bytes on.
  function NextMember(members: seq<Member>, vals: seq<Value>, seen: set<nat>, s: Bytes, n: nat): (r: Parse<Loaded>)
    requires |vals| == |members| && n <= |s|
    ensures r.Done? ==> n < r.used <= |s| && |r.value.vals| == |members|
    decreases |s|, 1
  {
    match Turns(s[n..], '}')
    case Bad => Fail
    case Close(used) => Done(Loaded(vals, seen), n + used)
    case More(used) => After(n + used, ParseMembers(members, vals, seen, s[n + used..]))
  }

  // One round of the member loop.
  lemma {:induction false} MembersRound(members: seq<Member>, vals: seq<Value>, seen: set<nat>, s: Bytes)
    requires |vals| == |members|
    ensures ParseMembers(members, vals, seen, s) ==
            if Key(s).Fail? then Fail
            else
              var n, i := Key(s).used, IndexOf(members, Key(s).value);
              if i == |members| then
                if Skip(s[n..], 0).Fail? then Fail else NextMember(members, vals, seen, s, n + Skip(s[n..], 0).used)
              else
                var v := ParseInto(members[i].kind, vals[i], s[n..]);
                if v.Fail? then Fail else NextMember(members, vals[i := v.value], seen + {i}, s, n + v.used)
  {
    hide Key, Skip, IndexOf, ParseInto, NextMember;
  }

  lemma {:induction false} NextMemberRound(members: seq<Member>, vals: seq<Value>, seen: set<nat>, s: Bytes, n: nat)
    requires |vals| == |members| && n <= |s|
    ensures NextMember(members, vals, seen, s, n) ==
            match Turns(s[n..], '}')
            case Bad => Fail
            case Close(used) => Done(Loaded(vals, seen), n + used)
            case More(used) => After(n + used, ParseMembers(members, vals, seen, s[n + used..]))
  {
    hide Turns, ParseMembers;
  }

  // The array loop, with `count` items read.
  function ParseItems(item: seq<Member>, list: seq<Value>, count: nat, s: Bytes): (r: Parse<seq<Value>>)
    ensures r.Done? ==> 0 < r.used <= |s| && |r.value| == |list|
    decreases |s|, 1
  {
    if count >= |list| then Fail
    else
      var v := ParseRecord(item, Fields(item, list[count]), s);
      if v.Fail? then Fail
      else
        var after := list[count := Record(v.value.vals)];
        match Turns(s[v.used..], ']')
        case Bad => Fail
        case Close(used) => Done(after, v.used + used)
        case More(used) => After(v.used + used, ParseItems(item, after, count + 1, s[v.used + used..]))
  }

  // One round of the array loop.
  lemma {:induction false} ItemsRound(item: seq<Member>, list: seq<Value>, count: nat, s: Bytes)
    ensures ParseItems(item, list, count, s) ==
            if count >= |list| || ParseRecord(item, Fields(item, list[count]), s).Fail? then Fail
            else
              var v := ParseRecord(item, Fields(item, list[count]), s);
              var after := list[count := Record(v.value.vals)];
              match Turns(s[v.used..], ']')
              case Bad => Fail
              case Close(used) => Done(after, v.used + used)
              case More(used) => After(v.used + used, ParseItems(item, after, count + 1, s[v.used + used..]))
  {
    hide Turns, ParseRecord, Fields;
  }

  // AppConfig: the values, and which of the members the text had (presence and saw_version).
  datatype AppConfig = AppConfig(vals: seq<Value>, seen: set<nat>)

  lemma RootStarts()
    ensures Root() != [] && Root()[0].kind == IntKind && Root()[0].check == Free
  {
  }

  datatype Result = Rejected | Accepted(config: AppConfig)

  const MAX_BYTES := 1024 * 1024

  function ParseConfig(text: Bytes): Result {
    RootStarts();
    hide Root;
    if |text| > MAX_BYTES then Rejected
    else
      match ParseRecord(Root(), Inits(Root()), text)
      case Fail => Rejected
      case Done(loaded, used) =>
        if used + Blanks(text[used..]) == |text| && 0 in loaded.seen && loaded.vals[0] == Int(SCHEMA_VERSION)
        then Accepted(AppConfig(loaded.vals, loaded.seen)) else Rejected
  }

  // ----- serializing -----

  function HexDigit(d: nat): Byte
    requires d < 16
  {
    if d < 10 then (d + 48) as char else (d + 87) as char
  }

  function EscapeByte(c: Byte): Bytes {
    if c == '\\' then "\\\\"
    else if c == '\"' then "\\\""
    else if c == '\n' then "\\n"
    else if c == '\r' then "\\r"
    else if c == '\t' then "\\t"
    else if c as int < 0x20 then "\\u00" + [HexDigit(c as int / 16), HexDigit(c as int % 16)]
    else [c]
  }

  function Escaped(s: Bytes): Bytes {
    if s == [] then "" else EscapeByte(s[0]) + Escaped(s[1..])
  }

  // json_escape_append.
  method EscapeAppend(out: Bytes, value: Bytes) returns (r: Bytes)
    ensures r == out + Escaped(value)
  {
    r := out;
    for i := 0 to |value|
      invariant r + Escaped(value[i..]) == out + Escaped(value)
    {
      Associative(r, EscapeByte(value[i]), Escaped(value[i + 1..]));
      assert value[i..][1..] == value[i + 1..];
      r := r + EscapeByte(value[i]);
    }
  }

  function Quoted(s: Bytes): Bytes {
    "\"" + Escaped(s) + "\""
  }

  function Signed(n: int): Bytes {
    if n < 0 then "-" + Decimal(-n) else Decimal(n)
  }

  function Show(k: Kind, v: Value): Bytes
    requires Typed(k, v)
    decreases k, 1
  {
    match v
    case Text(text) => Quoted(text)
    case Int(n) => Signed(n)
    case Flag(on) => if on then "true" else "false"
    case Record(fields) => "{" + ShowMembers(k.members, fields, 0)
    case List(items) => if items == [] then "[]" else "[" + ShowItems(k.item, items, 0)
  }

  // The members from the i-th on, with the bracket that closes them.
  function ShowMembers(members: seq<Member>, vals: seq<Value>, i: nat): Bytes
    requires AllTyped(members, vals) && i <= |members|
    decreases members, 0, |members| - i
  {
    if i == |members| then "}"
    else
      Quoted(members[i].name) + ":" + Show(members[i].kind, vals[i]) +
      if i + 1 < |members| then "," + ShowMembers(members, vals, i + 1) else "}"
  }

  function ShowItems(item: seq<Member>, items: seq<Value>, i: nat): Bytes
    requires i <= |items| && forall x :: x in items ==> x.Record? && AllTyped(item, x.fields)
    decreases item, 1, |items| - i
  {
    if i == |items| then "]"
    else
      "{" + ShowMembers(item, items[i].fields, 0) +
      if i + 1 < |items| then "," + ShowItems(item, items, i + 1) else "]"
  }

  // The text always carries the current version.
  function Versioned(vals: seq<Value>): seq<Value>
    requires vals != []
  {
    vals[0 := Int(SCHEMA_VERSION)]
  }

  lemma {:induction false} FirstIsNumber(members: seq<Member>, vals: seq<Value>)
    requires AllTyped(members, vals) && members != [] && members[0].kind == IntKind
    ensures AllTyped(members, Versioned(vals))
  {
  }

  lemma {:induction false} VersionFits(vals: seq<Value>)
    requires AllTyped(Root(), vals)
    ensures vals != [] && AllTyped(Root(), Versioned(vals))
  {
    hide Root, Versioned;
    RootStarts();
    FirstIsNumber(Root(), vals);
  }

  function Serialize(c: AppConfig): Bytes
    requires AllTyped(Root(), c.vals)
  {
    hide Root, AllTyped;
    VersionFits(c.vals);
    "{" + ShowMembers(Root(), Versioned(c.vals), 0)
  }
}
