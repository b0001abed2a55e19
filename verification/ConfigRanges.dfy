// What an accepted configuration holds, whatever the text: values of the right types and within the
// ranges, for every section, also for one given as an empty object (core/src/config.cpp).
module ConfigRanges {
  import opened Text
  import opened JsonText
  import opened ConfigSchema
  import opened ConfigParse
  import opened ConfigRoundTrip

  predicate Good(k: Kind, v: Value) {
    Typed(k, v) && InRange(k, v)
  }

  // Every member good by itself, the ranges of this object aside.
  predicate PartsGood(members: seq<Member>, vals: seq<Value>) {
    |vals| == |members| && forall i :: 0 <= i < |members| ==> Good(members[i].kind, vals[i])
  }

  predicate AllGood(members: seq<Member>, vals: seq<Value>) {
    PartsGood(members, vals) && AllPass(members, vals)
  }

  // Tables whose default values are good.
  predicate Proper(k: Kind)
    decreases k, 1
  {
    match k
    case SmallKind(most) => most <= 0xFF
    case RecordKind(members) => AllProper(members)
    case ListKind(item, blank, _) => AllProper(item) && AllGood(item, blank)
    case _ => true
  }

  predicate AllProper(members: seq<Member>)
    decreases members, 0
  {
    forall i :: 0 <= i < |members| ==> Proper(members[i].kind) && Good(members[i].kind, members[i].init) && Passes(members[i].check, members[i].init)
  }

  lemma {:induction false} GoodRecord(members: seq<Member>, vals: seq<Value>)
    ensures Good(RecordKind(members), Record(vals)) <==> AllGood(members, vals)
  {
    hide Passes;
    var k, v := RecordKind(members), Record(vals);
    assert v.fields == vals;
    assert Typed(k, v) <==> AllTyped(members, vals);
    assert InRange(k, v) <==> AllInRange(members, vals);
    GoodIs(members, vals);
  }

  lemma {:induction false} GoodList(item: seq<Member>, blank: seq<Value>, items: seq<Value>)
    ensures Good(ListKind(item, blank, |items|), List(items)) <==> forall x :: x in items ==> Good(RecordKind(item), x)
  {
    hide AllPass, AllTyped, AllInRange;
  }

  lemma {:induction false} InitsGood(members: seq<Member>)
    requires AllProper(members)
    ensures AllGood(members, Inits(members))
  {
    hide Proper, Good, Passes;
    forall i | 0 <= i < |members| ensures Inits(members)[i] == members[i].init { InitAt(members, i); }
  }

  lemma {:induction false} InitAt(members: seq<Member>, i: nat)
    requires i < |members|
    ensures Inits(members)[i] == members[i].init
  {
    if i < |members| - 1 { InitAt(members[..|members| - 1], i); }
  }

  lemma {:induction false} ValueIsGood(k: Kind, was: Value, s: Bytes)
    requires Proper(k) && Good(k, was) && ParseInto(k, was, s).Done?
    ensures Good(k, ParseInto(k, was, s).value)
    decreases |s|, 1
  {
    hide String, Integer, Unsigned, Boolean, ParseRecord, ParseItems, Open, AllTyped, AllInRange, AllProper, AllGood;
    match k
    case RecordKind(members) =>
      assert was == Record(was.fields);
      GoodRecord(members, was.fields);
      GoodSize(members, was.fields);
      RecordIsGood(members, was.fields, s);
      GoodRecord(members, ParseRecord(members, was.fields, s).value.vals);
    case ListKind(item, blank, size) =>
      var list := Copies(blank, size);
      GoodRecord(item, blank);
      GoodList(item, blank, list);
      var o := Open(s, '[', ']');
      if o.More? {
        ItemsAreGood(item, list, 0, s[o.used..]);
        GoodList(item, blank, ParseItems(item, list, 0, s[o.used..]).value);
      }
    case _ =>
  }

  lemma {:induction false} GoodSize(members: seq<Member>, vals: seq<Value>)
    requires AllGood(members, vals)
    ensures |vals| == |members|
  {
  }

  lemma {:induction false} RecordIsGood(members: seq<Member>, vals: seq<Value>, s: Bytes)
    requires AllProper(members) && |vals| == |members| && AllGood(members, vals) && ParseRecord(members, vals, s).Done?
    ensures AllGood(members, ParseRecord(members, vals, s).value.vals)
    decreases |s|, 0
  {
    hide AllProper, PartsGood, AllPass, Open, ParseMembers;
    var o := Open(s, '{', '}');
    if o.More? { MembersAreGood(members, vals, {}, s[o.used..]); }
  }

  lemma {:induction false} MembersAreGood(members: seq<Member>, vals: seq<Value>, seen: set<nat>, s: Bytes)
    requires AllProper(members) && |vals| == |members| && PartsGood(members, vals) && ParseMembers(members, vals, seen, s).Done?
    ensures PartsGood(members, ParseMembers(members, vals, seen, s).value.vals)
    decreases |s|, 2
  {
    hide Key, Skip, IndexOf, ParseInto, NextMember, Good, Proper, Passes;
    var key := Key(s);
    var i := IndexOf(members, key.value);
    if i < |members| {
      var v := ParseInto(members[i].kind, vals[i], s[key.used..]);
      ValueIsGood(members[i].kind, vals[i], s[key.used..]);
      NextIsGood(members, vals[i := v.value], seen + {i}, s, key.used + v.used);
    } else {
      NextIsGood(members, vals, seen, s, key.used + Skip(s[key.used..], 0).used);
    }
  }

  lemma {:induction false} NextIsGood(members: seq<Member>, vals: seq<Value>, seen: set<nat>, s: Bytes, n: nat)
    requires AllProper(members) && |vals| == |members| && PartsGood(members, vals) && 0 < n <= |s|
    requires NextMember(members, vals, seen, s, n).Done?
    ensures PartsGood(members, NextMember(members, vals, seen, s, n).value.vals)
    decreases |s|, 1
  {
    hide Turns, ParseMembers, AllProper, PartsGood;
    var turn := Turns(s[n..], '}');
    if turn.More? { MembersAreGood(members, vals, seen, s[n + turn.used..]); }
  }

  lemma {:induction false} ItemsAreGood(item: seq<Member>, list: seq<Value>, count: nat, s: Bytes)
    requires AllProper(item) && (forall x :: x in list ==> Good(RecordKind(item), x)) && ParseItems(item, list, count, s).Done?
    ensures forall x :: x in ParseItems(item, list, count, s).value ==> Good(RecordKind(item), x)
    decreases |s|, 1
  {
    hide Turns, ParseRecord, AllProper, AllGood, Good;
    var x := list[count];
    RecordFields(item, x);
    GoodRecord(item, x.fields);
    var v := ParseRecord(item, x.fields, s);
    RecordIsGood(item, x.fields, s);
    GoodRecord(item, v.value.vals);
    var after := list[count := Record(v.value.vals)];
    var turn := Turns(s[v.used..], ']');
    if turn.More? { ItemsAreGood(item, after, count + 1, s[v.used + turn.used..]); }
  }

  lemma {:induction false} RecordFields(item: seq<Member>, x: Value)
    requires Good(RecordKind(item), x)
    ensures x.Record? && x == Record(x.fields) && |x.fields| == |item| && Fields(item, x) == x.fields
  {
    assert AllTyped(item, x.fields);
  }

  // ----- the table of AppConfig -----

  lemma {:induction false} FlatIsProper(members: seq<Member>)
    requires forall m :: m in members ==> Simple(m)
    ensures AllProper(members)
  {
    hide Simple;
    forall i | 0 <= i < |members| ensures Proper(members[i].kind) && Good(members[i].kind, members[i].init) && Passes(members[i].check, members[i].init) {
      SimpleIsProper(members[i]);
    }
  }

  // A number, flag or text whose default value is in its range.
  predicate Simple(m: Member) {
    && Passes(m.check, m.init)
    && match m.kind
       case TextKind => m.init.Text?
       case FlagKind => m.init.Flag?
       case IntKind => m.init.Int? && -0x8000_0000 <= m.init.n <= 0x7FFF_FFFF
       case UintKind => m.init.Int? && 0 <= m.init.n <= 0xFFFF_FFFF
       case SmallKind(most) => m.init.Int? && 0 <= m.init.n <= most <= 0xFF
       case _ => false
  }

  lemma {:induction false} SimpleIsProper(m: Member)
    requires Simple(m)
    ensures Proper(m.kind) && Good(m.kind, m.init) && Passes(m.check, m.init)
  {
  }

  lemma {:induction false} StructIsProper(name: Bytes, members: seq<Member>)
    requires AllProper(members)
    ensures ProperMember(Struct(name, members))
  {
    hide AllProper, Good;
    InitsGood(members);
    GoodRecord(members, Inits(members));
  }

  lemma {:induction false} StructsAreProper(name: Bytes, members: seq<Member>, size: nat)
    requires AllProper(members)
    ensures ProperMember(Structs(name, members, size))
  {
    hide AllProper, Good, AllGood;
    InitsGood(members);
    GoodRecord(members, Inits(members));
    GoodList(members, Inits(members), Copies(Inits(members), size));
  }

  lemma {:induction false} SimpleText(name: Bytes, init: Bytes)
    ensures Simple(TextField(name, init))
  {
  }

  lemma {:induction false} SimpleFlag(name: Bytes, init: bool)
    ensures Simple(FlagField(name, init))
  {
  }

  lemma {:induction false} SimpleInt(name: Bytes, low: int, high: int, init: int)
    requires low <= init <= high && -0x8000_0000 <= init <= 0x7FFF_FFFF
    ensures Simple(IntField(name, low, high, init))
  {
  }

  lemma {:induction false} SimpleSmall(name: Bytes, most: nat, init: nat)
    requires init <= most <= 0xFF
    ensures Simple(SmallField(name, most, init))
  {
  }

  lemma {:induction false} SimpleUint(name: Bytes)
    ensures Simple(UintField(name))
  {
  }

  lemma ModemIsProper()
    ensures AllProper(Modem())
  {
    hide AllProper, Proper, Good;
    FlatIsProper(Modem());
  }

  lemma ChannelIsProper()
    ensures AllProper(Channel())
  {
    hide AllProper, Proper, Good;
    FlatIsProper(Channel());
  }

  lemma EmailIsProper()
    ensures AllProper(Email())
  {
    hide AllProper, Proper, Good;
    FlatIsProper(Email());
  }

  lemma StorageIsProper()
    ensures AllProper(Storage())
  {
    hide AllProper, Proper, Good;
    FlatIsProper(Storage());
  }

  lemma WifiIsProper()
    ensures AllProper(Wifi())
  {
    hide AllProper, Proper, Good;
    FlatIsProper(Wifi());
  }

  lemma WebIsProper()
    ensures AllProper(Web())
  {
    hide AllProper, Proper, Good;
    FlatIsProper(Web());
  }

  lemma TimeIsProper()
    ensures AllProper(Time())
  {
    hide AllProper, Proper, Good;
    FlatIsProper(Time());
  }

  lemma KeepaliveIsProper()
    ensures AllProper(Keepalive())
  {
    hide AllProper, Proper, Good;
    FlatIsProper(Keepalive());
  }

  lemma CellularIsProper()
    ensures AllProper(Cellular())
  {
    hide AllProper, Proper, Good;
    FlatIsProper(Cellular());
  }

  lemma TaskIsProper()
    ensures AllProper(Task())
  {
    hide AllProper, Proper, Good, Simple, TextField, FlagField, IntField, SmallField, UintField;
    SimpleFlag("enabled", false);
    SimpleText("name", "");
    SimpleText("profile", "");
    SimpleFlag("switchBack", true);
    SimpleInt("intervalDays", 1, 3650, 30);
    SimpleSmall("action", 3, 0);
    SimpleText("target", "");
    SimpleText("payload", "");
    SimpleUint("lastRun");
    FlatIsProper(Task());
  }

  predicate ProperMember(m: Member) {
    Proper(m.kind) && Good(m.kind, m.init) && Passes(m.check, m.init)
  }

  lemma {:induction false} AllMembersProper(members: seq<Member>)
    requires forall m :: m in members ==> ProperMember(m)
    ensures AllProper(members)
  {
    hide Proper, Good, Passes;
    forall i | 0 <= i < |members| ensures Proper(members[i].kind) && Good(members[i].kind, members[i].init) && Passes(members[i].check, members[i].init) {
      assert ProperMember(members[i]);
    }
  }

  lemma {:induction false} SimpleMember(m: Member)
    requires Simple(m)
    ensures ProperMember(m)
  {
    SimpleIsProper(m);
  }

  lemma RootIsProper()
    ensures AllProper(Root())
  {
    hide AllProper, ProperMember, Modem, Channel, Email, Storage, Wifi, Web, Time, Keepalive, Cellular, Task,
         Struct, Structs, TextField, FlagField;
    ModemIsProper();
    ChannelIsProper();
    EmailIsProper();
    StorageIsProper();
    WifiIsProper();
    WebIsProper();
    TimeIsProper();
    KeepaliveIsProper();
    CellularIsProper();
    TaskIsProper();
    SimpleMember(Member("schemaVersion", IntKind, Free, Int(SCHEMA_VERSION)));
    StructIsProper("modem", Modem());
    TextIsProper("receiver");
    TextIsProper("adminPhone");
    TextIsProper("numberBlacklist");
    TextIsProper("forwardRules");
    FlagIsProper("callNotifyEnabled");
    FlagIsProper("pushEnabled");
    StructsAreProper("pushChannels", Channel(), MAX_PUSH_CHANNELS);
    StructIsProper("email", Email());
    StructIsProper("storage", Storage());
    StructIsProper("wifi", Wifi());
    StructIsProper("web", Web());
    StructIsProper("time", Time());
    StructIsProper("keepalive", Keepalive());
    StructIsProper("cellular", Cellular());
    StructsAreProper("scheduledTasks", Task(), MAX_SCHEDULED_TASKS);
    AllMembersProper(Root());
  }

  lemma {:induction false} TextIsProper(name: Bytes)
    ensures ProperMember(TextField(name, ""))
  {
    SimpleMember(TextField(name, ""));
  }

  lemma {:induction false} FlagIsProper(name: Bytes)
    ensures ProperMember(FlagField(name, true))
  {
    SimpleMember(FlagField(name, true));
  }

  // ----- the whole text -----

  lemma {:induction false} GoodIs(members: seq<Member>, vals: seq<Value>)
    ensures AllGood(members, vals) <==> AllTyped(members, vals) && AllInRange(members, vals)
  {
    hide Typed, InRange, AllPass;
  }

  // Every accepted text gives a configuration of version 1 whose values have their types and ranges.
  lemma {:induction false} AcceptedIsInRange(text: Bytes)
    requires ParseConfig(text).Accepted?
    ensures var c := ParseConfig(text).config;
            && AllTyped(Root(), c.vals) && AllInRange(Root(), c.vals)
            && c.vals != [] && Versioned(c.vals) == c.vals
  {
    hide Root, AllTyped, AllInRange, AllProper, AllGood, ParseRecord;
    RootStarts();
    RootIsProper();
    InitsGood(Root());
    RecordIsGood(Root(), Inits(Root()), text);
    GoodIs(Root(), ParseConfig(text).config.vals);
    var vals := ParseConfig(text).config.vals;
    assert vals[0 := vals[0]] == vals;
  }

  // So writing an accepted configuration and reading it again gives the same values, as long as the
  // writing fits.
  lemma {:induction false} AcceptedComesBack(text: Bytes)
    requires ParseConfig(text).Accepted?
    ensures var c := ParseConfig(text).config;
            && AllTyped(Root(), c.vals)
            && ParseConfig(Serialize(c)) ==
               if |Serialize(c)| <= MAX_BYTES then Accepted(AppConfig(c.vals, From(0, |Root()|))) else Rejected
  {
    hide Root, AllTyped, AllInRange, ParseConfig, Serialize;
    AcceptedIsInRange(text);
    RoundTrip(ParseConfig(text).config);
  }
}
