// The configuration of a new device: it is valid, its redacted export is longer than its text, and
// padded it cannot import its own export.
module ImportDefault {
  import opened Text
  import opened JsonText
  import opened ConfigSchema
  import opened ConfigParse
  import opened ConfigRoundTrip
  import opened ConfigRanges
  import opened Import
  import opened ImportLimit

  // AppConfig{} of core/include/omnisms/config.h.
  function Default(): AppConfig {
    AppConfig(Inits(Root()), {})
  }

  // ----- what is redacted -----

  lemma {:induction false} RootInit(i: nat)
    requires i < 17
    ensures |Root()| == 17 && Inits(Root())[i] == Root()[i].init
  {
    hide Inits, Struct, Structs, Modem, Channel, Email, Storage, Wifi, Web, Time, Keepalive, Cellular, Task;
    InitAt(Root(), i);
  }

  // The only secret of a new device is the web password.
  lemma OnlyOneSecret()
    ensures |Root()| == |Inits(Root())| == 17
    ensures RedactAll(Inits(Root())) == Inits(Root())[WEB := Record(Inits(Web())[1 := Text(REDACTED)])]
  {
    hide RedactSection, RedactAll, Inits, Copies, Root;
    SectionInits();
    var vals := Inits(Root());
    forall i | 0 <= i < 17 && i != WEB ensures RedactSection(vals[i], Secrets(i)) == vals[i] { NoSecret(i); }
    WebSecret();
  }

  lemma SectionInits()
    ensures |Inits(Root())| == |Root()| == 17
    ensures Inits(Root())[PUSH_CHANNELS] == List(Copies(Inits(Channel()), MAX_PUSH_CHANNELS))
    ensures Inits(Root())[EMAIL] == Record(Inits(Email())) && Inits(Root())[WIFI] == Record(Inits(Wifi()))
    ensures Inits(Root())[WEB] == Record(Inits(Web()))
  {
    hide Inits, Copies, Modem, Channel, Email, Storage, Wifi, Web, Time, Keepalive, Cellular, Task;
    RootInit(PUSH_CHANNELS);
    RootInit(EMAIL);
    RootInit(WIFI);
    RootInit(WEB);
  }

  lemma {:induction false} NoSecret(i: nat)
    requires i < 17 && i != WEB
    ensures |Inits(Root())| == 17 && RedactSection(Inits(Root())[i], Secrets(i)) == Inits(Root())[i]
  {
    hide Inits, Copies, Root;
    SectionInits();
    if i == PUSH_CHANNELS {
      ChannelHasNone();
      var items := Copies(Inits(Channel()), MAX_PUSH_CHANNELS);
      assert RedactItems(items, {3, 4, 5, 6}) == items;
    } else if i == EMAIL {
      EmailHasNone();
    } else if i == WIFI {
      WifiHasNone();
    } else {
      Unchanged(Inits(Root())[i]);
    }
  }

  lemma {:induction false} Unchanged(v: Value)
    ensures RedactSection(v, {}) == v
  {
    match v
    case Record(fields) => assert RedactFields(fields, {}) == fields;
    case List(items) =>
      forall i | 0 <= i < |items| ensures RedactItems(items, {})[i] == items[i] {
        if items[i].Record? { assert RedactFields(items[i].fields, {}) == items[i].fields; }
      }
      assert RedactItems(items, {}) == items;
    case _ =>
  }

  lemma {:induction false} AllEmpty(members: seq<Member>, secrets: set<nat>)
    requires forall i :: 0 <= i < |members| && i in secrets ==> members[i].init == Text("")
    ensures RedactFields(Inits(members), secrets) == Inits(members)
  {
    hide RedactFields;
    forall i | 0 <= i < |members| ensures Inits(members)[i] == members[i].init { InitAt(members, i); }
  }

  lemma ChannelHasNone()
    ensures RedactFields(Inits(Channel()), {3, 4, 5, 6}) == Inits(Channel())
  {
    hide Inits, RedactFields;
    AllEmpty(Channel(), {3, 4, 5, 6});
  }

  lemma EmailHasNone()
    ensures RedactFields(Inits(Email()), {4}) == Inits(Email())
  {
    hide Inits, RedactFields;
    AllEmpty(Email(), {4});
  }

  lemma WifiHasNone()
    ensures RedactFields(Inits(Wifi()), {1}) == Inits(Wifi())
  {
    hide Inits, RedactFields;
    AllEmpty(Wifi(), {1});
  }

  lemma WebSecret()
    ensures |Inits(Root())| == 17 && |Inits(Web())| == 5 && Inits(Web())[1] == Text("admin123")
    ensures RedactSection(Inits(Root())[WEB], Secrets(WEB)) == Record(Inits(Web())[1 := Text(REDACTED)])
  {
    hide Inits, RedactFields, Root;
    SectionInits();
    InitAt(Web(), 1);
    var fields := Inits(Web());
    assert RedactFields(fields, {1}) == fields[1 := Text(REDACTED)];
  }

  // ----- how long the texts are -----

  lemma {:induction false} PlainSize(s: Bytes)
    requires forall i :: 0 <= i < |s| ==> s[i] as int >= 0x20 && s[i] != '\\' && s[i] != '\"'
    ensures |Escaped(s)| == |s|
  {
    if s != [] { PlainSize(s[1..]); }
  }

  lemma {:induction false} EscapedSize(s: Bytes)
    ensures |Escaped(s)| <= 6 * |s|
  {
    if s != [] { EscapedSize(s[1..]); }
  }

  lemma DefaultIsGood()
    ensures AllTyped(Root(), Inits(Root())) && AllInRange(Root(), Inits(Root()))
  {
    hide Root, Inits, AllTyped, AllInRange;
    RootIsProper();
    InitsGood(Root());
    GoodIs(Root(), Inits(Root()));
  }

  lemma WebIsTyped()
    ensures AllTyped(Web(), Inits(Web())) && |Web()| == 5 && Web()[1].kind == TextKind
  {
    hide Inits, AllTyped, AllInRange;
    WebIsProper();
    InitsGood(Web());
    GoodIs(Web(), Inits(Web()));
  }

  // In the web section twelve bytes stand in the place of eight.
  lemma WebGrows()
    ensures AllTyped(Web(), Inits(Web())) && |Inits(Web())| == |Web()| == 5 && AllTyped(Web(), Inits(Web())[1 := Text(REDACTED)])
    ensures |ShowMembers(Web(), Inits(Web())[1 := Text(REDACTED)], 0)| == |ShowMembers(Web(), Inits(Web()), 0)| + 4
  {
    hide Inits, AllTyped, ShowMembers, Escaped, Web;
    WebIsTyped();
    WebSecret();
    SizeUpdate(Web(), Inits(Web()), 0, 1, Text(REDACTED));
    PlainSize(REDACTED);
    PlainSize("admin123");
  }

  // A new device's export is four bytes longer than its text.
  lemma DefaultExportIsLonger()
    ensures AllTyped(Root(), Default().vals)
    ensures |Export(Default())| == |Serialize(Default())| + 4
  {
    hide Root, Inits, AllTyped, AllInRange, ShowMembers, Web, RedactAll;
    DefaultIsGood();
    WebGrows();
    var vals, web := Inits(Root()), Record(Inits(Web())[1 := Text(REDACTED)]);
    VersionFits(vals);
    SectionInits();
    WebKind();
    SizeUpdate(Root(), Versioned(vals), 0, WEB, web);
    OnlyOneSecret();
    RedactedAllTyped(Root(), vals);
    assert Versioned(vals[WEB := web]) == Versioned(vals)[WEB := web];
  }

  lemma WebKind()
    ensures |Root()| == 17 && Root()[WEB].kind == RecordKind(Web())
  {
    hide Inits, Copies, Modem, Channel, Email, Storage, Wifi, Web, Time, Keepalive, Cellular, Task;
  }

  // ----- it is far below the limit -----

  predicate Short(m: Member) {
    Simple(m) && |m.name| <= 20 && (m.init.Text? ==> |m.init.text| <= 20)
  }

  lemma {:induction false} ShortSize(m: Member)
    requires Short(m)
    ensures Typed(m.kind, m.init) && |Show(m.kind, m.init)| <= 122
  {
    hide Escaped, Decimal;
    match m.init
    case Text(text) => EscapedSize(text);
    case Int(n) => DecimalLength(if n < 0 then -n else n, 10);
    case _ =>
  }

  // With at most 20 bytes for a name and `most` for a value.
  lemma {:induction false} MembersSize(members: seq<Member>, vals: seq<Value>, i: nat, most: nat)
    requires AllTyped(members, vals) && i <= |members|
    requires forall j :: 0 <= j < |members| ==> |members[j].name| <= 20 && Typed(members[j].kind, vals[j]) && |Show(members[j].kind, vals[j])| <= most
    ensures |ShowMembers(members, vals, i)| <= (|members| - i) * (most + 124) + 1
    decreases |members| - i
  {
    hide Typed, AllTyped, Show, ShowMembers, Escaped;
    if i < |members| {
      SizeStep(members, vals, i);
      EscapedSize(members[i].name);
      if i + 1 < |members| { MembersSize(members, vals, i + 1, most); }
      OneMore(|members| - i - 1, most + 124);
    } else {
      EndSize(members, vals);
    }
  }

  lemma {:induction false} OneMore(n: nat, per: nat)
    ensures (n + 1) * per == n * per + per
  {
  }

  predicate FewShort(members: seq<Member>) {
    |members| <= 9 && forall m :: m in members ==> Short(m)
  }

  lemma {:induction false} FlatSize(members: seq<Member>)
    requires FewShort(members) && AllTyped(members, Inits(members))
    ensures |ShowMembers(members, Inits(members), 0)| <= 2300
  {
    hide Short, Show, ShowMembers, Inits, AllTyped;
    forall j | 0 <= j < |members|
      ensures |members[j].name| <= 20 && |Inits(members)| == |members| && Typed(members[j].kind, Inits(members)[j])
              && |Show(members[j].kind, Inits(members)[j])| <= 122
    {
      InitAt(members, j);
      ShortSize(members[j]);
      ShortName(members[j]);
    }
    MembersSize(members, Inits(members), 0, 122);
  }

  lemma {:induction false} ShortName(m: Member)
    requires Short(m)
    ensures |m.name| <= 20
  {
  }

  lemma {:induction false} ItemsSize(item: seq<Member>, items: seq<Value>, i: nat)
    requires i <= |items| && AllTyped(item, Inits(item)) && FewShort(item)
    requires forall x :: x in items ==> x == Record(Inits(item))
    ensures |ShowItems(item, items, i)| <= (|items| - i) * 2302 + 1
    decreases |items| - i
  {
    hide AllTyped, ShowMembers, Inits, Short;
    if i < |items| {
      FlatSize(item);
      assert items[i] in items && items[i].fields == Inits(item);
      if i + 1 < |items| { ItemsSize(item, items, i + 1); }
    }
  }

  // A member of the root table whose default value is not too long.
  predicate Compact(m: Member) {
    |m.name| <= 20 && Typed(m.kind, m.init) && |Show(m.kind, m.init)| <= 14000
  }

  lemma {:induction false} ShortIsCompact(m: Member)
    requires Short(m)
    ensures Compact(m)
  {
    hide Short, Show;
    ShortSize(m);
    ShortName(m);
  }

  lemma {:induction false} StructIsCompact(name: Bytes, members: seq<Member>)
    requires |name| <= 20 && FewShort(members)
    ensures Compact(Struct(name, members))
  {
    hide Inits, ShowMembers, Short, AllTyped;
    ShortIsTyped(members);
    FlatSize(members);
  }

  lemma {:induction false} StructsAreCompact(name: Bytes, members: seq<Member>, size: nat)
    requires |name| <= 20 && FewShort(members) && size <= 6
    ensures Compact(Structs(name, members, size))
  {
    hide Inits, ShowMembers, ShowItems, Short, AllTyped;
    ShortIsTyped(members);
    ItemsSize(members, Copies(Inits(members), size), 0);
  }

  lemma {:induction false} ShortIsTyped(members: seq<Member>)
    requires FewShort(members)
    ensures AllTyped(members, Inits(members))
  {
    hide AllTyped, Inits, AllInRange;
    FlatIsProper(members);
    InitsGood(members);
    GoodIs(members, Inits(members));
  }

  lemma {:induction false} ShortText(name: Bytes)
    requires |name| <= 20
    ensures Short(TextField(name, ""))
  {
  }

  lemma {:induction false} ShortFlag(name: Bytes, init: bool)
    requires |name| <= 20
    ensures Short(FlagField(name, init))
  {
  }

  lemma {:induction false} ShortInt(name: Bytes, low: int, high: int, init: int)
    requires |name| <= 20 && low <= init <= high && -0x8000_0000 <= init <= 0x7FFF_FFFF
    ensures Short(IntField(name, low, high, init))
  {
  }

  lemma {:induction false} ShortSmall(name: Bytes, most: nat, init: nat)
    requires |name| <= 20 && init <= most <= 0xFF
    ensures Short(SmallField(name, most, init))
  {
  }

  lemma {:induction false} ShortUint(name: Bytes)
    requires |name| <= 20
    ensures Short(UintField(name))
  {
  }

  lemma ModemIsShort()
    ensures FewShort(Modem())
  {
  }

  lemma ChannelIsShort()
    ensures FewShort(Channel())
  {
    hide Short, TextField, FlagField, IntField, SmallField, UintField;
    ShortFlag("enabled", false);
    ShortSmall("type", 10, 1);
    ShortText("name");
    ShortText("url");
    ShortText("key1");
    ShortText("key2");
    ShortText("customBody");
  }

  lemma EmailIsShort()
    ensures FewShort(Email())
  {
  }

  lemma StorageIsShort()
    ensures FewShort(Storage())
  {
  }

  lemma WifiIsShort()
    ensures FewShort(Wifi())
  {
  }

  lemma WebIsShort()
    ensures FewShort(Web())
  {
  }

  lemma TimeIsShort()
    ensures FewShort(Time())
  {
  }

  lemma KeepaliveIsShort()
    ensures FewShort(Keepalive())
  {
    hide Short, TextField, FlagField, IntField, SmallField, UintField;
    ShortFlag("enabled", false);
    ShortInt("intervalDays", 1, 3650, 175);
    ShortSmall("action", 3, 1);
    ShortText("target");
    ShortText("url");
    ShortText("profile");
    ShortUint("lastRun");
  }

  lemma CellularIsShort()
    ensures FewShort(Cellular())
  {
  }

  lemma TaskIsShort()
    ensures FewShort(Task())
  {
    hide Short, TextField, FlagField, IntField, SmallField, UintField;
    ShortFlag("enabled", false);
    ShortText("name");
    ShortText("profile");
    ShortFlag("switchBack", true);
    ShortInt("intervalDays", 1, 3650, 30);
    ShortSmall("action", 3, 0);
    ShortText("target");
    ShortText("payload");
    ShortUint("lastRun");
  }

  lemma {:induction false} TextIsCompact(name: Bytes)
    requires |name| <= 20
    ensures Compact(TextField(name, ""))
  {
    hide Compact;
    ShortIsCompact(TextField(name, ""));
  }

  lemma {:induction false} FlagIsCompact(name: Bytes)
    requires |name| <= 20
    ensures Compact(FlagField(name, true))
  {
    hide Compact;
    ShortIsCompact(FlagField(name, true));
  }

  lemma RootIsCompact()
    ensures |Root()| == 17 && forall m :: m in Root() ==> Compact(m)
  {
    hide Compact, FewShort, Modem, Channel, Email, Storage, Wifi, Web, Time, Keepalive, Cellular, Task,
         Struct, Structs, TextField, FlagField;
    ModemIsShort();
    ChannelIsShort();
    EmailIsShort();
    StorageIsShort();
    WifiIsShort();
    WebIsShort();
    TimeIsShort();
    KeepaliveIsShort();
    CellularIsShort();
    TaskIsShort();
    VersionIsCompact();
    StructIsCompact("modem", Modem());
    TextIsCompact("receiver");
    TextIsCompact("adminPhone");
    TextIsCompact("numberBlacklist");
    TextIsCompact("forwardRules");
    FlagIsCompact("callNotifyEnabled");
    FlagIsCompact("pushEnabled");
    StructsAreCompact("pushChannels", Channel(), MAX_PUSH_CHANNELS);
    StructIsCompact("email", Email());
    StructIsCompact("storage", Storage());
    StructIsCompact("wifi", Wifi());
    StructIsCompact("web", Web());
    StructIsCompact("time", Time());
    StructIsCompact("keepalive", Keepalive());
    StructIsCompact("cellular", Cellular());
    StructsAreCompact("scheduledTasks", Task(), MAX_SCHEDULED_TASKS);
  }

  lemma VersionIsCompact()
    ensures Compact(Member("schemaVersion", IntKind, Free, Int(SCHEMA_VERSION)))
  {
    hide Compact;
    ShortIsCompact(Member("schemaVersion", IntKind, Free, Int(SCHEMA_VERSION)));
  }

  lemma DefaultFits()
    ensures AllTyped(Root(), Default().vals) && |Serialize(Default())| <= MAX_BYTES
  {
    hide Root, Inits, AllTyped, AllInRange, ShowMembers, Compact, Show;
    DefaultIsGood();
    RootIsCompact();
    var vals := Inits(Root());
    VersionFits(vals);
    forall j | 0 <= j < 17
      ensures |Root()[j].name| <= 20 && Typed(Root()[j].kind, vals[j]) && |Show(Root()[j].kind, vals[j])| <= 14000
    {
      RootInit(j);
      CompactIs(Root()[j]);
    }
    VersionStays();
    MembersSize(Root(), vals, 0, 14000);
  }

  lemma {:induction false} CompactIs(m: Member)
    requires Compact(m)
    ensures |m.name| <= 20 && Typed(m.kind, m.init) && |Show(m.kind, m.init)| <= 14000
  {
  }

  lemma VersionStays()
    ensures Inits(Root()) != [] && Versioned(Inits(Root())) == Inits(Root())
  {
    hide Inits, Struct, Structs, TextField, FlagField;
    RootInit(0);
  }

  // ----- a device that cannot import its own export -----

  // A new device is valid, whatever the rules are, if they accept an empty text; with a long enough
  // receiver it still is, and refuses its own export.
  lemma {:induction false} SomeExportIsRefused(rules: Rules) returns (device: AppConfig)
    requires rules("")
    ensures AllTyped(Root(), device.vals) && Validate(rules, device).Accepted?
    ensures ImportConfig(rules, device, Export(device)) == Refused
  {
    hide Root, Inits, AllTyped, AllInRange, ParseConfig, Serialize, Validate, ImportConfig;
    DefaultIsValid(rules);
    DefaultExportIsLonger();
    PaddedExportIsRefused(rules, Default());
    device := Padded(Default(), MAX_BYTES - |Serialize(Default())|);
  }

  lemma {:induction false} DefaultIsValid(rules: Rules)
    requires rules("")
    ensures AllTyped(Root(), Default().vals) && Validate(rules, Default()).Accepted?
  {
    hide Root, Inits, AllTyped, AllInRange, ParseConfig, Serialize;
    DefaultIsGood();
    DefaultFits();
    RulesAreEmpty();
    RoundTrip(Default());
  }

  lemma RulesAreEmpty()
    ensures |Inits(Root())| == 17 && Inits(Root())[FORWARD_RULES] == Text("")
  {
    hide Inits, Struct, Structs, FlagField;
    RootInit(FORWARD_RULES);
  }
}
