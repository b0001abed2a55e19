// The configuration member by member: the names in its text, the values of a new device, and exactly
// which values an accepted text can give (core/include/omnisms/config.h, core/src/config.cpp:283-755).
module ConfigFields {
  import opened Text
  import opened JsonText
  import opened ConfigSchema
  import opened ConfigParse
  import opened ConfigRoundTrip
  import opened ConfigRanges

  predicate IsInt(v: Value, low: int, high: int) {
    v.Int? && low <= v.n <= high
  }

  predicate Named(members: seq<Member>, names: seq<Bytes>) {
    |members| == |names| && forall i :: 0 <= i < |names| ==> members[i].name == names[i]
  }

  // ----- the sections -----

  predicate IsModem(f: seq<Value>) {
    |f| == 4 && f[0].Text? && f[0].text != "" && f[1].Text? && IsInt(f[2], 1200, 4_000_000) && IsInt(f[3], 100, 3_600_000)
  }

  predicate IsChannel(f: seq<Value>) {
    |f| == 7 && f[0].Flag? && IsInt(f[1], 0, 10) && f[2].Text? && f[3].Text? && f[4].Text? && f[5].Text? && f[6].Text?
  }

  predicate IsEmail(f: seq<Value>) {
    |f| == 6 && f[0].Flag? && f[1].Text? && IsInt(f[2], 1, 65535) && f[3].Text? && f[4].Text? && f[5].Text?
  }

  predicate IsStorage(f: seq<Value>) {
    |f| == 1 && f[0].Text?
  }

  predicate IsWifi(f: seq<Value>) {
    |f| == 2 && f[0].Text? && f[1].Text?
  }

  predicate IsWeb(f: seq<Value>) {
    |f| == 5 && f[0].Text? && f[1].Text? && f[2].Text? && IsInt(f[3], 1, 65535) && f[4].Text?
  }

  predicate IsTime(f: seq<Value>) {
    |f| == 6 && IsInt(f[0], -720, 840) && f[1].Text? && f[2].Flag? && IsInt(f[3], 0, 23) && f[4].Flag? && IsInt(f[5], 0, 23)
  }

  predicate IsKeepalive(f: seq<Value>) {
    |f| == 7 && f[0].Flag? && IsInt(f[1], 1, 3650) && IsInt(f[2], 0, 3) && f[3].Text? && f[4].Text? && f[5].Text? &&
    IsInt(f[6], 0, 0xFFFF_FFFF)
  }

  predicate IsCellular(f: seq<Value>) {
    |f| == 5 && f[0].Flag? && f[1].Flag? && f[2].Text? && f[3].Text? && f[4].Flag?
  }

  predicate IsTask(f: seq<Value>) {
    |f| == 9 && f[0].Flag? && f[1].Text? && f[2].Text? && f[3].Flag? && IsInt(f[4], 1, 3650) && IsInt(f[5], 0, 3) &&
    f[6].Text? && f[7].Text? && IsInt(f[8], 0, 0xFFFF_FFFF)
  }

  // ----- the tables say the same -----

  // The type and the range of a member that is no section.
  predicate FieldOk(m: Member, v: Value) {
    Typed(m.kind, v) && Passes(m.check, v) && InRange(m.kind, v)
  }

  lemma {:induction false} AllFields(members: seq<Member>, vals: seq<Value>)
    ensures AllTyped(members, vals) && AllInRange(members, vals) <==>
            |vals| == |members| && forall i :: 0 <= i < |members| ==> FieldOk(members[i], vals[i])
  {
    hide Typed, Passes, InRange;
  }

  lemma {:induction false} InitsAre(members: seq<Member>, inits: seq<Value>)
    requires |inits| == |members| && forall i :: 0 <= i < |members| ==> members[i].init == inits[i]
    ensures Inits(members) == inits
  {
    hide Inits;
    forall i | 0 <= i < |members| ensures Inits(members)[i] == inits[i] { InitAt(members, i); }
  }

  lemma ModemFields()
    ensures Named(Modem(), ["driver", "endpoint", "baud", "pollIntervalMs"])
    ensures Inits(Modem()) == [Text("generic-3gpp"), Text(""), Int(115_200), Int(3000)]
    ensures forall f :: AllTyped(Modem(), f) && AllInRange(Modem(), f) <==> IsModem(f)
  {
    hide Inits, AllTyped, AllInRange, IsModem;
    InitsAre(Modem(), [Text("generic-3gpp"), Text(""), Int(115_200), Int(3000)]);
    forall f ensures AllTyped(Modem(), f) && AllInRange(Modem(), f) <==> IsModem(f) {
      AllFields(Modem(), f);
      ModemIs(f);
    }
  }

  lemma {:induction false} ModemIs(f: seq<Value>)
    ensures IsModem(f) <==> |f| == |Modem()| && forall i :: 0 <= i < |Modem()| ==> FieldOk(Modem()[i], f[i])
  {
    if |f| == 4 {
      assert FieldOk(Modem()[0], f[0]) <==> f[0].Text? && f[0].text != "";
      assert FieldOk(Modem()[1], f[1]) <==> f[1].Text?;
      assert FieldOk(Modem()[2], f[2]) <==> IsInt(f[2], 1200, 4_000_000);
      assert FieldOk(Modem()[3], f[3]) <==> IsInt(f[3], 100, 3_600_000);
    }
  }

  lemma ChannelFields()
    ensures Named(Channel(), ["enabled", "type", "name", "url", "key1", "key2", "customBody"])
    ensures Inits(Channel()) == [Flag(false), Int(1), Text(""), Text(""), Text(""), Text(""), Text("")]
    ensures forall f :: AllTyped(Channel(), f) && AllInRange(Channel(), f) <==> IsChannel(f)
  {
    hide Inits, AllTyped, AllInRange, IsChannel;
    InitsAre(Channel(), [Flag(false), Int(1), Text(""), Text(""), Text(""), Text(""), Text("")]);
    forall f ensures AllTyped(Channel(), f) && AllInRange(Channel(), f) <==> IsChannel(f) {
      AllFields(Channel(), f);
      ChannelIs(f);
    }
  }

  lemma {:induction false} ChannelIs(f: seq<Value>)
    ensures IsChannel(f) <==> |f| == |Channel()| && forall i :: 0 <= i < |Channel()| ==> FieldOk(Channel()[i], f[i])
  {
    if |f| == 7 {
      assert FieldOk(Channel()[0], f[0]) <==> f[0].Flag?;
      assert FieldOk(Channel()[1], f[1]) <==> IsInt(f[1], 0, 10);
      assert FieldOk(Channel()[2], f[2]) <==> f[2].Text?;
      assert FieldOk(Channel()[3], f[3]) <==> f[3].Text?;
      assert FieldOk(Channel()[4], f[4]) <==> f[4].Text?;
      assert FieldOk(Channel()[5], f[5]) <==> f[5].Text?;
      assert FieldOk(Channel()[6], f[6]) <==> f[6].Text?;
    }
  }

  lemma EmailFields()
    ensures Named(Email(), ["enabled", "server", "port", "username", "password", "recipient"])
    ensures Inits(Email()) == [Flag(false), Text(""), Int(465), Text(""), Text(""), Text("")]
    ensures forall f :: AllTyped(Email(), f) && AllInRange(Email(), f) <==> IsEmail(f)
  {
    hide Inits, AllTyped, AllInRange, IsEmail;
    InitsAre(Email(), [Flag(false), Text(""), Int(465), Text(""), Text(""), Text("")]);
    forall f ensures AllTyped(Email(), f) && AllInRange(Email(), f) <==> IsEmail(f) {
      AllFields(Email(), f);
      EmailIs(f);
    }
  }

  lemma {:induction false} EmailIs(f: seq<Value>)
    ensures IsEmail(f) <==> |f| == |Email()| && forall i :: 0 <= i < |Email()| ==> FieldOk(Email()[i], f[i])
  {
    if |f| == 6 {
      assert FieldOk(Email()[0], f[0]) <==> f[0].Flag?;
      assert FieldOk(Email()[1], f[1]) <==> f[1].Text?;
      assert FieldOk(Email()[2], f[2]) <==> IsInt(f[2], 1, 65535);
      assert FieldOk(Email()[3], f[3]) <==> f[3].Text?;
      assert FieldOk(Email()[4], f[4]) <==> f[4].Text?;
      assert FieldOk(Email()[5], f[5]) <==> f[5].Text?;
    }
  }

  lemma StorageFields()
    ensures Named(Storage(), ["inboxFile"])
    ensures Inits(Storage()) == [Text("")]
    ensures forall f :: AllTyped(Storage(), f) && AllInRange(Storage(), f) <==> IsStorage(f)
  {
    hide Inits, AllTyped, AllInRange, IsStorage;
    InitsAre(Storage(), [Text("")]);
    forall f ensures AllTyped(Storage(), f) && AllInRange(Storage(), f) <==> IsStorage(f) {
      AllFields(Storage(), f);
      StorageIs(f);
    }
  }

  lemma {:induction false} StorageIs(f: seq<Value>)
    ensures IsStorage(f) <==> |f| == |Storage()| && forall i :: 0 <= i < |Storage()| ==> FieldOk(Storage()[i], f[i])
  {
    if |f| == 1 {
      assert FieldOk(Storage()[0], f[0]) <==> f[0].Text?;
    }
  }

  lemma WifiFields()
    ensures Named(Wifi(), ["ssid", "password"])
    ensures Inits(Wifi()) == [Text(""), Text("")]
    ensures forall f :: AllTyped(Wifi(), f) && AllInRange(Wifi(), f) <==> IsWifi(f)
  {
    hide Inits, AllTyped, AllInRange, IsWifi;
    InitsAre(Wifi(), [Text(""), Text("")]);
    forall f ensures AllTyped(Wifi(), f) && AllInRange(Wifi(), f) <==> IsWifi(f) {
      AllFields(Wifi(), f);
      WifiIs(f);
    }
  }

  lemma {:induction false} WifiIs(f: seq<Value>)
    ensures IsWifi(f) <==> |f| == |Wifi()| && forall i :: 0 <= i < |Wifi()| ==> FieldOk(Wifi()[i], f[i])
  {
    if |f| == 2 {
      assert FieldOk(Wifi()[0], f[0]) <==> f[0].Text?;
      assert FieldOk(Wifi()[1], f[1]) <==> f[1].Text?;
    }
  }

  lemma WebFields()
    ensures Named(Web(), ["username", "password", "listenAddress", "port", "assetRoot"])
    ensures Inits(Web()) == [Text("admin"), Text("admin123"), Text("127.0.0.1"), Int(8080), Text("")]
    ensures forall f :: AllTyped(Web(), f) && AllInRange(Web(), f) <==> IsWeb(f)
  {
    hide Inits, AllTyped, AllInRange, IsWeb;
    InitsAre(Web(), [Text("admin"), Text("admin123"), Text("127.0.0.1"), Int(8080), Text("")]);
    forall f ensures AllTyped(Web(), f) && AllInRange(Web(), f) <==> IsWeb(f) {
      AllFields(Web(), f);
      WebIs(f);
    }
  }

  lemma {:induction false} WebIs(f: seq<Value>)
    ensures IsWeb(f) <==> |f| == |Web()| && forall i :: 0 <= i < |Web()| ==> FieldOk(Web()[i], f[i])
  {
    if |f| == 5 {
      assert FieldOk(Web()[0], f[0]) <==> f[0].Text?;
      assert FieldOk(Web()[1], f[1]) <==> f[1].Text?;
      assert FieldOk(Web()[2], f[2]) <==> f[2].Text?;
      assert FieldOk(Web()[3], f[3]) <==> IsInt(f[3], 1, 65535);
      assert FieldOk(Web()[4], f[4]) <==> f[4].Text?;
    }
  }

  lemma TimeFields()
    ensures Named(Time(), ["timezoneOffsetMin", "ntpServer", "rebootEnabled", "rebootHour", "heartbeatEnabled", "heartbeatHour"])
    ensures Inits(Time()) == [Int(480), Text("ntp.aliyun.com"), Flag(false), Int(4), Flag(false), Int(9)]
    ensures forall f :: AllTyped(Time(), f) && AllInRange(Time(), f) <==> IsTime(f)
  {
    hide Inits, AllTyped, AllInRange, IsTime;
    InitsAre(Time(), [Int(480), Text("ntp.aliyun.com"), Flag(false), Int(4), Flag(false), Int(9)]);
    forall f ensures AllTyped(Time(), f) && AllInRange(Time(), f) <==> IsTime(f) {
      AllFields(Time(), f);
      TimeIs(f);
    }
  }

  lemma {:induction false} TimeIs(f: seq<Value>)
    ensures IsTime(f) <==> |f| == |Time()| && forall i :: 0 <= i < |Time()| ==> FieldOk(Time()[i], f[i])
  {
    if |f| == 6 {
      assert FieldOk(Time()[0], f[0]) <==> IsInt(f[0], -720, 840);
      assert FieldOk(Time()[1], f[1]) <==> f[1].Text?;
      assert FieldOk(Time()[2], f[2]) <==> f[2].Flag?;
      assert FieldOk(Time()[3], f[3]) <==> IsInt(f[3], 0, 23);
      assert FieldOk(Time()[4], f[4]) <==> f[4].Flag?;
      assert FieldOk(Time()[5], f[5]) <==> IsInt(f[5], 0, 23);
    }
  }

  lemma KeepaliveFields()
    ensures Named(Keepalive(), ["enabled", "intervalDays", "action", "target", "url", "profile", "lastRun"])
    ensures Inits(Keepalive()) == [Flag(false), Int(175), Int(1), Text(""), Text(""), Text(""), Int(0)]
    ensures forall f :: AllTyped(Keepalive(), f) && AllInRange(Keepalive(), f) <==> IsKeepalive(f)
  {
    hide Inits, AllTyped, AllInRange, IsKeepalive;
    InitsAre(Keepalive(), [Flag(false), Int(175), Int(1), Text(""), Text(""), Text(""), Int(0)]);
    forall f ensures AllTyped(Keepalive(), f) && AllInRange(Keepalive(), f) <==> IsKeepalive(f) {
      AllFields(Keepalive(), f);
      KeepaliveIs(f);
    }
  }

  lemma {:induction false} KeepaliveIs(f: seq<Value>)
    ensures IsKeepalive(f) <==> |f| == |Keepalive()| && forall i :: 0 <= i < |Keepalive()| ==> FieldOk(Keepalive()[i], f[i])
  {
    if |f| == 7 {
      assert FieldOk(Keepalive()[0], f[0]) <==> f[0].Flag?;
      assert FieldOk(Keepalive()[1], f[1]) <==> IsInt(f[1], 1, 3650);
      assert FieldOk(Keepalive()[2], f[2]) <==> IsInt(f[2], 0, 3);
      assert FieldOk(Keepalive()[3], f[3]) <==> f[3].Text?;
      assert FieldOk(Keepalive()[4], f[4]) <==> f[4].Text?;
      assert FieldOk(Keepalive()[5], f[5]) <==> f[5].Text?;
      assert FieldOk(Keepalive()[6], f[6]) <==> IsInt(f[6], 0, 0xFFFF_FFFF);
    }
  }

  lemma CellularFields()
    ensures Named(Cellular(), ["dataEnabled", "roamingEnabled", "apn", "operatorPlmn", "netLedEnabled"])
    ensures Inits(Cellular()) == [Flag(false), Flag(true), Text(""), Text(""), Flag(true)]
    ensures forall f :: AllTyped(Cellular(), f) && AllInRange(Cellular(), f) <==> IsCellular(f)
  {
    hide Inits, AllTyped, AllInRange, IsCellular;
    InitsAre(Cellular(), [Flag(false), Flag(true), Text(""), Text(""), Flag(true)]);
    forall f ensures AllTyped(Cellular(), f) && AllInRange(Cellular(), f) <==> IsCellular(f) {
      AllFields(Cellular(), f);
      CellularIs(f);
    }
  }

  lemma {:induction false} CellularIs(f: seq<Value>)
    ensures IsCellular(f) <==> |f| == |Cellular()| && forall i :: 0 <= i < |Cellular()| ==> FieldOk(Cellular()[i], f[i])
  {
    if |f| == 5 {
      assert FieldOk(Cellular()[0], f[0]) <==> f[0].Flag?;
      assert FieldOk(Cellular()[1], f[1]) <==> f[1].Flag?;
      assert FieldOk(Cellular()[2], f[2]) <==> f[2].Text?;
      assert FieldOk(Cellular()[3], f[3]) <==> f[3].Text?;
      assert FieldOk(Cellular()[4], f[4]) <==> f[4].Flag?;
    }
  }

  lemma TaskFields()
    ensures Named(Task(), ["enabled", "name", "profile", "switchBack", "intervalDays", "action", "target", "payload", "lastRun"])
    ensures Inits(Task()) == [Flag(false), Text(""), Text(""), Flag(true), Int(30), Int(0), Text(""), Text(""), Int(0)]
    ensures forall f :: AllTyped(Task(), f) && AllInRange(Task(), f) <==> IsTask(f)
  {
    hide Inits, AllTyped, AllInRange, IsTask;
    InitsAre(Task(), [Flag(false), Text(""), Text(""), Flag(true), Int(30), Int(0), Text(""), Text(""), Int(0)]);
    forall f ensures AllTyped(Task(), f) && AllInRange(Task(), f) <==> IsTask(f) {
      AllFields(Task(), f);
      TaskIs(f);
    }
  }

  lemma {:induction false} TaskIs(f: seq<Value>)
    ensures IsTask(f) <==> |f| == |Task()| && forall i :: 0 <= i < |Task()| ==> FieldOk(Task()[i], f[i])
  {
    if |f| == 9 {
      assert FieldOk(Task()[0], f[0]) <==> f[0].Flag?;
      assert FieldOk(Task()[1], f[1]) <==> f[1].Text?;
      assert FieldOk(Task()[2], f[2]) <==> f[2].Text?;
      assert FieldOk(Task()[3], f[3]) <==> f[3].Flag?;
      assert FieldOk(Task()[4], f[4]) <==> IsInt(f[4], 1, 3650);
      assert FieldOk(Task()[5], f[5]) <==> IsInt(f[5], 0, 3);
      assert FieldOk(Task()[6], f[6]) <==> f[6].Text?;
      assert FieldOk(Task()[7], f[7]) <==> f[7].Text?;
      assert FieldOk(Task()[8], f[8]) <==> IsInt(f[8], 0, 0xFFFF_FFFF);
    }
  }

  // ----- the whole configuration -----

  // What every configuration holds that an accepted text can give: up to the channels, and behind them.
  predicate IsFront(vals: seq<Value>)
    requires |vals| == 17
  {
    && IsInt(vals[0], -0x8000_0000, 0x7FFF_FFFF)
    && vals[1].Record? && IsModem(vals[1].fields)
    && vals[2].Text?
    && vals[3].Text?
    && vals[4].Text?
    && vals[5].Text?
    && vals[6].Flag?
    && vals[7].Flag?
    && (vals[8].List? && |vals[8].items| == 5 && forall x :: x in vals[8].items ==> x.Record? && IsChannel(x.fields))
  }

  predicate IsBack(vals: seq<Value>)
    requires |vals| == 17
  {
    && vals[9].Record? && IsEmail(vals[9].fields)
    && vals[10].Record? && IsStorage(vals[10].fields)
    && vals[11].Record? && IsWifi(vals[11].fields)
    && vals[12].Record? && IsWeb(vals[12].fields)
    && vals[13].Record? && IsTime(vals[13].fields)
    && vals[14].Record? && IsKeepalive(vals[14].fields)
    && vals[15].Record? && IsCellular(vals[15].fields)
    && (vals[16].List? && |vals[16].items| == 6 && forall x :: x in vals[16].items ==> x.Record? && IsTask(x.fields))
  }

  predicate IsConfig(vals: seq<Value>) {
    |vals| == 17 && IsFront(vals) && IsBack(vals)
  }

  lemma FrontMembers()
    ensures |Root()| == |Inits(Root())| == 17
    ensures Root()[0].name == "schemaVersion" && Root()[1].name == "modem" && Root()[2].name == "receiver"
    ensures Root()[3].name == "adminPhone" && Root()[4].name == "numberBlacklist" && Root()[5].name == "forwardRules"
    ensures Root()[6].name == "callNotifyEnabled" && Root()[7].name == "pushEnabled" && Root()[8].name == "pushChannels"
    ensures Inits(Root())[0] == Int(1) && Inits(Root())[1] == Record(Inits(Modem()))
    ensures Inits(Root())[2] == Text("") && Inits(Root())[3] == Text("")
    ensures Inits(Root())[4] == Text("") && Inits(Root())[5] == Text("")
    ensures Inits(Root())[6] == Flag(true) && Inits(Root())[7] == Flag(true)
    ensures Inits(Root())[8] == List(Copies(Inits(Channel()), 5))
  {
    hide Inits, Copies, Modem, Channel, Email, Storage, Wifi, Web, Time, Keepalive, Cellular, Task;
    RootSize();
    InitAt(Root(), 0);
    InitAt(Root(), 1);
    InitAt(Root(), 2);
    InitAt(Root(), 3);
    InitAt(Root(), 4);
    InitAt(Root(), 5);
    InitAt(Root(), 6);
    InitAt(Root(), 7);
    InitAt(Root(), 8);
  }

  lemma BackMembers()
    ensures |Root()| == |Inits(Root())| == 17
    ensures Root()[9].name == "email" && Root()[10].name == "storage" && Root()[11].name == "wifi"
    ensures Root()[12].name == "web" && Root()[13].name == "time" && Root()[14].name == "keepalive"
    ensures Root()[15].name == "cellular" && Root()[16].name == "scheduledTasks"
    ensures Inits(Root())[9] == Record(Inits(Email())) && Inits(Root())[10] == Record(Inits(Storage()))
    ensures Inits(Root())[11] == Record(Inits(Wifi())) && Inits(Root())[12] == Record(Inits(Web()))
    ensures Inits(Root())[13] == Record(Inits(Time())) && Inits(Root())[14] == Record(Inits(Keepalive()))
    ensures Inits(Root())[15] == Record(Inits(Cellular())) && Inits(Root())[16] == List(Copies(Inits(Task()), 6))
  {
    hide Inits, Copies, Modem, Channel, Email, Storage, Wifi, Web, Time, Keepalive, Cellular, Task;
    RootSize();
    InitAt(Root(), 9);
    InitAt(Root(), 10);
    InitAt(Root(), 11);
    InitAt(Root(), 12);
    InitAt(Root(), 13);
    InitAt(Root(), 14);
    InitAt(Root(), 15);
    InitAt(Root(), 16);
  }

  lemma {:induction false} SectionOk(name: Bytes, members: seq<Member>, v: Value)
    ensures FieldOk(Struct(name, members), v) <==> v.Record? && AllTyped(members, v.fields) && AllInRange(members, v.fields)
  {
    hide Inits;
  }

  lemma {:induction false} ListOk(name: Bytes, item: seq<Member>, size: nat, v: Value)
    ensures FieldOk(Structs(name, item, size), v) <==>
            v.List? && |v.items| == size && forall x :: x in v.items ==> x.Record? && AllTyped(item, x.fields) && AllInRange(item, x.fields)
  {
    hide Inits, Copies;
  }

  lemma {:induction false} TextOk(name: Bytes, v: Value)
    ensures FieldOk(TextField(name, ""), v) <==> v.Text?
  {
  }

  lemma {:induction false} FlagOk(name: Bytes, v: Value)
    ensures FieldOk(FlagField(name, true), v) <==> v.Flag?
  {
  }

  lemma {:induction false} VersionOk(v: Value)
    ensures FieldOk(Member("schemaVersion", IntKind, Free, Int(SCHEMA_VERSION)), v) <==> IsInt(v, -0x8000_0000, 0x7FFF_FFFF)
  {
  }

  lemma {:induction false} ConfigIs(vals: seq<Value>)
    ensures AllTyped(Root(), vals) && AllInRange(Root(), vals) <==> IsConfig(vals)
  {
    hide AllTyped, AllInRange, FieldOk, IsFront, IsBack, Root;
    AllFields(Root(), vals);
    RootSize();
    if |vals| == 17 {
      FrontIs(vals);
      BackIs(vals);
    }
  }

  lemma RootSize()
    ensures |Root()| == 17
  {
    hide Inits, Copies, Modem, Channel, Email, Storage, Wifi, Web, Time, Keepalive, Cellular, Task;
  }

  lemma {:induction false} FrontIs(vals: seq<Value>)
    requires |vals| == 17
    ensures |Root()| == 17 && (IsFront(vals) <==> forall i :: 0 <= i < 9 ==> FieldOk(Root()[i], vals[i]))
  {
    hide Inits, Copies, AllTyped, AllInRange, FieldOk, Struct, Structs, TextField, FlagField,
         Modem, Channel, Email, Storage, Wifi, Web, Time, Keepalive, Cellular, Task,
         IsModem, IsChannel, IsEmail, IsStorage, IsWifi, IsWeb, IsTime, IsKeepalive, IsCellular, IsTask;
    ModemFields();
    ChannelFields();
    VersionOk(vals[0]);
    SectionOk("modem", Modem(), vals[1]);
    TextOk("receiver", vals[2]);
    TextOk("adminPhone", vals[3]);
    TextOk("numberBlacklist", vals[4]);
    TextOk("forwardRules", vals[5]);
    FlagOk("callNotifyEnabled", vals[6]);
    FlagOk("pushEnabled", vals[7]);
    ListOk("pushChannels", Channel(), 5, vals[8]);
    assert FieldOk(Root()[0], vals[0]) <==> IsInt(vals[0], -0x8000_0000, 0x7FFF_FFFF);
    assert FieldOk(Root()[1], vals[1]) <==> vals[1].Record? && IsModem(vals[1].fields);
    assert FieldOk(Root()[2], vals[2]) <==> vals[2].Text?;
    assert FieldOk(Root()[3], vals[3]) <==> vals[3].Text?;
    assert FieldOk(Root()[4], vals[4]) <==> vals[4].Text?;
    assert FieldOk(Root()[5], vals[5]) <==> vals[5].Text?;
    assert FieldOk(Root()[6], vals[6]) <==> vals[6].Flag?;
    assert FieldOk(Root()[7], vals[7]) <==> vals[7].Flag?;
    assert FieldOk(Root()[8], vals[8]) <==> (vals[8].List? && |vals[8].items| == 5 && forall x :: x in vals[8].items ==> x.Record? && IsChannel(x.fields));
  }

  lemma {:induction false} BackIs(vals: seq<Value>)
    requires |vals| == 17
    ensures |Root()| == 17 && (IsBack(vals) <==> forall i :: 9 <= i < 17 ==> FieldOk(Root()[i], vals[i]))
  {
    hide Inits, Copies, AllTyped, AllInRange, FieldOk, Struct, Structs, TextField, FlagField,
         Modem, Channel, Email, Storage, Wifi, Web, Time, Keepalive, Cellular, Task,
         IsModem, IsChannel, IsEmail, IsStorage, IsWifi, IsWeb, IsTime, IsKeepalive, IsCellular, IsTask;
    EmailFields();
    StorageFields();
    WifiFields();
    WebFields();
    TimeFields();
    KeepaliveFields();
    CellularFields();
    TaskFields();
    SectionOk("email", Email(), vals[9]);
    SectionOk("storage", Storage(), vals[10]);
    SectionOk("wifi", Wifi(), vals[11]);
    SectionOk("web", Web(), vals[12]);
    SectionOk("time", Time(), vals[13]);
    SectionOk("keepalive", Keepalive(), vals[14]);
    SectionOk("cellular", Cellular(), vals[15]);
    ListOk("scheduledTasks", Task(), 6, vals[16]);
    assert FieldOk(Root()[9], vals[9]) <==> vals[9].Record? && IsEmail(vals[9].fields);
    assert FieldOk(Root()[10], vals[10]) <==> vals[10].Record? && IsStorage(vals[10].fields);
    assert FieldOk(Root()[11], vals[11]) <==> vals[11].Record? && IsWifi(vals[11].fields);
    assert FieldOk(Root()[12], vals[12]) <==> vals[12].Record? && IsWeb(vals[12].fields);
    assert FieldOk(Root()[13], vals[13]) <==> vals[13].Record? && IsTime(vals[13].fields);
    assert FieldOk(Root()[14], vals[14]) <==> vals[14].Record? && IsKeepalive(vals[14].fields);
    assert FieldOk(Root()[15], vals[15]) <==> vals[15].Record? && IsCellular(vals[15].fields);
    assert FieldOk(Root()[16], vals[16]) <==> (vals[16].List? && |vals[16].items| == 6 && forall x :: x in vals[16].items ==> x.Record? && IsTask(x.fields));
  }

  // An accepted text gives a configuration like this of version 1; and each of these is what its own text
  // gives, if that is at most 1 MiB.
  lemma {:induction false} AcceptedIs(text: Bytes)
    requires ParseConfig(text).Accepted?
    ensures IsConfig(ParseConfig(text).config.vals) && ParseConfig(text).config.vals[0] == Int(1)
  {
    hide Root, AllTyped, AllInRange, ParseConfig, IsFront, IsBack;
    AcceptedIsInRange(text);
    ConfigIs(ParseConfig(text).config.vals);
  }

  lemma {:induction false} EveryConfigIsAccepted(vals: seq<Value>)
    requires IsConfig(vals) && vals[0] == Int(1)
    ensures AllTyped(Root(), vals)
    ensures var text := Serialize(AppConfig(vals, {}));
            |text| <= 1_048_576 ==> ParseConfig(text) == Accepted(AppConfig(vals, From(0, |Root()|)))
  {
    hide Root, AllTyped, AllInRange, ParseConfig, IsFront, IsBack, Serialize;
    ConfigIs(vals);
    RoundTrip(AppConfig(vals, {}));
  }
}
