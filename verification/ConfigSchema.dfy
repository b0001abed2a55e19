// The configuration of core/include/omnisms/config.h as data: for every struct the JSON names of its
// members, their types, their default values and the range that the parser asks for.
module ConfigSchema {
  import opened Text

  datatype Value =
    | Text(text: Bytes)
    | Int(n: int)
    | Flag(on: bool)
    | Record(fields: seq<Value>)
    | List(items: seq<Value>)

  // What a member's value is made of: SmallKind is an integer the parser bounds at once, the member
  // of a struct that is a uint8_t.
  datatype Kind =
    | TextKind
    | IntKind
    | UintKind
    | SmallKind(most: nat)
    | FlagKind
    | RecordKind(members: seq<Member>)
    | ListKind(item: seq<Member>, blank: seq<Value>, size: nat)

  datatype Check = Free | NotEmpty | Within(low: int, high: int)

  datatype Member = Member(name: Bytes, kind: Kind, check: Check, init: Value)

  function Inits(members: seq<Member>): (r: seq<Value>)
    ensures |r| == |members|
  {
    if members == [] then [] else Inits(members[..|members| - 1]) + [members[|members| - 1].init]
  }

  function Copies(v: seq<Value>, n: nat): (r: seq<Value>)
    ensures |r| == n && forall i :: 0 <= i < n ==> r[i] == Record(v)
  {
    if n == 0 then [] else Copies(v, n - 1) + [Record(v)]
  }

  function TextField(name: Bytes, init: Bytes): Member { Member(name, TextKind, Free, Text(init)) }

  function FlagField(name: Bytes, init: bool): Member { Member(name, FlagKind, Free, Flag(init)) }

  function IntField(name: Bytes, low: int, high: int, init: int): Member { Member(name, IntKind, Within(low, high), Int(init)) }

  function SmallField(name: Bytes, most: nat, init: nat): Member { Member(name, SmallKind(most), Free, Int(init)) }

  function UintField(name: Bytes): Member { Member(name, UintKind, Free, Int(0)) }

  function Struct(name: Bytes, members: seq<Member>): Member {
    Member(name, RecordKind(members), Free, Record(Inits(members)))
  }

  function Structs(name: Bytes, members: seq<Member>, size: nat): Member {
    Member(name, ListKind(members, Inits(members), size), Free, List(Copies(Inits(members), size)))
  }

  function Modem(): seq<Member> {
    [Member("driver", TextKind, NotEmpty, Text("generic-3gpp")), TextField("endpoint", ""),
     IntField("baud", 1200, 4_000_000, 115_200), IntField("pollIntervalMs", 100, 3_600_000, 3000)]
  }

  function Channel(): seq<Member> {
    [FlagField("enabled", false), SmallField("type", 10, 1), TextField("name", ""), TextField("url", ""),
     TextField("key1", ""), TextField("key2", ""), TextField("customBody", "")]
  }

  function Email(): seq<Member> {
    [FlagField("enabled", false), TextField("server", ""), IntField("port", 1, 65535, 465),
     TextField("username", ""), TextField("password", ""), TextField("recipient", "")]
  }

  function Storage(): seq<Member> {
    [TextField("inboxFile", "")]
  }

  function Wifi(): seq<Member> {
    [TextField("ssid", ""), TextField("password", "")]
  }

  function Web(): seq<Member> {
    [TextField("username", "admin"), TextField("password", "admin123"), TextField("listenAddress", "127.0.0.1"),
     IntField("port", 1, 65535, 8080), TextField("assetRoot", "")]
  }

  function Time(): seq<Member> {
    [IntField("timezoneOffsetMin", -720, 840, 480), TextField("ntpServer", "ntp.aliyun.com"),
     FlagField("rebootEnabled", false), IntField("rebootHour", 0, 23, 4),
     FlagField("heartbeatEnabled", false), IntField("heartbeatHour", 0, 23, 9)]
  }

  function Keepalive(): seq<Member> {
    [FlagField("enabled", false), IntField("intervalDays", 1, 3650, 175), SmallField("action", 3, 1),
     TextField("target", ""), TextField("url", ""), TextField("profile", ""), UintField("lastRun")]
  }

  function Cellular(): seq<Member> {
    [FlagField("dataEnabled", false), FlagField("roamingEnabled", true), TextField("apn", ""),
     TextField("operatorPlmn", ""), FlagField("netLedEnabled", true)]
  }

  function Task(): seq<Member> {
    [FlagField("enabled", false), TextField("name", ""), TextField("profile", ""), FlagField("switchBack", true),
     IntField("intervalDays", 1, 3650, 30), SmallField("action", 3, 0), TextField("target", ""),
     TextField("payload", ""), UintField("lastRun")]
  }

  const MAX_PUSH_CHANNELS := 5
  const MAX_SCHEDULED_TASKS := 6
  const SCHEMA_VERSION := 1

  // AppConfig, in the order of its JSON text.
  function Root(): seq<Member> {
    hide Struct, Structs, TextField, FlagField, Modem, Channel, Email, Storage, Wifi, Web, Time, Keepalive, Cellular, Task, Inits;
    [Member("schemaVersion", IntKind, Free, Int(SCHEMA_VERSION)), Struct("modem", Modem()), TextField("receiver", ""),
     TextField("adminPhone", ""), TextField("numberBlacklist", ""), TextField("forwardRules", ""),
     FlagField("callNotifyEnabled", true), FlagField("pushEnabled", true),
     Structs("pushChannels", Channel(), MAX_PUSH_CHANNELS), Struct("email", Email()), Struct("storage", Storage()),
     Struct("wifi", Wifi()), Struct("web", Web()), Struct("time", Time()), Struct("keepalive", Keepalive()),
     Struct("cellular", Cellular()), Structs("scheduledTasks", Task(), MAX_SCHEDULED_TASKS)]
  }

  // ----- values that fit a table -----

  // The C++ types: int is 32 bits wide, lastRun is a uint32_t, a small member a uint8_t; the arrays
  // have their full length.
  predicate Typed(k: Kind, v: Value)
    decreases k, 1
  {
    match k
    case TextKind => v.Text?
    case IntKind => v.Int? && -0x8000_0000 <= v.n <= 0x7FFF_FFFF
    case UintKind => v.Int? && 0 <= v.n <= 0xFFFF_FFFF
    case SmallKind(_) => v.Int? && 0 <= v.n <= 0xFF
    case FlagKind => v.Flag?
    case RecordKind(members) => v.Record? && AllTyped(members, v.fields)
    case ListKind(item, _, size) =>
      v.List? && |v.items| == size && forall x :: x in v.items ==> x.Record? && AllTyped(item, x.fields)
  }

  predicate AllTyped(members: seq<Member>, vals: seq<Value>)
    decreases members, 0
  {
    |vals| == |members| && forall i :: 0 <= i < |members| ==> Typed(members[i].kind, vals[i])
  }

  predicate Passes(c: Check, v: Value) {
    match c
    case Free => true
    case NotEmpty => v != Text("")
    case Within(low, high) => v.Int? ==> low <= v.n <= high
  }

  predicate AllPass(members: seq<Member>, vals: seq<Value>)
    requires |vals| == |members|
  {
    forall i :: 0 <= i < |members| ==> Passes(members[i].check, vals[i])
  }

  // The ranges that the parser asks for, everywhere in the value.
  predicate InRange(k: Kind, v: Value)
    decreases k, 1
  {
    match k
    case SmallKind(most) => v.Int? ==> v.n <= most
    case RecordKind(members) => v.Record? ==> AllInRange(members, v.fields)
    case ListKind(item, _, _) => v.List? ==> forall x :: x in v.items ==> x.Record? && AllInRange(item, x.fields)
    case _ => true
  }

  predicate AllInRange(members: seq<Member>, vals: seq<Value>)
    decreases members, 0
  {
    |vals| == |members| && AllPass(members, vals) && forall i :: 0 <= i < |members| ==> InRange(members[i].kind, vals[i])
  }

  // ----- what the proofs ask of a table -----

  // The place of a name in the table, or the length of the table.
  function IndexOf(members: seq<Member>, name: Bytes): (i: nat)
    ensures i <= |members|
    ensures i < |members| ==> members[i].name == name
  {
    if members == [] then 0
    else
      var i := IndexOf(members[..|members| - 1], name);
      if i < |members| - 1 then i
      else if members[|members| - 1].name == name then |members| - 1 else |members|
  }
}
