// The export and the import of a configuration told by the names of its members: what is blanked out,
// what a text brings to a device, and when it is taken (ports/linux/src/main.cpp:680-697,
// ports/linux/src/config_store.cpp:76-145, 446-489).
module ImportFields {
  import opened Text
  import opened ConfigSchema
  import opened ConfigParse
  import opened ConfigRoundTrip
  import opened ConfigRanges
  import opened ConfigFields
  import opened Import

  // The members that are secrets.
  ghost predicate IsSecret(section: Bytes, field: Bytes) {
    || (section == "pushChannels" && (field == "url" || field == "key1" || field == "key2" || field == "customBody"))
    || ((section == "email" || section == "wifi" || section == "web") && field == "password")
  }

  lemma SectionKinds()
    ensures |Root()| == 17
    ensures Root()[8].kind == ListKind(Channel(), Inits(Channel()), 5)
    ensures Root()[9].kind == RecordKind(Email())
    ensures Root()[11].kind == RecordKind(Wifi()) && Root()[12].kind == RecordKind(Web())
    ensures Root()[1].kind == RecordKind(Modem())
  {
    hide Inits, Copies, Modem, Channel, Email, Storage, Wifi, Web, Time, Keepalive, Cellular, Task;
  }

  // The members of a struct, or of each item of an array of structs.
  ghost function Fields(k: Kind): seq<Member> {
    match k
    case RecordKind(members) => members
    case ListKind(item, _, _) => item
    case _ => []
  }

  lemma OtherSections(i: nat)
    requires i < 17 && i != 8 && i != 9 && i != 11 && i != 12
    ensures |Root()| == 17
    ensures Root()[i].name != "pushChannels" && Root()[i].name != "email" && Root()[i].name != "wifi" && Root()[i].name != "web"
  {
    hide Root, Inits;
    FrontMembers();
    BackMembers();
  }

  lemma ChannelSecrets(j: nat)
    requires j < |Channel()|
    ensures j in Secrets(8) <==> IsSecret("pushChannels", Channel()[j].name)
  {
    hide Inits;
    ChannelFields();
  }

  lemma EmailSecrets(j: nat)
    requires j < |Email()|
    ensures j in Secrets(9) <==> IsSecret("email", Email()[j].name)
  {
    hide Inits;
    EmailFields();
  }

  lemma WifiSecrets(j: nat)
    requires j < |Wifi()|
    ensures j in Secrets(11) <==> IsSecret("wifi", Wifi()[j].name)
  {
    hide Inits;
    WifiFields();
  }

  lemma WebSecrets(j: nat)
    requires j < |Web()|
    ensures j in Secrets(12) <==> IsSecret("web", Web()[j].name)
  {
    hide Inits;
    WebFields();
  }

  // The places that the code names are those of the secrets, and no others.
  lemma SecretsAre(i: nat, j: nat)
    requires i < |Root()| && j < |Fields(Root()[i].kind)|
    ensures j in Secrets(i) <==> IsSecret(Root()[i].name, Fields(Root()[i].kind)[j].name)
  {
    hide Root, Inits, Channel, Email, Wifi, Web, Modem;
    SectionKinds();
    FrontMembers();
    BackMembers();
    if i == 8 {
      ChannelSecrets(j);
    } else if i == 9 {
      EmailSecrets(j);
    } else if i == 11 {
      WifiSecrets(j);
    } else if i == 12 {
      WebSecrets(j);
    } else {
      OtherSections(i);
    }
  }

  // ----- the export -----

  ghost predicate FieldsHidden(section: Bytes, members: seq<Member>, before: seq<Value>, after: seq<Value>) {
    && |before| == |after| == |members|
    && forall j :: 0 <= j < |members| ==>
         after[j] == if IsSecret(section, members[j].name) && before[j].Text? && before[j].text != ""
                     then Text("__REDACTED__") else before[j]
  }

  ghost predicate SectionHidden(m: Member, before: Value, after: Value) {
    match m.kind
    case RecordKind(members) =>
      before.Record? && after.Record? && FieldsHidden(m.name, members, before.fields, after.fields)
    case ListKind(item, _, _) =>
      && before.List? && after.List? && |before.items| == |after.items|
      && forall i :: 0 <= i < |before.items| ==>
           before.items[i].Record? && after.items[i].Record? && FieldsHidden(m.name, item, before.items[i].fields, after.items[i].fields)
    case _ => after == before
  }

  // Every secret that is not empty is blanked out, and nothing else differs.
  ghost predicate Hides(before: seq<Value>, after: seq<Value>) {
    |before| == |after| == |Root()| && forall i :: 0 <= i < |Root()| ==> SectionHidden(Root()[i], before[i], after[i])
  }

  lemma {:induction false} FieldsAreHidden(section: Bytes, members: seq<Member>, fields: seq<Value>, secrets: set<nat>)
    requires AllTyped(members, fields)
    requires forall j :: 0 <= j < |members| ==> (j in secrets <==> IsSecret(section, members[j].name))
    ensures FieldsHidden(section, members, fields, RedactFields(fields, secrets))
  {
    hide Typed, IsSecret;
  }

  lemma {:induction false} SectionIsHidden(m: Member, v: Value, secrets: set<nat>)
    requires Typed(m.kind, v)
    requires forall j :: 0 <= j < |Fields(m.kind)| ==> (j in secrets <==> IsSecret(m.name, Fields(m.kind)[j].name))
    ensures SectionHidden(m, v, RedactSection(v, secrets))
  {
    hide AllTyped, FieldsHidden, RedactFields, RedactItems, IsSecret;
    match m.kind
    case RecordKind(members) => FieldsAreHidden(m.name, members, v.fields, secrets);
    case ListKind(item, _, _) =>
      forall i | 0 <= i < |v.items|
        ensures v.items[i].Record? && FieldsHidden(m.name, item, v.items[i].fields, RedactFields(v.items[i].fields, secrets)) {
        assert v.items[i] in v.items;
        FieldsAreHidden(m.name, item, v.items[i].fields, secrets);
      }
    case _ =>
  }

  lemma {:induction false} AllAreHidden(vals: seq<Value>)
    requires AllTyped(Root(), vals)
    ensures Hides(vals, RedactAll(vals))
  {
    hide Root, Typed, SectionHidden, RedactSection, Secrets, IsSecret, Fields;
    forall i | 0 <= i < |Root()| ensures SectionHidden(Root()[i], vals[i], RedactAll(vals)[i]) {
      forall j | 0 <= j < |Fields(Root()[i].kind)|
        ensures j in Secrets(i) <==> IsSecret(Root()[i].name, Fields(Root()[i].kind)[j].name) {
        SecretsAre(i, j);
      }
      SectionIsHidden(Root()[i], vals[i], Secrets(i));
    }
  }

  // The export is the text of the configuration with its secrets blanked out.
  lemma {:induction false} ExportHidesSecrets(c: AppConfig)
    requires AllTyped(Root(), c.vals)
    ensures exists hidden :: AllTyped(Root(), hidden) && Hides(c.vals, hidden) && Export(c) == Serialize(AppConfig(hidden, c.seen))
  {
    hide Root, AllTyped, AllInRange, Hides, Serialize;
    AllAreHidden(c.vals);
    RedactedAllTyped(Root(), c.vals);
    assert Export(c) == Serialize(AppConfig(RedactAll(c.vals), c.seen));
  }

  // ----- the import -----

  ghost predicate FieldsTaken(section: Bytes, members: seq<Member>, patch: seq<Value>, device: seq<Value>, after: seq<Value>) {
    && |patch| == |device| == |after| == |members|
    && forall j :: 0 <= j < |members| ==>
         after[j] == if IsSecret(section, members[j].name) && patch[j] == Text("__REDACTED__") then device[j] else patch[j]
  }

  ghost predicate SectionTaken(m: Member, patch: Value, device: Value, after: Value) {
    match m.kind
    case RecordKind(members) =>
      patch.Record? && device.Record? && after.Record? && FieldsTaken(m.name, members, patch.fields, device.fields, after.fields)
    case ListKind(item, _, _) =>
      && patch.List? && device.List? && after.List? && |patch.items| == |device.items| == |after.items|
      && forall i :: 0 <= i < |patch.items| ==>
           && patch.items[i].Record? && device.items[i].Record? && after.items[i].Record?
           && FieldsTaken(m.name, item, patch.items[i].fields, device.items[i].fields, after.items[i].fields)
    case _ => after == patch
  }

  // A section that the text has is taken from it, but for blanked secrets; all else stays the device's.
  ghost predicate Takes(patch: AppConfig, device: seq<Value>, merged: seq<Value>) {
    && |patch.vals| == |device| == |merged| == |Root()| > 0
    && merged[0] == device[0]
    && forall i :: 0 < i < |Root()| ==>
         if i in patch.seen then SectionTaken(Root()[i], patch.vals[i], device[i], merged[i]) else merged[i] == device[i]
  }

  lemma {:induction false} FieldsAreTaken(section: Bytes, members: seq<Member>, patch: seq<Value>, device: seq<Value>, secrets: set<nat>)
    requires AllTyped(members, patch) && AllTyped(members, device)
    requires forall j :: 0 <= j < |members| ==> (j in secrets <==> IsSecret(section, members[j].name))
    ensures FieldsTaken(section, members, patch, device, PreserveRecord(Record(patch), Record(device), secrets).fields)
  {
    hide Typed, IsSecret;
  }

  lemma {:induction false} SectionIsTaken(m: Member, patch: Value, device: Value, secrets: set<nat>)
    requires Typed(m.kind, patch) && Typed(m.kind, device)
    requires forall j :: 0 <= j < |Fields(m.kind)| ==> (j in secrets <==> IsSecret(m.name, Fields(m.kind)[j].name))
    ensures SectionTaken(m, patch, device, PreserveSection(patch, device, secrets))
  {
    hide AllTyped, FieldsTaken, PreserveFields, PreserveItems, IsSecret;
    match m.kind
    case RecordKind(members) =>
      SameLength(members, patch.fields, device.fields);
      FieldsAreTaken(m.name, members, patch.fields, device.fields, secrets);
      assert Record(patch.fields) == patch && Record(device.fields) == device;
    case ListKind(item, _, _) =>
      forall i | 0 <= i < |patch.items|
        ensures && patch.items[i].Record? && device.items[i].Record? && PreserveRecord(patch.items[i], device.items[i], secrets).Record?
                && FieldsTaken(m.name, item, patch.items[i].fields, device.items[i].fields, PreserveRecord(patch.items[i], device.items[i], secrets).fields) {
        assert patch.items[i] in patch.items && device.items[i] in device.items;
        SameLength(item, patch.items[i].fields, device.items[i].fields);
        FieldsAreTaken(m.name, item, patch.items[i].fields, device.items[i].fields, secrets);
        assert Record(patch.items[i].fields) == patch.items[i] && Record(device.items[i].fields) == device.items[i];
      }
    case _ =>
  }

  lemma {:induction false} MergeTakes(patch: AppConfig, device: seq<Value>)
    requires AllTyped(Root(), patch.vals) && AllTyped(Root(), device)
    ensures |patch.vals| == |device| && Takes(patch, device, Merge(device, patch.vals, patch.seen))
  {
    hide Root, Typed, SectionTaken, PreserveSection, Secrets, IsSecret, Fields;
    RootStarts();
    forall i | 0 < i < |Root()| && i in patch.seen
      ensures SectionTaken(Root()[i], patch.vals[i], device[i], Merge(device, patch.vals, patch.seen)[i]) {
      forall j | 0 <= j < |Fields(Root()[i].kind)|
        ensures j in Secrets(i) <==> IsSecret(Root()[i].name, Fields(Root()[i].kind)[j].name) {
        SecretsAre(i, j);
      }
      SectionIsTaken(Root()[i], patch.vals[i], device[i], Secrets(i));
    }
  }

  // There is only one such outcome.
  lemma {:induction false} SectionTakenOnce(m: Member, patch: Value, device: Value, a: Value, b: Value)
    requires SectionTaken(m, patch, device, a) && SectionTaken(m, patch, device, b)
    ensures a == b
  {
    hide IsSecret;
    match m.kind
    case RecordKind(_) => assert a.fields == b.fields;
    case ListKind(_, _, _) =>
      forall i | 0 <= i < |a.items| ensures a.items[i] == b.items[i] { assert a.items[i].fields == b.items[i].fields; }
      assert a.items == b.items;
    case _ =>
  }

  lemma {:induction false} TakenOnce(patch: AppConfig, device: seq<Value>, a: seq<Value>, b: seq<Value>)
    requires Takes(patch, device, a) && Takes(patch, device, b)
    ensures a == b
  {
    hide Root, SectionTaken;
    forall i | 0 < i < |a| ensures a[i] == b[i] {
      if i in patch.seen { SectionTakenOnce(Root()[i], patch.vals[i], device[i], a[i], b[i]); }
    }
  }

  // ----- the answer -----

  // The first byte of the text that is neither a blank, a tab nor the end of a line.
  ghost predicate FirstByte(raw: Bytes, k: nat) {
    && k < |raw| && raw[k] != ' ' && raw[k] != '\t' && raw[k] != '\r' && raw[k] != '\n'
    && forall i :: 0 <= i < k ==> raw[i] == ' ' || raw[i] == '\t' || raw[i] == '\r' || raw[i] == '\n'
  }

  lemma {:induction false} FirstTextIs(raw: Bytes, k: nat)
    ensures FirstByte(raw, k) <==> k == FirstText(raw) < |raw|
  {
    if raw != [] && raw[0] in " \t\r\n" && k > 0 {
      FirstTextIs(raw[1..], k - 1);
      assert FirstByte(raw, k) <==> FirstByte(raw[1..], k - 1) by {
        assert forall i :: 0 <= i < |raw| - 1 ==> raw[1..][i] == raw[i + 1];
        if FirstByte(raw[1..], k - 1) {
          forall i | 0 <= i < k ensures raw[i] == ' ' || raw[i] == '\t' || raw[i] == '\r' || raw[i] == '\n' {
            if i > 0 { assert raw[1..][i - 1] == raw[i]; }
          }
        }
      }
    }
  }

  ghost predicate NeedsRestart(section: Bytes, field: Bytes) {
    || (section == "modem" && (field == "driver" || field == "endpoint" || field == "baud"))
    || (section == "web" && (field == "listenAddress" || field == "port"))
  }

  // A member of a section for which the service has to be started anew, with two different values.
  ghost predicate Differs(before: seq<Value>, after: seq<Value>, i: nat, j: nat) {
    && i < |Root()| && i < |before| && i < |after| && Root()[i].kind.RecordKind? && j < |Root()[i].kind.members|
    && NeedsRestart(Root()[i].name, Root()[i].kind.members[j].name)
    && before[i].Record? && after[i].Record? && j < |before[i].fields| && j < |after[i].fields|
    && before[i].fields[j] != after[i].fields[j]
  }

  lemma {:induction false} SectionLengths(vals: seq<Value>)
    requires AllTyped(Root(), vals)
    ensures |vals| == 17 && vals[1].Record? && |vals[1].fields| == 4 && vals[12].Record? && |vals[12].fields| == 5
    ensures vals[5].Text?
  {
    hide Root, Inits;
    SectionKinds();
    ModemFields();
    WebFields();
    assert Typed(Root()[1].kind, vals[1]) && Typed(Root()[12].kind, vals[12]) && Typed(Root()[5].kind, vals[5]);
    RulesAreText();
  }

  lemma RulesAreText()
    ensures |Root()| == 17 && Root()[5].kind == TextKind
  {
    hide Inits, Copies, Modem, Channel, Email, Storage, Wifi, Web, Time, Keepalive, Cellular, Task;
  }

  lemma OthersNeedNone(i: nat)
    requires i < 17 && i != 1 && i != 12
    ensures |Root()| == 17 && Root()[i].name != "modem" && Root()[i].name != "web"
  {
    hide Root, Inits;
    FrontMembers();
    BackMembers();
  }

  lemma OnlyThese(section: Bytes, field: Bytes)
    ensures NeedsRestart(section, field) ==> section == "modem" || section == "web"
  {
  }

  lemma RestartFields()
    ensures forall j :: 0 <= j < |Modem()| ==> (NeedsRestart("modem", Modem()[j].name) <==> j < 3)
    ensures forall j :: 0 <= j < |Web()| ==> (NeedsRestart("web", Web()[j].name) <==> j == 2 || j == 3)
  {
    hide Inits;
    ModemFields();
    WebFields();
  }

  lemma {:induction false} DiffersAt(before: seq<Value>, after: seq<Value>, i: nat, j: nat)
    requires AllTyped(Root(), before) && AllTyped(Root(), after)
    ensures Differs(before, after, i, j) <==>
            ((i == 1 && j < 3) || (i == 12 && (j == 2 || j == 3))) && Inner(before, i, j) != Inner(after, i, j)
  {
    hide Root, AllTyped, Inits, Modem, Web, NeedsRestart;
    SectionLengths(before);
    SectionLengths(after);
    SectionKinds();
    FrontMembers();
    BackMembers();
    RestartFields();
    ModemFields();
    WebFields();
    if i < 17 && i != 1 && i != 12 && Root()[i].kind.RecordKind? && j < |Root()[i].kind.members| {
      OthersNeedNone(i);
      OnlyThese(Root()[i].name, Root()[i].kind.members[j].name);
    }
  }

  lemma {:induction false} RestartIs(before: seq<Value>, after: seq<Value>)
    requires AllTyped(Root(), before) && AllTyped(Root(), after)
    ensures RestartNeeded(before, after) <==> exists i, j :: Differs(before, after, i, j)
  {
    hide Root, AllTyped, Inner, Differs;
    DiffersAt(before, after, 1, 0);
    DiffersAt(before, after, 1, 1);
    DiffersAt(before, after, 1, 2);
    DiffersAt(before, after, 12, 2);
    DiffersAt(before, after, 12, 3);
    if i, j :| Differs(before, after, i, j) {
      DiffersAt(before, after, i, j);
    }
  }

  // ----- the whole import -----

  // Behind the first byte the text is a configuration, it has some section, and what the device then
  // holds has its values in range, rules that hold and a text of at most one mebibyte.
  ghost predicate CanTake(rules: Rules, current: AppConfig, raw: Bytes, merged: seq<Value>)
    requires AllTyped(Root(), current.vals)
  {
    hide Root, AllTyped, AllInRange, ParseConfig, Serialize, Takes;
    && (exists k: nat :: FirstByte(raw, k) && raw[k] == '{')
    && ParseConfig(raw).Accepted?
    && (exists i :: 0 < i < 17 && i in ParseConfig(raw).config.seen)
    && AllTyped(Root(), merged) && Takes(ParseConfig(raw).config, current.vals, merged)
    && AllInRange(Root(), merged) && |Serialize(AppConfig(merged, current.seen))| <= 1_048_576
    && |merged| == 17 && merged[5].Text? && rules(merged[5].text)
  }

  lemma {:induction false} AppliedCounts(seen: set<nat>, n: nat)
    ensures Applied(seen, n) == |set i | 0 < i < n && i in seen|
  {
    if n > 0 {
      AppliedCounts(seen, n - 1);
      var rest := set i | 0 < i < n - 1 && i in seen;
      assert (set i | 0 < i < n && i in seen) == if n > 1 && n - 1 in seen then rest + {n - 1} else rest;
    }
  }

  lemma {:induction false} SomeApplied(seen: set<nat>)
    ensures Applied(seen, 17) > 0 <==> exists i :: 0 < i < 17 && i in seen
  {
    hide Applied;
    AppliedCounts(seen, 17);
    var found := set i | 0 < i < 17 && i in seen;
    if i :| 0 < i < 17 && i in seen { assert i in found; }
    if found != {} { var i :| i in found; }
  }

  // What the device then holds passes validation or not.
  lemma {:induction false} ValidateIs(rules: Rules, c: AppConfig)
    requires AllTyped(Root(), c.vals)
    ensures |c.vals| == |Root()| == 17 && c.vals[5].Text?
    ensures Validate(rules, c) ==
            if rules(c.vals[5].text) && AllInRange(Root(), c.vals) && |Serialize(c)| <= 1_048_576
            then Accepted(AppConfig(Versioned(c.vals), From(0, 17))) else Rejected
  {
    hide Root, AllTyped, AllInRange, ParseConfig, Serialize, Versioned, From;
    SectionLengths(c.vals);
    RootHasSeventeen();
    RoundTrip(c);
  }

  // A text that is not taken leaves the answer without a configuration, and only then.
  lemma {:induction false} ImportedIff(rules: Rules, current: AppConfig, raw: Bytes)
    requires AllTyped(Root(), current.vals)
    ensures ImportConfig(rules, current, raw).Imported? <==> exists merged :: CanTake(rules, current, raw, merged)
  {
    hide Root, AllTyped, AllInRange, ParseConfig, Serialize, Versioned, From, Takes, Merge, Validate, Applied, FirstByte, FirstText;
    Started(raw);
    if ParseConfig(raw).Accepted? {
      var patch := ParseConfig(raw).config;
      AcceptedIsInRange(raw);
      MergeIsTyped(current.vals, patch.vals, patch.seen);
      var merged := Merge(current.vals, patch.vals, patch.seen);
      MergeTakes(patch, current.vals);
      ValidateIs(rules, AppConfig(merged, current.seen));
      SomeApplied(patch.seen);
      if other :| CanTake(rules, current, raw, other) {
        TakenOnce(patch, current.vals, merged, other);
      }
      if ImportConfig(rules, current, raw).Imported? {
        assert CanTake(rules, current, raw, merged);
      }
    }
  }

  lemma {:induction false} Started(raw: Bytes)
    ensures (exists k: nat :: FirstByte(raw, k) && raw[k] == '{') <==> FirstText(raw) < |raw| && raw[FirstText(raw)] == '{'
    ensures (exists k: nat :: FirstByte(raw, k) && raw[k] != '{') <==> FirstText(raw) < |raw| && raw[FirstText(raw)] != '{'
  {
    hide FirstByte, FirstText;
    FirstTextIs(raw, FirstText(raw));
    forall k: nat ensures FirstByte(raw, k) <==> k == FirstText(raw) < |raw| { FirstTextIs(raw, k); }
  }

  // When a text is imported the device holds its sections and keeps the rest, the version aside; the
  // answer counts the sections, and says whether a member differs that asks for a restart.
  lemma {:induction false} ImportSays(rules: Rules, current: AppConfig, raw: Bytes, merged: seq<Value>)
    requires AllTyped(Root(), current.vals) && CanTake(rules, current, raw, merged)
    ensures var answer := ImportConfig(rules, current, raw);
            && answer.Imported? && answer.config.vals == [Int(1)] + merged[1..]
            && answer.applied == |set i | 0 < i < 17 && i in ParseConfig(raw).config.seen|
            && (answer.restartRequired <==> exists i, j :: Differs(current.vals, answer.config.vals, i, j))
  {
    hide Root, AllTyped, AllInRange, ParseConfig, Serialize, From, Takes, Merge, Validate, Applied, FirstByte, FirstText, Differs, RestartNeeded;
    Started(raw);
    var patch := ParseConfig(raw).config;
    AcceptedIsInRange(raw);
    MergeIsTyped(current.vals, patch.vals, patch.seen);
    MergeTakes(patch, current.vals);
    TakenOnce(patch, current.vals, Merge(current.vals, patch.vals, patch.seen), merged);
    ValidateIs(rules, AppConfig(merged, current.seen));
    SomeApplied(patch.seen);
    AppliedCounts(patch.seen, 17);
    VersionFits(merged);
    RestartIs(current.vals, Versioned(merged));
  }

  // A text that starts with anything but a bracket is left to the old format.
  lemma {:induction false} LegacyIff(rules: Rules, current: AppConfig, raw: Bytes)
    requires AllTyped(Root(), current.vals)
    ensures ImportConfig(rules, current, raw).Legacy? <==> exists k: nat :: FirstByte(raw, k) && raw[k] != '{'
  {
    hide Root, AllTyped, AllInRange, ParseConfig, Merge, Validate, Applied, FirstByte, FirstText;
    Started(raw);
  }
}
