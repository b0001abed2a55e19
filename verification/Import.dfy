// Exporting a configuration with its secrets blanked out and importing it again:
// portable_export_json of ports/linux/src/main.cpp, merge_json_patch, validate and
// import_portable_config of ports/linux/src/config_store.cpp.
module Import {
  import opened Text
  import opened JsonText
  import opened ConfigSchema
  import opened ConfigParse
  import opened ConfigRoundTrip
  import opened ConfigRanges
  import opened JsonParsers

  const REDACTED: Bytes := "__REDACTED__"

  // ----- where the secrets are -----

  // The places in the root table of the sections that the code names.
  const MODEM := 1
  const FORWARD_RULES := 5
  const PUSH_CHANNELS := 8
  const EMAIL := 9
  const WIFI := 11
  const WEB := 12

  // The secret members of each section: passwords, and of a channel url, key1, key2 and customBody.
  function Secrets(section: nat): set<nat> {
    if section == PUSH_CHANNELS then {3, 4, 5, 6}
    else if section == EMAIL then {4}
    else if section == WIFI || section == WEB then {1}
    else {}
  }

  // The tables agree with these places.
  lemma PlacesAreRight()
    ensures |Root()| == 17
    ensures Root()[MODEM].name == "modem" && Root()[FORWARD_RULES].name == "forwardRules"
    ensures Root()[PUSH_CHANNELS].name == "pushChannels" && Root()[EMAIL].name == "email"
    ensures Root()[WIFI].name == "wifi" && Root()[WEB].name == "web"
    ensures Channel()[3].name == "url" && Channel()[4].name == "key1" && Channel()[5].name == "key2" && Channel()[6].name == "customBody"
    ensures Email()[4].name == "password" && Wifi()[1].name == "password" && Web()[1].name == "password"
    ensures Modem()[0].name == "driver" && Modem()[1].name == "endpoint" && Modem()[2].name == "baud"
    ensures Web()[2].name == "listenAddress" && Web()[3].name == "port"
  {
    hide Inits, Copies;
  }

  // ----- export -----

  function RedactField(v: Value, secret: bool): Value {
    if secret && v.Text? && v.text != "" then Text(REDACTED) else v
  }

  function RedactFields(fields: seq<Value>, secrets: set<nat>): (r: seq<Value>)
    ensures |r| == |fields|
    ensures forall i :: 0 <= i < |fields| ==> r[i] == RedactField(fields[i], i in secrets)
  {
    if fields == [] then []
    else
      var n := |fields| - 1;
      RedactFields(fields[..n], secrets) + [RedactField(fields[n], n in secrets)]
  }

  function RedactItems(items: seq<Value>, secrets: set<nat>): (r: seq<Value>)
    ensures |r| == |items|
    ensures forall i :: 0 <= i < |items| ==> r[i] == (if items[i].Record? then Record(RedactFields(items[i].fields, secrets)) else items[i])
  {
    if items == [] then []
    else
      var n := |items| - 1;
      RedactItems(items[..n], secrets) +
      [if items[n].Record? then Record(RedactFields(items[n].fields, secrets)) else items[n]]
  }

  function RedactSection(v: Value, secrets: set<nat>): Value {
    match v
    case Record(fields) => Record(RedactFields(fields, secrets))
    case List(items) => List(RedactItems(items, secrets))
    case _ => v
  }

  function RedactAll(vals: seq<Value>): (r: seq<Value>)
    ensures |r| == |vals|
    ensures forall i :: 0 <= i < |vals| ==> r[i] == RedactSection(vals[i], Secrets(i))
  {
    if vals == [] then []
    else
      var n := |vals| - 1;
      RedactAll(vals[..n]) + [RedactSection(vals[n], Secrets(n))]
  }

  // ----- merging -----

  // preserve_redacted: a blanked value stands for the one the device already has.
  function PreserveField(next: Value, previous: Value, secret: bool): Value {
    if secret && next == Text(REDACTED) then previous else next
  }

  function PreserveFields(next: seq<Value>, previous: seq<Value>, secrets: set<nat>): (r: seq<Value>)
    requires |next| == |previous|
    ensures |r| == |next|
    ensures forall i :: 0 <= i < |next| ==> r[i] == PreserveField(next[i], previous[i], i in secrets)
  {
    if next == [] then []
    else
      var n := |next| - 1;
      PreserveFields(next[..n], previous[..n], secrets) + [PreserveField(next[n], previous[n], n in secrets)]
  }

  function PreserveRecord(next: Value, previous: Value, secrets: set<nat>): Value {
    if next.Record? && previous.Record? && |next.fields| == |previous.fields|
    then Record(PreserveFields(next.fields, previous.fields, secrets)) else next
  }

  function PreserveItems(next: seq<Value>, previous: seq<Value>, secrets: set<nat>): (r: seq<Value>)
    requires |next| == |previous|
    ensures |r| == |next|
    ensures forall i :: 0 <= i < |next| ==> r[i] == PreserveRecord(next[i], previous[i], secrets)
  {
    if next == [] then []
    else
      var n := |next| - 1;
      PreserveItems(next[..n], previous[..n], secrets) + [PreserveRecord(next[n], previous[n], secrets)]
  }

  function PreserveSection(next: Value, previous: Value, secrets: set<nat>): Value {
    if next.List? && previous.List? && |next.items| == |previous.items|
    then List(PreserveItems(next.items, previous.items, secrets))
    else PreserveRecord(next, previous, secrets)
  }

  // merge_json_patch: what the text had, section by section; the version stays the device's own.
  function Merge(target: seq<Value>, patch: seq<Value>, seen: set<nat>): (r: seq<Value>)
    requires |target| == |patch|
    ensures |r| == |target|
    ensures forall i :: 0 <= i < |target| ==>
              r[i] == if i > 0 && i in seen then PreserveSection(patch[i], target[i], Secrets(i)) else target[i]
  {
    if target == [] then []
    else
      var n := |target| - 1;
      Merge(target[..n], patch[..n], seen) +
      [if n > 0 && n in seen then PreserveSection(patch[n], target[n], Secrets(n)) else target[n]]
  }

  // How many of the first n sections the text had.
  function Applied(seen: set<nat>, n: nat): nat {
    if n == 0 then 0 else Applied(seen, n - 1) + if n > 1 && n - 1 in seen then 1 else 0
  }

  method MergeJsonPatch(target: seq<Value>, patch: seq<Value>, seen: set<nat>) returns (merged: seq<Value>, applied: nat)
    requires |target| == |patch|
    ensures merged == Merge(target, patch, seen) && applied == Applied(seen, |target|)
  {
    hide PreserveSection, Secrets;
    merged, applied := target, 0;
    for i := 0 to |target|
      invariant |merged| == |target| && applied == Applied(seen, i)
      invariant forall j :: 0 <= j < i ==> merged[j] == Merge(target, patch, seen)[j]
      invariant forall j :: i <= j < |target| ==> merged[j] == target[j]
    {
      if i > 0 && i in seen {
        merged := merged[i := PreserveSection(patch[i], merged[i], Secrets(i))];
        applied := applied + 1;
      }
    }
  }

  // ----- validation and import -----

  // The rules that the forwarding rules text must meet are a matter of rules.cpp: any predicate.
  type Rules = Bytes -> bool

  predicate RulesHold(rules: Rules, vals: seq<Value>) {
    |vals| > FORWARD_RULES && vals[FORWARD_RULES].Text? && rules(vals[FORWARD_RULES].text)
  }

  // validate: the rules hold and the text of the configuration is accepted; the result is what the
  // text says.
  function Validate(rules: Rules, c: AppConfig): ConfigParse.Result
    requires AllTyped(Root(), c.vals)
  {
    hide Root, AllTyped, ParseConfig, Serialize;
    if RulesHold(rules, c.vals) then ParseConfig(Serialize(c)) else Rejected
  }

  function Inner(vals: seq<Value>, section: nat, field: nat): Value {
    if section < |vals| && vals[section].Record? && field < |vals[section].fields| then vals[section].fields[field] else Flag(false)
  }

  // restart_only_changed: driver, endpoint, baud; listen address and port.
  predicate RestartNeeded(before: seq<Value>, after: seq<Value>) {
    || Inner(before, MODEM, 0) != Inner(after, MODEM, 0)
    || Inner(before, MODEM, 1) != Inner(after, MODEM, 1)
    || Inner(before, MODEM, 2) != Inner(after, MODEM, 2)
    || Inner(before, WEB, 2) != Inner(after, WEB, 2)
    || Inner(before, WEB, 3) != Inner(after, WEB, 3)
  }

  datatype Outcome = Refused | Legacy | Imported(config: AppConfig, applied: nat, restartRequired: bool)

  // find_first_not_of(" \t\r\n")
  function FirstText(raw: Bytes): (n: nat)
    ensures n <= |raw|
  {
    if raw != [] && raw[0] in " \t\r\n" then 1 + FirstText(raw[1..]) else 0
  }

  function ImportConfig(rules: Rules, current: AppConfig, raw: Bytes): Outcome
    requires AllTyped(Root(), current.vals)
  {
    hide Root, AllTyped, AllInRange, ParseConfig, Validate, Merge;
    var first := FirstText(raw);
    if first == |raw| then Refused
    else if raw[first] != '{' then Legacy
    else
      match ParseConfig(raw)
      case Rejected => Refused
      case Accepted(patch) =>
        AcceptedIsInRange(raw);
        MergeIsTyped(current.vals, patch.vals, patch.seen);
        var merged := AppConfig(Merge(current.vals, patch.vals, patch.seen), current.seen);
        var applied := Applied(patch.seen, |merged.vals|);
        if applied == 0 then Refused
        else
          match Validate(rules, merged)
          case Rejected => Refused
          case Accepted(config) => Imported(config, applied, RestartNeeded(current.vals, config.vals))
  }

  method ImportPortableConfig(rules: Rules, current: AppConfig, raw: Bytes) returns (r: Outcome)
    requires AllTyped(Root(), current.vals)
    ensures r == ImportConfig(rules, current, raw)
  {
    hide Root, AllTyped, AllInRange, ParseConfig, Serialize, Merge, RestartNeeded, RulesHold, Applied;
    var first := 0;
    assert raw[0..] == raw;
    while first < |raw| && raw[first] in " \t\r\n"
      invariant first <= |raw| && first + FirstText(raw[first..]) == FirstText(raw)
    {
      assert raw[first..][1..] == raw[first + 1..];
      first := first + 1;
    }
    if first == |raw| { return Refused; }
    if raw[first] != '{' { return Legacy; }
    var patch := ParseConfigJson(raw);
    if patch.Rejected? { return Refused; }
    AcceptedIsInRange(raw);
    MergeIsTyped(current.vals, patch.config.vals, patch.config.seen);
    var merged, applied := MergeJsonPatch(current.vals, patch.config.vals, patch.config.seen);
    if applied == 0 || !RulesHold(rules, merged) { return Refused; }
    var checked := ParseConfigJson(Serialize(AppConfig(merged, current.seen)));
    if checked.Rejected? { return Refused; }
    r := Imported(checked.config, applied, RestartNeeded(current.vals, checked.config.vals));
  }

  // ----- types are kept -----

  lemma {:induction false} SameLength(members: seq<Member>, a: seq<Value>, b: seq<Value>)
    requires AllTyped(members, a) && AllTyped(members, b)
    ensures |a| == |b| == |members|
  {
  }

  lemma {:induction false} PreservedIsTyped(members: seq<Member>, next: seq<Value>, previous: seq<Value>, secrets: set<nat>)
    requires AllTyped(members, next) && AllTyped(members, previous)
    ensures |next| == |previous| && AllTyped(members, PreserveFields(next, previous, secrets))
  {
    hide Typed;
  }

  lemma {:induction false} SectionIsTyped(k: Kind, next: Value, previous: Value, secrets: set<nat>)
    requires Typed(k, next) && Typed(k, previous)
    ensures Typed(k, PreserveSection(next, previous, secrets))
  {
    hide AllTyped;
    match k
    case RecordKind(members) =>
      PreservedIsTyped(members, next.fields, previous.fields, secrets);
    case ListKind(item, _, _) =>
      forall i | 0 <= i < |next.items| ensures PreserveRecord(next.items[i], previous.items[i], secrets).Record?
                                               && AllTyped(item, PreserveRecord(next.items[i], previous.items[i], secrets).fields) {
        assert next.items[i] in next.items && previous.items[i] in previous.items;
        PreservedIsTyped(item, next.items[i].fields, previous.items[i].fields, secrets);
      }
    case _ =>
  }

  lemma {:induction false} MergedIsTyped(members: seq<Member>, target: seq<Value>, patch: seq<Value>, seen: set<nat>)
    requires AllTyped(members, target) && AllTyped(members, patch)
    ensures |target| == |patch| && AllTyped(members, Merge(target, patch, seen))
  {
    hide Typed, PreserveSection, Secrets;
    forall i | 0 <= i < |members| ensures Typed(members[i].kind, Merge(target, patch, seen)[i]) {
      SectionIsTyped(members[i].kind, patch[i], target[i], Secrets(i));
    }
  }

  lemma {:induction false} MergeIsTyped(target: seq<Value>, patch: seq<Value>, seen: set<nat>)
    requires AllTyped(Root(), target) && AllTyped(Root(), patch)
    ensures |target| == |patch| && AllTyped(Root(), Merge(target, patch, seen))
  {
    hide Root, AllTyped, Merge;
    MergedIsTyped(Root(), target, patch, seen);
  }

  lemma {:induction false} RedactedIsTyped(members: seq<Member>, fields: seq<Value>, secrets: set<nat>)
    requires AllTyped(members, fields)
    ensures AllTyped(members, RedactFields(fields, secrets))
    ensures AllInRange(members, RedactFields(fields, secrets)) <==> AllInRange(members, fields)
  {
    hide Typed, InRange, Passes;
    forall i | 0 <= i < |members|
      ensures Typed(members[i].kind, RedactField(fields[i], i in secrets))
      ensures InRange(members[i].kind, RedactField(fields[i], i in secrets)) <==> InRange(members[i].kind, fields[i])
      ensures Passes(members[i].check, RedactField(fields[i], i in secrets)) <==> Passes(members[i].check, fields[i])
    {
      FieldIsTyped(members[i].kind, members[i].check, fields[i], i in secrets);
    }
  }

  lemma {:induction false} FieldIsTyped(k: Kind, c: Check, v: Value, secret: bool)
    requires Typed(k, v)
    ensures Typed(k, RedactField(v, secret))
    ensures InRange(k, RedactField(v, secret)) <==> InRange(k, v)
    ensures Passes(c, RedactField(v, secret)) <==> Passes(c, v)
  {
  }

  lemma {:induction false} RedactedSectionIsTyped(k: Kind, c: Check, v: Value, secrets: set<nat>)
    requires Typed(k, v)
    ensures Typed(k, RedactSection(v, secrets)) && (InRange(k, RedactSection(v, secrets)) <==> InRange(k, v))
    ensures Passes(c, RedactSection(v, secrets)) <==> Passes(c, v)
  {
    hide AllTyped, AllInRange, RedactFields, RedactItems, Passes;
    RedactedPasses(c, v, secrets);
    match k
    case RecordKind(members) =>
      RedactedIsTyped(members, v.fields, secrets);
    case ListKind(item, _, _) =>
      RedactedItemsTyped(item, v.items, secrets);
    case _ =>
  }

  lemma {:induction false} RedactedPasses(c: Check, v: Value, secrets: set<nat>)
    ensures Passes(c, RedactSection(v, secrets)) <==> Passes(c, v)
  {
    hide RedactFields, RedactItems;
  }

  lemma {:induction false} RedactedItemsTyped(item: seq<Member>, items: seq<Value>, secrets: set<nat>)
    requires forall x :: x in items ==> x.Record? && AllTyped(item, x.fields)
    ensures var after := RedactItems(items, secrets);
            && (forall x :: x in after ==> x.Record? && AllTyped(item, x.fields))
            && ((forall x :: x in after ==> x.Record? && AllInRange(item, x.fields)) <==>
                forall x :: x in items ==> x.Record? && AllInRange(item, x.fields))
  {
    hide AllTyped, AllInRange;
    var after := RedactItems(items, secrets);
    forall i | 0 <= i < |items| ensures after[i].Record? && AllTyped(item, after[i].fields)
                                          && (AllInRange(item, after[i].fields) <==> AllInRange(item, items[i].fields)) {
      assert items[i] in items;
      RedactedIsTyped(item, items[i].fields, secrets);
    }
    if forall x :: x in after ==> x.Record? && AllInRange(item, x.fields) {
      forall i | 0 <= i < |items| ensures AllInRange(item, items[i].fields) { assert after[i] in after; }
    }
  }

  lemma {:induction false} RedactedAllTyped(members: seq<Member>, vals: seq<Value>)
    requires AllTyped(members, vals)
    ensures AllTyped(members, RedactAll(vals))
    ensures AllInRange(members, RedactAll(vals)) <==> AllInRange(members, vals)
  {
    hide Typed, InRange, Passes, RedactSection, Secrets;
    forall i | 0 <= i < |members|
      ensures Typed(members[i].kind, RedactAll(vals)[i])
      ensures InRange(members[i].kind, RedactAll(vals)[i]) <==> InRange(members[i].kind, vals[i])
      ensures Passes(members[i].check, RedactAll(vals)[i]) <==> Passes(members[i].check, vals[i])
    {
      RedactedSectionIsTyped(members[i].kind, members[i].check, vals[i], Secrets(i));
    }
  }

  // portable_export_json without `full`.
  function Export(c: AppConfig): Bytes
    requires AllTyped(Root(), c.vals)
  {
    hide Root, AllTyped, AllInRange, Serialize;
    RedactedAllTyped(Root(), c.vals);
    Serialize(AppConfig(RedactAll(c.vals), c.seen))
  }

  // ----- what an imported export brings -----

  // A secret that the source has is not in the text: the device keeps its own. All else is the source's.
  function BlendField(source: Value, device: Value, secret: bool): Value {
    if secret && source.Text? && source.text != "" then device else source
  }

  predicate BlendedFields(source: seq<Value>, device: seq<Value>, result: seq<Value>, secrets: set<nat>) {
    |source| == |device| == |result| &&
    forall j :: 0 <= j < |source| ==> result[j] == BlendField(source[j], device[j], j in secrets)
  }

  predicate BlendedRecord(source: Value, device: Value, result: Value, secrets: set<nat>) {
    source.Record? && device.Record? && result.Record? && BlendedFields(source.fields, device.fields, result.fields, secrets)
  }

  predicate Blended(source: Value, device: Value, result: Value, secrets: set<nat>) {
    match source
    case Record(_) => BlendedRecord(source, device, result, secrets)
    case List(items) =>
      && device.List? && result.List? && |items| == |device.items| == |result.items|
      && forall i :: 0 <= i < |items| ==> BlendedRecord(items[i], device.items[i], result.items[i], secrets)
    case _ => result == source
  }

  lemma {:induction false} FieldsBlend(source: seq<Value>, device: seq<Value>, secrets: set<nat>)
    requires |source| == |device|
    ensures BlendedFields(source, device, PreserveFields(RedactFields(source, secrets), device, secrets), secrets)
  {
  }

  lemma {:induction false} RecordBlends(members: seq<Member>, source: Value, device: Value, secrets: set<nat>)
    requires source.Record? && device.Record? && AllTyped(members, source.fields) && AllTyped(members, device.fields)
    ensures BlendedRecord(source, device, PreserveRecord(Record(RedactFields(source.fields, secrets)), device, secrets), secrets)
  {
    hide BlendedFields, PreserveFields, RedactFields, AllTyped;
    SameLength(members, source.fields, device.fields);
    FieldsBlend(source.fields, device.fields, secrets);
  }

  lemma {:induction false} ListBlends(item: seq<Member>, source: seq<Value>, device: seq<Value>, secrets: set<nat>)
    requires |source| == |device|
    requires forall x :: x in source ==> x.Record? && AllTyped(item, x.fields)
    requires forall x :: x in device ==> x.Record? && AllTyped(item, x.fields)
    ensures Blended(List(source), List(device), List(PreserveItems(RedactItems(source, secrets), device, secrets)), secrets)
  {
    hide BlendedRecord, PreserveRecord, RedactFields, AllTyped;
    forall i | 0 <= i < |source|
      ensures BlendedRecord(source[i], device[i], PreserveRecord(RedactItems(source, secrets)[i], device[i], secrets), secrets) {
      assert source[i] in source && device[i] in device;
      RecordBlends(item, source[i], device[i], secrets);
    }
  }

  lemma {:induction false} SectionBlends(k: Kind, source: Value, device: Value, secrets: set<nat>)
    requires Typed(k, source) && Typed(k, device)
    ensures Blended(source, device, PreserveSection(RedactSection(source, secrets), device, secrets), secrets)
  {
    hide BlendedRecord, RedactFields, RedactItems, PreserveItems, AllTyped;
    match k
    case RecordKind(members) =>
      RecordBlends(members, source, device, secrets);
    case ListKind(item, _, _) =>
      ListBlends(item, source.items, device.items, secrets);
      assert List(source.items) == source && List(device.items) == device;
    case _ =>
  }

  // With itself as the source a section does not change.
  lemma {:induction false} BlendWithSelf(v: Value, result: Value, secrets: set<nat>)
    requires Blended(v, v, result, secrets)
    ensures result == v
  {
    match v
    case Record(fields) => assert result.fields == fields;
    case List(items) =>
      forall i | 0 <= i < |items| ensures result.items[i] == items[i] { assert result.items[i].fields == items[i].fields; }
      assert result.items == items;
    case _ =>
  }

  lemma {:induction false} AllSeen(i: nat, n: nat, j: nat)
    requires i <= j < n
    ensures j in From(i, n)
    decreases n - i
  {
    if i < j { AllSeen(i + 1, n, j); }
  }

  lemma {:induction false} AllApplied(seen: set<nat>, n: nat)
    requires n > 0 && forall j :: 0 <= j < n ==> j in seen
    ensures Applied(seen, n) == n - 1
  {
    if n > 1 { AllApplied(seen, n - 1); }
  }

  lemma {:induction false} MergeBlends(members: seq<Member>, source: seq<Value>, device: seq<Value>, i: nat)
    requires AllTyped(members, source) && AllTyped(members, device) && 0 < i < |members|
    ensures |source| == |device| == |members|
    ensures Blended(source[i], device[i], Merge(device, Versioned(RedactAll(source)), From(0, |members|))[i], Secrets(i))
  {
    hide Typed, Blended, Secrets, RedactSection, PreserveSection, From;
    AllSeen(0, |members|, i);
    SectionBlends(members[i].kind, source[i], device[i], Secrets(i));
  }

  // The text of an export starts with its bracket.
  lemma {:induction false} TextStarts(c: AppConfig)
    requires AllTyped(Root(), c.vals)
    ensures Serialize(c) != [] && Serialize(c)[0] == '{' && FirstText(Serialize(c)) == 0
  {
    hide Root, AllTyped, ShowMembers;
  }

  // The merged configuration: the version is the device's, every section is blended.
  ghost predicate Merged(source: seq<Value>, device: seq<Value>, merged: seq<Value>) {
    && |source| == |device| == |merged| == |Root()|
    && merged[0] == device[0]
    && forall i :: 0 < i < |merged| ==> Blended(source[i], device[i], merged[i], Secrets(i))
  }

  lemma {:induction false} MergeIs(source: seq<Value>, device: seq<Value>)
    requires AllTyped(Root(), source) && AllTyped(Root(), device)
    ensures |source| == |device| == |Root()| && source != []
    ensures Merged(source, device, Merge(device, Versioned(RedactAll(source)), From(0, |Root()|)))
  {
    hide Root, AllTyped, Blended, Secrets, RedactAll, From, PreserveSection;
    RootStarts();
    SameLength(Root(), source, device);
    forall i | 0 < i < |Root()|
      ensures Blended(source[i], device[i], Merge(device, Versioned(RedactAll(source)), From(0, |Root()|))[i], Secrets(i)) {
      MergeBlends(Root(), source, device, i);
    }
  }

  // The device's values with the source's in their place, secrets aside.
  ghost function TakenOver(source: AppConfig, device: AppConfig): (r: seq<Value>)
    requires AllTyped(Root(), source.vals) && AllTyped(Root(), device.vals)
    ensures AllTyped(Root(), r) && |source.vals| == |device.vals| == |r| && Merged(source.vals, device.vals, r)
  {
    hide Root, AllTyped, AllInRange, Merge, RedactAll, From, Merged;
    MergeIs(source.vals, device.vals);
    RedactedAllTyped(Root(), source.vals);
    VersionFits(RedactAll(source.vals));
    MergeIsTyped(device.vals, Versioned(RedactAll(source.vals)), From(0, |Root()|));
    Merge(device.vals, Versioned(RedactAll(source.vals)), From(0, |Root()|))
  }

  // The text is taken when the source's values are in range and it fits; then the device gets
  // everything of the source but its secrets, and keeps its own where the source has one, provided
  // that the outcome passes validation.
  ghost function Exchanged(rules: Rules, source: AppConfig, device: AppConfig): Outcome
    requires AllTyped(Root(), source.vals) && AllTyped(Root(), device.vals)
  {
    hide Root, AllTyped, AllInRange, ParseConfig, Serialize, Validate, TakenOver, Export;
    if !AllInRange(Root(), source.vals) || |Export(source)| > MAX_BYTES then Refused
    else
      match Validate(rules, AppConfig(TakenOver(source, device), device.seen))
      case Rejected => Refused
      case Accepted(config) => Imported(config, 16, RestartNeeded(device.vals, config.vals))
  }

  // Importing the export of one device on another.
  lemma {:induction false} ImportTakesAllButSecrets(rules: Rules, source: AppConfig, device: AppConfig)
    requires AllTyped(Root(), source.vals) && AllTyped(Root(), device.vals)
    ensures ImportConfig(rules, device, Export(source)) == Exchanged(rules, source, device)
  {
    hide Root, AllTyped, AllInRange, ParseConfig, Serialize, Validate, Merge, RedactAll, From, Merged, RestartNeeded;
    RedactedAllTyped(Root(), source.vals);
    var exported := AppConfig(RedactAll(source.vals), source.seen);
    RoundTrip(exported);
    TextStarts(exported);
    VersionFits(exported.vals);
    SixteenSections();
    assert Export(source) == Serialize(exported);
    if AllInRange(Root(), source.vals) && |Export(source)| <= MAX_BYTES {
      SameLength(Root(), source.vals, device.vals);
      assert TakenOver(source, device) == Merge(device.vals, Versioned(exported.vals), From(0, |Root()|));
    }
  }

  lemma RootHasSeventeen()
    ensures |Root()| == 17
  {
    hide Struct, Structs, TextField, FlagField, Modem, Channel, Email, Storage, Wifi, Web, Time, Keepalive, Cellular, Task;
  }

  lemma SixteenSections()
    ensures |Root()| == 17 && Applied(From(0, |Root()|), |Root()|) == 16
  {
    hide Applied, From, Root;
    RootHasSeventeen();
    forall j | 0 <= j < 17 ensures j in From(0, 17) { AllSeen(0, 17, j); }
    AllApplied(From(0, 17), 17);
  }

  // A configuration that passes validation, exported and imported on the same device, stays as it is,
  // secrets included, and asks for no restart, if the export is at most one mebibyte; blanking can
  // make a text longer, so that is a condition of its own.
  lemma {:induction false} OwnExportChangesNothing(rules: Rules, device: AppConfig)
    requires AllTyped(Root(), device.vals) && Validate(rules, device).Accepted?
    ensures device.vals != []
    ensures ImportConfig(rules, device, Export(device)) ==
            if |Export(device)| > MAX_BYTES then Refused
            else Imported(AppConfig(Versioned(device.vals), From(0, |Root()|)), 16, false)
  {
    hide Root, AllTyped, AllInRange, ParseConfig, Serialize, Merge, RedactAll, From, Blended, Secrets, ImportConfig, TakenOver;
    ImportTakesAllButSecrets(rules, device, device);
    var merged := TakenOver(device, device);
    forall i | 0 < i < |merged| ensures merged[i] == device.vals[i] {
      BlendWithSelf(device.vals[i], merged[i], Secrets(i));
    }
    assert merged == device.vals;
    RoundTrip(device);
  }
}
