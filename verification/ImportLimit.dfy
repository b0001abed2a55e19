// A device whose own redacted export is too long to be imported: blanking a short secret makes the
// text longer (ports/linux/src/main.cpp, ports/linux/src/config_store.cpp).
module ImportLimit {
  import opened Text
  import opened JsonText
  import opened ConfigSchema
  import opened ConfigParse
  import opened ConfigRoundTrip
  import opened Import

  const RECEIVER := 2

  // ----- how long a text is -----

  lemma {:induction false} StaysTyped(members: seq<Member>, vals: seq<Value>, j: nat, v: Value)
    requires AllTyped(members, vals) && j < |members| && Typed(members[j].kind, v)
    ensures |vals| == |members| && AllTyped(members, vals[j := v])
  {
    hide Typed;
  }

  lemma {:induction false} SizeStep(members: seq<Member>, vals: seq<Value>, i: nat)
    requires AllTyped(members, vals) && i < |members|
    ensures |vals| == |members| && Typed(members[i].kind, vals[i])
    ensures |ShowMembers(members, vals, i)| ==
            |Quoted(members[i].name)| + 2 + |Show(members[i].kind, vals[i])| +
            if i + 1 < |members| then |ShowMembers(members, vals, i + 1)| else 0
  {
    hide Typed, Show, Quoted;
  }

  lemma {:induction false} SameBehind(members: seq<Member>, vals: seq<Value>, i: nat, j: nat, v: Value)
    requires AllTyped(members, vals) && j < i <= |members| == |vals| && Typed(members[j].kind, v)
    requires AllTyped(members, vals[j := v])
    ensures |ShowMembers(members, vals[j := v], i)| == |ShowMembers(members, vals, i)|
    decreases |members| - i
  {
    hide Typed, AllTyped, Show, ShowMembers, Quoted;
    if i < |members| {
      SizeStep(members, vals, i);
      SizeStep(members, vals[j := v], i);
      SameBehind(members, vals, i + 1, j, v);
    } else {
      EndSize(members, vals);
      EndSize(members, vals[j := v]);
    }
  }

  lemma {:induction false} EndSize(members: seq<Member>, vals: seq<Value>)
    requires AllTyped(members, vals)
    ensures |ShowMembers(members, vals, |members|)| == 1
  {
    hide AllTyped;
  }

  // Changing one member changes the length by that member's difference.
  lemma {:induction false} SizeUpdate(members: seq<Member>, vals: seq<Value>, i: nat, j: nat, v: Value)
    requires AllTyped(members, vals) && i <= j < |members| && Typed(members[j].kind, v)
    ensures |vals| == |members| && AllTyped(members, vals[j := v]) && Typed(members[j].kind, vals[j])
    ensures |ShowMembers(members, vals[j := v], i)| ==
            |ShowMembers(members, vals, i)| - |Show(members[j].kind, vals[j])| + |Show(members[j].kind, v)|
    decreases |members| - i
  {
    hide Typed, AllTyped, Show, ShowMembers, Quoted;
    StaysTyped(members, vals, j, v);
    SizeStep(members, vals, i);
    SizeStep(members, vals, j);
    SizeStep(members, vals[j := v], i);
    if i < j {
      SizeUpdate(members, vals, i + 1, j, v);
    } else if i + 1 < |members| {
      SameBehind(members, vals, i + 1, j, v);
    }
  }

  function Letters(n: nat, t: Bytes): Bytes {
    if n == 0 then t else ['a'] + Letters(n - 1, t)
  }

  lemma {:induction false} LettersSize(n: nat, t: Bytes)
    ensures |Quoted(Letters(n, t))| == n + |Quoted(t)|
  {
    if n > 0 {
      LettersSize(n - 1, t);
      assert Letters(n, t)[1..] == Letters(n - 1, t);
    }
  }

  // ----- padding the receiver -----

  function Padded(c: AppConfig, n: nat): AppConfig
    requires |c.vals| > RECEIVER && c.vals[RECEIVER].Text?
  {
    c.(vals := c.vals[RECEIVER := Text(Letters(n, c.vals[RECEIVER].text))])
  }

  lemma {:induction false} ReceiverIsText(vals: seq<Value>)
    requires AllTyped(Root(), vals)
    ensures |Root()| == |vals| == 17 && Root()[RECEIVER].kind == TextKind && Root()[RECEIVER].check == Free && vals[RECEIVER].Text?
  {
    PlacesAreRight();
    hide Struct, Structs, Modem, Channel, Email, Storage, Wifi, Web, Time, Keepalive, Cellular, Task;
  }

  lemma {:induction false} PaddedSize(vals: seq<Value>, n: nat)
    requires AllTyped(Root(), vals)
    ensures |vals| == 17 && vals[RECEIVER].Text?
    ensures var longer := vals[RECEIVER := Text(Letters(n, vals[RECEIVER].text))];
            && AllTyped(Root(), longer)
            && |Serialize(AppConfig(longer, {}))| == |Serialize(AppConfig(vals, {}))| + n
  {
    hide Root, AllTyped, ShowMembers, Quoted;
    ReceiverIsText(vals);
    VersionFits(vals);
    var t, v := vals[RECEIVER].text, Text(Letters(n, vals[RECEIVER].text));
    LettersSize(n, t);
    StaysTyped(Root(), vals, RECEIVER, v);
    SizeUpdate(Root(), Versioned(vals), 0, RECEIVER, v);
    assert Versioned(vals[RECEIVER := v]) == Versioned(vals)[RECEIVER := v];
  }

  lemma {:induction false} PaddingStaysInRange(members: seq<Member>, vals: seq<Value>, j: nat, v: Value)
    requires AllInRange(members, vals) && j < |members| && members[j].kind == TextKind && members[j].check == Free
    ensures |vals| == |members| && AllInRange(members, vals[j := v])
  {
    hide InRange, Passes;
    TextIsInRange(members[j], v);
  }

  lemma {:induction false} TextIsInRange(m: Member, v: Value)
    requires m.kind == TextKind && m.check == Free
    ensures InRange(m.kind, v) && Passes(m.check, v)
  {
  }

  // Any valid configuration whose export is longer than its own text can be padded until the text just
  // fits and the export does not: it is still valid, and its own export is refused.
  lemma {:induction false} PaddedExportIsRefused(rules: Rules, device: AppConfig)
    requires AllTyped(Root(), device.vals) && Validate(rules, device).Accepted?
    requires |Export(device)| > |Serialize(device)|
    ensures |Serialize(device)| <= MAX_BYTES && |device.vals| > RECEIVER && device.vals[RECEIVER].Text?
    ensures var longer := Padded(device, MAX_BYTES - |Serialize(device)|);
            && AllTyped(Root(), longer.vals) && Validate(rules, longer).Accepted?
            && ImportConfig(rules, longer, Export(longer)) == Refused
  {
    hide Root, AllTyped, AllInRange, ParseConfig, Serialize, RedactAll, ImportConfig;
    RoundTrip(device);
    ReceiverIsText(device.vals);
    var n := MAX_BYTES - |Serialize(device)|;
    var longer := Padded(device, n);
    PaddedSize(device.vals, n);
    SameText(device.vals, device.seen);
    SameText(longer.vals, longer.seen);
    PaddingStaysInRange(Root(), device.vals, RECEIVER, longer.vals[RECEIVER]);
    RoundTrip(longer);
    ExportSize(device, n);
    OwnExportChangesNothing(rules, longer);
  }

  // The text does not depend on which members were seen.
  lemma {:induction false} SameText(vals: seq<Value>, seen: set<nat>)
    requires AllTyped(Root(), vals)
    ensures Serialize(AppConfig(vals, seen)) == Serialize(AppConfig(vals, {}))
  {
    hide Root, AllTyped, ShowMembers;
  }

  lemma {:induction false} ExportSize(c: AppConfig, n: nat)
    requires AllTyped(Root(), c.vals)
    ensures |c.vals| > RECEIVER && c.vals[RECEIVER].Text? && AllTyped(Root(), Padded(c, n).vals)
    ensures |Export(Padded(c, n))| == |Export(c)| + n
  {
    hide Root, AllTyped, AllInRange, Serialize;
    ReceiverIsText(c.vals);
    PaddedSize(c.vals, n);
    RedactedAllTyped(Root(), c.vals);
    RedactedAllTyped(Root(), Padded(c, n).vals);
    var blanked := RedactAll(c.vals);
    assert blanked[RECEIVER] == c.vals[RECEIVER];
    PaddedSize(blanked, n);
    assert RedactAll(Padded(c, n).vals) == blanked[RECEIVER := Padded(c, n).vals[RECEIVER]];
    SameText(blanked, c.seen);
    SameText(RedactAll(Padded(c, n).vals), c.seen);
  }
}
