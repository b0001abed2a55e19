// What arrives when the parts come in any order: every complete message exactly once, its parts
// joined in index order, whatever the interleaving and whatever duplicates come before completion
// (core/src/pdu.cpp:210-279).
module ConcatDelivery {
  import opened Text
  import opened Concat
  import opened ConcatRuns
  import opened ConcatOrder

  predicate IsCopy(sms: Sms, key: Key, index: nat) {
    sms.IsPart() && sms.KeyOf() == key && sms.part == index + 1
  }

  // The first copy of a part of a message.
  function Pick(key: Key, index: nat, messages: seq<Sms>): Part {
    if messages == [] then Missing
    else
      var n := |messages| - 1;
      var earlier := Pick(key, index, messages[..n]);
      if earlier.Present? then earlier
      else if IsCopy(messages[n], key, index) then Present(messages[n].text) else Missing
  }

  function Picks(key: Key, messages: seq<Sms>): (r: seq<Part>)
    ensures |r| == PARTS && forall i :: 0 <= i < PARTS ==> r[i] == Pick(key, i, messages)
  {
    PicksUpTo(key, messages, PARTS)
  }

  function PicksUpTo(key: Key, messages: seq<Sms>, n: nat): (r: seq<Part>)
    ensures |r| == n && forall i :: 0 <= i < n ==> r[i] == Pick(key, i, messages)
  {
    if n == 0 then [] else PicksUpTo(key, messages, n - 1) + [Pick(key, n - 1, messages)]
  }

  // The timestamp of a message: the first that is not empty, among the first copies of its parts.
  function Stamp(key: Key, messages: seq<Sms>): Bytes {
    if messages == [] then ""
    else
      var n := |messages| - 1;
      var earlier := Stamp(key, messages[..n]);
      var last := messages[n];
      if earlier == "" && last.IsPart() && last.KeyOf() == key && Pick(key, last.part - 1, messages[..n]).Missing?
      then last.timestamp else earlier
  }

  function WholeText(key: Key, messages: seq<Sms>): Bytes
    requires 0 <= key.total <= PARTS
  {
    Join(Pieces(Picks(key, messages)[..key.total]))
  }

  predicate IsLong(key: Key) {
    2 <= key.total <= PARTS
  }

  lemma {:induction false} PicksOne(key: Key, messages: seq<Sms>, sms: Sms)
    ensures var before := Picks(key, messages);
            Picks(key, messages + [sms]) ==
            if sms.IsPart() && sms.KeyOf() == key && before[sms.part - 1].Missing?
            then before[sms.part - 1 := Present(sms.text)] else before
  {
    assert (messages + [sms])[..|messages|] == messages;
  }

  lemma {:induction false} NothingPicked(key: Key)
    ensures Picks(key, []) == NO_PARTS
  {
  }

  // Until a message is complete its collector holds the first copies, and hands out nothing.
  lemma {:induction false} FirstCopyWins(key: Key, messages: seq<Sms>)
    requires IsLong(key) && !Whole(key, Picks(key, messages))
    ensures Collect(key, messages) == Collector(Picks(key, messages), Stamp(key, messages), [])
  {
    if messages == [] {
      NothingPicked(key);
    } else {
      var n := |messages| - 1;
      assert messages[..n] + [messages[n]] == messages;
      PicksOne(key, messages[..n], messages[n]);
      FirstCopyWins(key, messages[..n]);
    }
  }

  // The part that completes a message releases it, once; later messages of other keys change nothing.
  lemma {:induction false} CompletesOnce(key: Key, messages: seq<Sms>, n: nat)
    requires IsLong(key) && n < |messages|
    requires !Whole(key, Picks(key, messages[..n])) && Whole(key, Picks(key, messages[..n + 1]))
    requires forall j :: n < j < |messages| ==> messages[j].KeyOf() != key
    ensures Collect(key, messages).done ==
            [Emission(key.sender, WholeText(key, messages[..n + 1]), Stamp(key, messages[..n + 1]))]
    decreases |messages|
  {
    hide Picks, WholeText, Whole;
    var m := |messages| - 1;
    if n < m {
      assert messages[..m][..n] == messages[..n] && messages[..m][..n + 1] == messages[..n + 1];
      CompletesOnce(key, messages[..m], n);
    } else {
      assert messages[..n + 1] == messages;
      LastCompletes(key, messages);
    }
  }

  lemma {:induction false} LastCompletes(key: Key, messages: seq<Sms>)
    requires IsLong(key) && messages != []
    requires !Whole(key, Picks(key, messages[..|messages| - 1])) && Whole(key, Picks(key, messages))
    ensures Collect(key, messages).done == [Emission(key.sender, WholeText(key, messages), Stamp(key, messages))]
  {
    hide Whole, Pieces, Picks;
    var n := |messages| - 1;
    assert messages[..n] + [messages[n]] == messages;
    FirstCopyWins(key, messages[..n]);
    PicksOne(key, messages[..n], messages[n]);
  }

  lemma {:induction false} PickIsFed(key: Key, index: nat, messages: seq<Sms>)
    ensures Pick(key, index, messages).Present? <==> exists i :: 0 <= i < |messages| && IsCopy(messages[i], key, index)
    ensures Pick(key, index, messages).Present? ==>
            exists i :: 0 <= i < |messages| && IsCopy(messages[i], key, index) && messages[i].text == Pick(key, index, messages).text
  {
    if messages != [] {
      var n := |messages| - 1;
      PickIsFed(key, index, messages[..n]);
      assert forall i :: 0 <= i < n ==> messages[..n][i] == messages[i];
    }
  }

  predicate HasCopy(messages: seq<Sms>, last: nat, key: Key, index: nat)
    requires last < |messages|
  {
    exists j :: 0 <= j <= last && IsCopy(messages[j], key, index)
  }

  predicate TextsMatch(key: Key, texts: seq<Bytes>, messages: seq<Sms>)
    requires |texts| == key.total
  {
    forall j :: 0 <= j < |messages| && messages[j].IsPart() && messages[j].KeyOf() == key ==>
      messages[j].text == texts[messages[j].part - 1]
  }

  predicate AllCome(key: Key, messages: seq<Sms>, last: nat)
    requires last < |messages|
  {
    forall i :: 0 <= i < key.total ==> HasCopy(messages, last, key, i)
  }

  // Message number n is a part of the key that did not come before, and none of the key comes later.
  predicate IsLastNew(key: Key, messages: seq<Sms>, n: nat)
    requires n < |messages|
  {
    && messages[n].IsPart() && messages[n].KeyOf() == key
    && (forall j :: 0 <= j < n ==> !IsCopy(messages[j], key, messages[n].part - 1))
    && (forall j :: n < j < |messages| ==> messages[j].KeyOf() != key)
  }

  // The parts of one message, in any order, among anything else, with any duplicates before the part
  // that completes it (number n of all that is fed).
  predicate Arrives(key: Key, texts: seq<Bytes>, messages: seq<Sms>, n: nat) {
    && IsLong(key) && |texts| == key.total && n < |messages|
    && TextsMatch(key, texts, messages) && AllCome(key, messages, n) && IsLastNew(key, messages, n)
  }

  lemma {:induction false} ArrivalIsWhole(key: Key, texts: seq<Bytes>, messages: seq<Sms>, n: nat)
    requires Arrives(key, texts, messages, n)
    ensures !Whole(key, Picks(key, messages[..n])) && Whole(key, Picks(key, messages[..n + 1]))
    ensures WholeText(key, messages[..n + 1]) == Join(texts)
  {
    hide Pick;
    PickIsFed(key, messages[n].part - 1, messages[..n]);
    assert Picks(key, messages[..n])[messages[n].part - 1].Missing?;
    var picks := Picks(key, messages[..n + 1]);
    forall i | 0 <= i < key.total ensures picks[i] == Present(texts[i]) {
      ArrivedPart(key, texts, messages, n, i);
    }
    assert Pieces(picks[..key.total]) == texts;
  }

  lemma {:induction false} ArrivedPart(key: Key, texts: seq<Bytes>, messages: seq<Sms>, n: nat, i: nat)
    requires Arrives(key, texts, messages, n) && i < key.total
    ensures Pick(key, i, messages[..n + 1]) == Present(texts[i])
  {
    hide Pick;
    var so := messages[..n + 1];
    PickIsFed(key, i, so);
    assert HasCopy(messages, n, key, i);
    var j :| 0 <= j <= n && IsCopy(messages[j], key, i);
    assert so[j] == messages[j];
    var k :| 0 <= k < n + 1 && IsCopy(so[k], key, i) && so[k].text == Pick(key, i, so).text;
    assert so[k] == messages[k];
  }

  // Whatever else is fed in between, within one timeout and with at most five messages open, the
  // assembler hands out a message exactly once, with its texts joined in index order.
  lemma {:induction false} DeliveredOnce(inputs: seq<Input>, startUs: int, key: Key, texts: seq<Bytes>, n: nat)
    requires Prompt(inputs, startUs) && FewOpen(Fed(inputs))
    requires Arrives(key, texts, Fed(inputs), n)
    ensures CompletedFor(key, Run(inputs).events) ==
            [Emission(key.sender, Join(texts), Stamp(key, Fed(inputs)[..n + 1]))]
  {
    RunRefinesCollectors(inputs, startUs);
    ArrivalIsWhole(key, texts, Fed(inputs), n);
    CompletesOnce(key, Fed(inputs), n);
  }

  // In any state that a run can reach, another copy of a part that is held does nothing at all.
  lemma {:induction false} DuplicateDoesNothing(slots: seq<Slot>, sms: Sms, nowUs: int, i: nat)
    requires Inv(slots) && sms.IsPart() && i < SLOTS
    requires slots[i].Holds(sms.KeyOf()) && slots[i].parts[sms.part - 1].Present?
    ensures FeedStep(slots, sms, nowUs) == Outcome(slots, [])
  {
    var k := FirstHolding(slots, sms.KeyOf());
    assert k == i;
  }

  // ----- two orders of the same messages -----

  predicate SamePlace(m: Sms, o: Sms) {
    m.IsPart() && o.IsPart() && m.KeyOf() == o.KeyOf() && m.part == o.part
  }

  // Copies of a part say the same.
  predicate SameTexts(messages: seq<Sms>) {
    forall m, o :: m in messages && o in messages && SamePlace(m, o) ==> m.text == o.text
  }

  // The part comes at most once.
  predicate ComesOnce(messages: seq<Sms>, key: Key, index: nat) {
    && (forall m :: m in messages && IsCopy(m, key, index) ==> multiset(messages)[m] == 1)
    && (forall m, o :: m in messages && o in messages && IsCopy(m, key, index) && IsCopy(o, key, index) ==> m == o)
  }

  // Of every message that is complete some part comes only once, so it cannot be complete again.
  ghost predicate OneRound(messages: seq<Sms>) {
    && SameTexts(messages)
    && forall key :: IsLong(key) && Whole(key, Picks(key, messages)) ==> exists u :: 0 <= u < key.total && ComesOnce(messages, key, u)
  }

  lemma {:induction false} ComesOncePrefix(messages: seq<Sms>, sms: Sms, key: Key, u: nat)
    requires ComesOnce(messages + [sms], key, u)
    ensures ComesOnce(messages, key, u)
    ensures IsCopy(sms, key, u) ==> forall j :: 0 <= j < |messages| ==> !IsCopy(messages[j], key, u)
  {
    var after := messages + [sms];
    assert multiset(after) == multiset(messages) + multiset{sms};
    assert forall m :: m in messages ==> m in after && multiset(messages)[m] >= 1;
    assert sms in after;
  }

  // A message of which some part comes only once is handed out once, if it is complete, with the first
  // copies of its parts, whatever copies of the others come before or behind.
  lemma {:induction false} CollectedOnce(key: Key, messages: seq<Sms>, u: nat)
    requires IsLong(key) && u < key.total && ComesOnce(messages, key, u)
    ensures OnceOnly(key, messages, u)
  {
    hide Collect, Picks, Whole, WholeText, ComesOnce;
    if messages == [] {
      NothingCollectedYet(key, u);
    } else {
      var n := |messages| - 1;
      assert messages[..n] + [messages[n]] == messages;
      ComesOncePrefix(messages[..n], messages[n], key, u);
      CollectedOnce(key, messages[..n], u);
      CollectsOne(key, messages[..n], messages[n]);
      if Whole(key, Picks(key, messages[..n])) {
        StaysCollected(key, messages[..n], messages[n], u);
      } else if Whole(key, Picks(key, messages)) {
        LastCompletes(key, messages);
        Completes(key, messages[..n], messages[n], u);
      } else {
        FirstCopyWins(key, messages);
      }
    }
  }

  predicate OnceOnly(key: Key, messages: seq<Sms>, u: nat)
    requires IsLong(key) && u < key.total
  {
    var c := Collect(key, messages);
    if Whole(key, Picks(key, messages))
    then c.parts[u].Missing? && |c.done| == 1
         && c.done[0].sender == key.sender && c.done[0].text == WholeText(key, messages)
    else c.parts == Picks(key, messages) && c.done == []
  }

  lemma {:induction false} NothingCollectedYet(key: Key, u: nat)
    requires IsLong(key) && u < key.total
    ensures OnceOnly(key, [], u)
  {
    NothingPicked(key);
    assert NO_PARTS[0].Missing?;
  }

  lemma {:induction false} Completes(key: Key, messages: seq<Sms>, sms: Sms, u: nat)
    requires IsLong(key) && u < key.total
    requires !Whole(key, Picks(key, messages)) && Whole(key, Picks(key, messages + [sms]))
    ensures Collect(key, messages + [sms]).parts == NO_PARTS && NO_PARTS[u].Missing?
  {
    hide Pick, Picks, Pieces;
    CollectsOne(key, messages, sms);
    FirstCopyWins(key, messages);
    PicksOne(key, messages, sms);
  }

  lemma {:induction false} StaysCollected(key: Key, messages: seq<Sms>, sms: Sms, u: nat)
    requires IsLong(key) && u < key.total && OnceOnly(key, messages, u) && Whole(key, Picks(key, messages))
    requires IsCopy(sms, key, u) ==> forall j :: 0 <= j < |messages| ==> !IsCopy(messages[j], key, u)
    ensures OnceOnly(key, messages + [sms], u)
  {
    hide Collect, Pick, Pieces;
    CollectsOne(key, messages, sms);
    PicksOne(key, messages, sms);
    PickIsFed(key, u, messages);
    StaysIncomplete(key, Collect(key, messages), sms, u);
    SameWhole(key, Picks(key, messages), Picks(key, messages + [sms]));
  }

  // Without part u nothing is handed out.
  lemma {:induction false} StaysIncomplete(key: Key, c: Collector, sms: Sms, u: nat)
    requires IsLong(key) && u < key.total && |c.parts| == PARTS && c.parts[u].Missing? && !IsCopy(sms, key, u)
    ensures CollectOne(key, c, sms).parts[u].Missing? && CollectOne(key, c, sms).done == c.done
  {
    if sms.IsPart() && sms.KeyOf() == key {
      assert c.parts[sms.part - 1 := Present(sms.text)][u].Missing?;
    }
  }

  lemma {:induction false} SameWhole(key: Key, a: seq<Part>, b: seq<Part>)
    requires IsLong(key) && |a| == |b| == PARTS && Whole(key, a)
    requires forall i :: 0 <= i < PARTS && a[i].Present? ==> b[i] == a[i]
    ensures Whole(key, b) && a[..key.total] == b[..key.total]
  {
  }

  lemma {:induction false} SamePicks(key: Key, a: seq<Sms>, b: seq<Sms>)
    requires multiset(a) == multiset(b) && SameTexts(a)
    ensures Picks(key, a) == Picks(key, b)
  {
    forall i | 0 <= i < PARTS ensures Pick(key, i, a) == Pick(key, i, b) {
      PickIsFed(key, i, a);
      PickIsFed(key, i, b);
      forall k | 0 <= k < |b| ensures b[k] in a { assert b[k] in multiset(b); }
      if Pick(key, i, a).Present? {
        var j :| 0 <= j < |a| && IsCopy(a[j], key, i) && a[j].text == Pick(key, i, a).text;
        assert a[j] in multiset(b);
        var k :| 0 <= k < |b| && IsCopy(b[k], key, i) && b[k].text == Pick(key, i, b).text;
        assert SamePlace(a[j], b[k]);
      }
    }
  }

  lemma {:induction false} SameRound(a: seq<Sms>, b: seq<Sms>)
    requires multiset(a) == multiset(b) && OneRound(a)
    ensures OneRound(b)
  {
    hide Picks, Whole;
    forall m | m in b ensures m in a { assert m in multiset(b); }
    forall key | IsLong(key) && Whole(key, Picks(key, b))
      ensures exists u :: 0 <= u < key.total && ComesOnce(b, key, u)
    {
      SamePicks(key, a, b);
      var u :| 0 <= u < key.total && ComesOnce(a, key, u);
      assert ComesOnce(b, key, u);
    }
  }

  // What is handed out, told apart by where it came from.
  datatype Tag = Lone(sender: Bytes, text: Bytes) | Joined(key: Key, text: Bytes) | Silent

  function TagOf(e: Event): Tag {
    match e
    case Passed(sms) => Lone(sms.sender, sms.text)
    case Rejected(sms) => Lone(sms.sender, sms.text)
    case Completed(slot) => Joined(slot.KeyOf(), TextOf(slot))
    case _ => Silent
  }

  function MessageTag(sms: Sms): Tag {
    if sms.IsPart() then Silent else Lone(sms.sender, sms.text)
  }

  // How often a tag occurs among the events, and among the messages.
  function EventCount(events: seq<Event>, tag: Tag): nat {
    if events == [] then 0
    else EventCount(events[..|events| - 1], tag) + if TagOf(events[|events| - 1]) == tag then 1 else 0
  }

  lemma {:induction false} EventCountAppends(a: seq<Event>, b: seq<Event>, tag: Tag)
    ensures EventCount(a + b, tag) == EventCount(a, tag) + EventCount(b, tag)
  {
    if b == [] {
      assert a + b == a;
    } else {
      EventCountAppends(a, b[..|b| - 1], tag);
      assert (a + b)[..|a + b| - 1] == a + b[..|b| - 1];
    }
  }

  function LoneCount(messages: seq<Sms>, tag: Tag): nat {
    if messages == [] then 0
    else LoneCount(messages[..|messages| - 1], tag) + if MessageTag(messages[|messages| - 1]) == tag then 1 else 0
  }

  lemma {:induction false} LoneCountOne(messages: seq<Sms>, sms: Sms, tag: Tag)
    ensures LoneCount(messages + [sms], tag) == LoneCount(messages, tag) + if MessageTag(sms) == tag then 1 else 0
  {
    assert (messages + [sms])[..|messages|] == messages;
  }

  lemma {:induction false} LoneCountWithout(messages: seq<Sms>, i: nat, tag: Tag)
    requires i < |messages|
    ensures LoneCount(messages, tag) == LoneCount(Without(messages, i), tag) + if MessageTag(messages[i]) == tag then 1 else 0
  {
    var n := |messages| - 1;
    if i < n {
      LoneCountWithout(messages[..n], i, tag);
      assert Without(messages, i) == Without(messages[..n], i) + [messages[n]];
      LoneCountOne(Without(messages[..n], i), messages[n], tag);
    } else {
      assert Without(messages, i) == messages[..n];
    }
  }

  lemma {:induction false} LoneCountPermutes(a: seq<Sms>, b: seq<Sms>, tag: Tag)
    requires multiset(a) == multiset(b)
    ensures LoneCount(a, tag) == LoneCount(b, tag)
  {
    assert |multiset(a)| == |a| && |multiset(b)| == |b|;
    if a != [] {
      assert a[0] in multiset(b);
      var i :| 0 <= i < |b| && b[i] == a[0];
      TakeOutOne(a, 0);
      TakeOutOne(b, i);
      assert multiset(Without(a, 0)) == multiset(a) - multiset{a[0]};
      assert multiset(Without(b, i)) == multiset(b) - multiset{b[i]};
      LoneCountPermutes(Without(a, 0), Without(b, i), tag);
      LoneCountWithout(a, 0, tag);
      LoneCountWithout(b, i, tag);
    }
  }

  predicate NoLone(events: seq<Event>) {
    forall e :: e in events ==> !TagOf(e).Lone?
  }

  lemma {:induction false} NoLoneCount(events: seq<Event>, tag: Tag)
    requires NoLone(events) && tag.Lone?
    ensures EventCount(events, tag) == 0
  {
    if events != [] { NoLoneCount(events[..|events| - 1], tag); }
  }

  lemma {:induction false} PartIsNotLone(slots: seq<Slot>, sms: Sms, nowUs: int)
    requires WellSized(slots) && sms.IsPart()
    ensures NoLone(FeedStep(slots, sms, nowUs).events)
  {
    var found := FindStep(slots, sms.KeyOf(), nowUs);
    var slot := found.slots[found.index];
    assert NoLone(found.events) && NoLone(StoreEvents(slot, sms));
    assert NoLone(SettleEvents(Offer(slot, sms, nowUs)));
  }

  lemma {:induction false} LoneStep(slots: seq<Slot>, input: Input, messages: seq<Sms>, tag: Tag)
    requires WellSized(slots) && tag.Lone?
    ensures var fed := if input.Feed? then messages + [input.sms] else messages;
            LoneCount(fed, tag) == LoneCount(messages, tag) + EventCount(Step(slots, input).events, tag)
  {
    var events := Step(slots, input).events;
    match input
    case Feed(sms, nowUs) =>
      LoneCountOne(messages, sms, tag);
      if sms.IsPart() {
        PartIsNotLone(slots, sms, nowUs);
        NoLoneCount(events, tag);
      } else {
        assert events[..0] == [];
      }
    case Expire(nowUs) =>
      ExpireEvents(slots, nowUs, SLOTS);
      NoLoneCount(events, tag);
  }

  lemma {:induction false} LoneMessages(inputs: seq<Input>, tag: Tag)
    requires tag.Lone?
    ensures EventCount(Run(inputs).events, tag) == LoneCount(Fed(inputs), tag)
  {
    if inputs != [] {
      var n := |inputs| - 1;
      LoneMessages(inputs[..n], tag);
      var r := Run(inputs[..n]);
      EventCountAppends(r.events, Step(r.slots, inputs[n]).events, tag);
      LoneStep(r.slots, inputs[n], Fed(inputs[..n]), tag);
    }
  }

  function TextCount(emissions: seq<Emission>, text: Bytes): nat {
    if emissions == [] then 0
    else TextCount(emissions[..|emissions| - 1], text) + if emissions[|emissions| - 1].text == text then 1 else 0
  }

  lemma {:induction false} JoinedOne(events: seq<Event>, e: Event, key: Key, text: Bytes)
    ensures EventCount(events + [e], Joined(key, text)) ==
            EventCount(events, Joined(key, text)) + TextCount(CompletedBy(key, e), text)
    ensures CompletedFor(key, events + [e]) == CompletedFor(key, events) + CompletedBy(key, e)
  {
    hide TextOf;
    assert (events + [e])[..|events|] == events;
    if e.Completed? { assert [EmissionOf(e.slot)][..0] == []; }
  }

  lemma {:induction false} TextCountAppends(a: seq<Emission>, b: seq<Emission>, text: Bytes)
    ensures TextCount(a + b, text) == TextCount(a, text) + TextCount(b, text)
  {
    if b == [] {
      assert a + b == a;
    } else {
      TextCountAppends(a, b[..|b| - 1], text);
      assert (a + b)[..|a + b| - 1] == a + b[..|b| - 1];
    }
  }

  lemma {:induction false} JoinedCount(events: seq<Event>, key: Key, text: Bytes)
    ensures EventCount(events, Joined(key, text)) == TextCount(CompletedFor(key, events), text)
  {
    hide TagOf, TextOf, CompletedBy;
    if events != [] {
      var n := |events| - 1;
      JoinedCount(events[..n], key, text);
      assert events == events[..n] + [events[n]];
      JoinedOne(events[..n], events[n], key, text);
      TextCountAppends(CompletedFor(key, events[..n]), CompletedBy(key, events[n]), text);
    }
  }

  lemma {:induction false} JoinedMessages(inputs: seq<Input>, startUs: int, key: Key, text: Bytes)
    requires Prompt(inputs, startUs) && FewOpen(Fed(inputs)) && OneRound(Fed(inputs))
    ensures EventCount(Run(inputs).events, Joined(key, text)) ==
            if IsLong(key) && Whole(key, Picks(key, Fed(inputs))) && text == WholeText(key, Fed(inputs)) then 1 else 0
  {
    RunRefinesCollectors(inputs, startUs);
    JoinedCount(Run(inputs).events, key, text);
    if IsLong(key) {
      JoinedOnce(key, Fed(inputs));
      var done := Collect(key, Fed(inputs)).done;
      if done != [] { assert done[..0] == []; }
    } else {
      ShortNeverCollects(key, Fed(inputs));
    }
  }

  lemma {:induction false} JoinedOnce(key: Key, messages: seq<Sms>)
    requires IsLong(key) && OneRound(messages)
    ensures var done := Collect(key, messages).done;
            if Whole(key, Picks(key, messages)) then |done| == 1 && done[0].text == WholeText(key, messages) else done == []
  {
    hide Picks, Whole, Collect;
    if Whole(key, Picks(key, messages)) {
      var u :| 0 <= u < key.total && ComesOnce(messages, key, u);
      CollectedOnce(key, messages, u);
    } else {
      FirstCopyWins(key, messages);
    }
  }

  lemma {:induction false} ShortNeverCollects(key: Key, messages: seq<Sms>)
    requires !IsLong(key)
    ensures Collect(key, messages) == Collector(NO_PARTS, "", [])
  {
    if messages != [] { ShortNeverCollects(key, messages[..|messages| - 1]); }
  }

  // Two runs that are fed the same messages, copies included, in different orders and at different
  // times hand out the same messages equally often, lone ones and joined ones.
  lemma {:induction false} OrderIsIrrelevant(a: seq<Input>, b: seq<Input>, startA: int, startB: int, tag: Tag)
    requires Prompt(a, startA) && FewOpen(Fed(a)) && Prompt(b, startB) && FewOpen(Fed(b))
    requires multiset(Fed(a)) == multiset(Fed(b)) && OneRound(Fed(a))
    requires !tag.Silent?
    ensures EventCount(Run(a).events, tag) == EventCount(Run(b).events, tag)
  {
    SameRound(Fed(a), Fed(b));
    match tag
    case Lone(_, _) =>
      LoneMessages(a, tag);
      LoneMessages(b, tag);
      LoneCountPermutes(Fed(a), Fed(b), tag);
    case Joined(key, text) =>
      JoinedMessages(a, startA, key, text);
      JoinedMessages(b, startB, key, text);
      SamePicks(key, Fed(a), Fed(b));
  }
}
