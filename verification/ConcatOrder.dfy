// Order does not matter. While no slot times out and at most five long messages are open at once,
// the five slots behave as one collector per key that knows neither slots nor times; and what a
// collector hands out depends on the set of parts, not on the order in which they arrive
// (core/src/pdu.cpp:174-188, core/src/pdu.cpp:210-279).
module ConcatOrder {
  import opened Text
  import opened Concat
  import opened ConcatRuns

  // ----- the reference: one collector per key -----

  datatype Collector = Collector(parts: seq<Part>, timestamp: Bytes, done: seq<Emission>)

  function Whole(key: Key, parts: seq<Part>): bool {
    0 <= key.total <= |parts| && forall i :: 0 <= i < key.total ==> parts[i].Present?
  }

  // The first copy of a part is kept, later copies are ignored, and a message that has all its parts
  // is handed out with its texts joined in index order.
  function Collect(key: Key, messages: seq<Sms>): (c: Collector)
    ensures |c.parts| == PARTS
  {
    if messages == [] then Collector(NO_PARTS, "", [])
    else CollectOne(key, Collect(key, messages[..|messages| - 1]), messages[|messages| - 1])
  }

  function CollectOne(key: Key, c: Collector, sms: Sms): (r: Collector)
    requires |c.parts| == PARTS
    ensures |r.parts| == PARTS
  {
    if !sms.IsPart() || sms.KeyOf() != key || c.parts[sms.part - 1].Present? then c
    else
      var parts := c.parts[sms.part - 1 := Present(sms.text)];
      var timestamp := if c.timestamp == "" then sms.timestamp else c.timestamp;
      if Whole(key, parts)
      then Collector(NO_PARTS, "", c.done + [Emission(key.sender, Join(Pieces(parts[..key.total])), timestamp)])
      else Collector(parts, timestamp, c.done)
  }

  function Fed(inputs: seq<Input>): seq<Sms> {
    if inputs == [] then []
    else
      var rest := Fed(inputs[..|inputs| - 1]);
      match inputs[|inputs| - 1]
      case Feed(sms, _) => rest + [sms]
      case Expire(_) => rest
  }

  // The keys whose message has begun and is not complete.
  function OpenKeys(messages: seq<Sms>): set<Key> {
    set i | 0 <= i < |messages| && Collect(messages[i].KeyOf(), messages).parts != NO_PARTS :: messages[i].KeyOf()
  }

  predicate FewOpen(messages: seq<Sms>) {
    forall n :: 0 <= n <= |messages| ==> |OpenKeys(messages[..n])| <= SLOTS
  }

  // All times lie within one timeout of each other, from startUs on.
  predicate Prompt(inputs: seq<Input>, startUs: int) {
    forall i :: 0 <= i < |inputs| ==> startUs <= inputs[i].nowUs <= startUs + TIMEOUT_US
  }

  // ----- the slots refine the collectors -----

  function ActiveKeys(slots: seq<Slot>): set<Key> {
    set i | 0 <= i < |slots| && slots[i].active :: slots[i].KeyOf()
  }

  // A key that is not open has no slot; the slot of an open key holds what its collector holds.
  predicate Agrees(slots: seq<Slot>, key: Key, c: Collector) {
    if c.parts == NO_PARTS then forall i :: 0 <= i < |slots| ==> !slots[i].Holds(key)
    else exists i :: 0 <= i < |slots| && slots[i].Holds(key)
                     && slots[i].parts == c.parts && slots[i].timestamp == c.timestamp
  }

  // The completed messages of one key, as handed out.
  function CompletedFor(key: Key, events: seq<Event>): seq<Emission> {
    if events == [] then []
    else CompletedFor(key, events[..|events| - 1]) + CompletedBy(key, events[|events| - 1])
  }

  function CompletedBy(key: Key, e: Event): seq<Emission> {
    if e.Completed? && e.slot.KeyOf() == key then [EmissionOf(e.slot)] else []
  }

  predicate Quiet(events: seq<Event>) {
    forall e :: e in events ==> !e.Evicted? && !e.Expired? && !e.Reclaimed?
  }

  // The relation that a run keeps between the slots and the collectors.
  ghost predicate Refines(r: Outcome, messages: seq<Sms>, startUs: int) {
    && Inv(r.slots)
    && Quiet(r.events)
    && (forall i :: 0 <= i < SLOTS && r.slots[i].active ==> startUs <= r.slots[i].lastUs)
    && (forall key :: Agrees(r.slots, key, Collect(key, messages)))
    && (forall key :: CompletedFor(key, r.events) == Collect(key, messages).done)
  }

  lemma {:induction false} DistinctKeysCount(slots: seq<Slot>)
    requires KeysDiffer(slots)
    requires forall i :: 0 <= i < |slots| ==> slots[i].active
    ensures |ActiveKeys(slots)| == |slots|
  {
    if slots != [] {
      var n := |slots| - 1;
      DistinctKeysCount(slots[..n]);
      assert ActiveKeys(slots) == ActiveKeys(slots[..n]) + {slots[n].KeyOf()};
    }
  }

  // With fewer than five open keys there is a free slot.
  lemma {:induction false} FreeSlot(slots: seq<Slot>, keys: set<Key>)
    requires Inv(slots) && ActiveKeys(slots) <= keys && |keys| < SLOTS
    ensures exists i :: 0 <= i < SLOTS && !slots[i].active
  {
    if forall i :: 0 <= i < SLOTS ==> slots[i].active {
      DistinctKeysCount(slots);
      Subset(ActiveKeys(slots), keys);
    }
  }

  lemma {:induction false} Subset(a: set<Key>, b: set<Key>)
    requires a <= b
    ensures |a| <= |b|
  {
    if a != {} {
      var x :| x in a;
      Subset(a - {x}, b - {x});
    }
  }

  lemma {:induction false} NotFedNotOpen(key: Key, messages: seq<Sms>)
    requires forall i :: 0 <= i < |messages| ==> messages[i].KeyOf() != key
    ensures Collect(key, messages) == Collector(NO_PARTS, "", [])
  {
    if messages != [] { NotFedNotOpen(key, messages[..|messages| - 1]); }
  }

  lemma {:induction false} ActiveIsOpen(r: Outcome, messages: seq<Sms>, startUs: int)
    requires Refines(r, messages, startUs)
    ensures ActiveKeys(r.slots) <= OpenKeys(messages)
  {
    forall key | key in ActiveKeys(r.slots) ensures key in OpenKeys(messages) {
      assert Agrees(r.slots, key, Collect(key, messages));
      if forall i :: 0 <= i < |messages| ==> messages[i].KeyOf() != key {
        NotFedNotOpen(key, messages);
      }
    }
  }

  // A part of a key that is not open opens it, since a long message has at least two parts.
  lemma {:induction false} OneIsNotWhole(sms: Sms)
    requires sms.IsPart()
    ensures var parts := NO_PARTS[sms.part - 1 := Present(sms.text)];
            parts != NO_PARTS && !Whole(sms.KeyOf(), parts)
  {
    var parts := NO_PARTS[sms.part - 1 := Present(sms.text)];
    assert parts[if sms.part == 1 then 1 else 0].Missing?;
    assert parts[sms.part - 1] != NO_PARTS[sms.part - 1];
  }

  lemma {:induction false} OpensOne(messages: seq<Sms>, sms: Sms)
    requires sms.IsPart() && Collect(sms.KeyOf(), messages).parts == NO_PARTS
    ensures sms.KeyOf() !in OpenKeys(messages)
    ensures OpenKeys(messages) + {sms.KeyOf()} <= OpenKeys(messages + [sms])
  {
    hide Whole;
    var after := messages + [sms];
    assert after[..|messages|] == messages;
    OneIsNotWhole(sms);
    forall key | key in OpenKeys(messages) ensures key in OpenKeys(after) {
      var i :| 0 <= i < |messages| && messages[i].KeyOf() == key && Collect(key, messages).parts != NO_PARTS;
      assert after[i].KeyOf() == key;
    }
    assert after[|messages|].KeyOf() == sms.KeyOf();
  }

  // Before anything of a message is held there is no timestamp either.
  lemma {:induction false} CollectorOk(key: Key, messages: seq<Sms>)
    ensures var c := Collect(key, messages);
            && (c.parts == NO_PARTS ==> c.timestamp == "")
            && (c.parts != NO_PARTS ==> !Whole(key, c.parts))
            && (forall i :: 0 <= i < PARTS && c.parts[i].Present? ==> i < key.total)
  {
    if messages != [] {
      CollectorOk(key, messages[..|messages| - 1]);
    }
  }

  // The slot that a part goes to: the one of its key or a free one. Nothing is displaced.
  predicate Finds(slots: seq<Slot>, sms: Sms, nowUs: int, startUs: int, c: Collector)
    requires WellSized(slots) && |c.parts| == PARTS
  {
    var found := FindStep(slots, sms.KeyOf(), nowUs);
    var slot := found.slots[found.index];
    && found.events == []
    && slot.parts == c.parts && slot.timestamp == c.timestamp && startUs <= slot.lastUs
    && (slots[found.index].active ==> slots[found.index].Holds(sms.KeyOf()))
  }

  lemma {:induction false} NewKeyFindsFreeSlot(r: Outcome, messages: seq<Sms>, sms: Sms, nowUs: int, startUs: int)
    requires Refines(r, messages, startUs) && sms.IsPart()
    requires startUs <= nowUs <= startUs + TIMEOUT_US
    requires |OpenKeys(messages + [sms])| <= SLOTS
    requires Collect(sms.KeyOf(), messages).parts == NO_PARTS
    ensures FirstHolding(r.slots, sms.KeyOf()) == SLOTS
    ensures FirstReusable(r.slots, nowUs) < SLOTS && !r.slots[FirstReusable(r.slots, nowUs)].active
  {
    hide OpenKeys, CompletedFor, Collect, KeysDiffer;
    var key := sms.KeyOf();
    assert Agrees(r.slots, key, Collect(key, messages));
    OpensOne(messages, sms);
    Subset(OpenKeys(messages) + {key}, OpenKeys(messages + [sms]));
    ActiveIsOpen(r, messages, startUs);
    FreeSlot(r.slots, OpenKeys(messages));
  }

  lemma {:induction false} FindsItsSlot(r: Outcome, messages: seq<Sms>, sms: Sms, nowUs: int, startUs: int)
    requires Refines(r, messages, startUs) && sms.IsPart()
    requires startUs <= nowUs <= startUs + TIMEOUT_US
    requires |OpenKeys(messages + [sms])| <= SLOTS
    ensures Finds(r.slots, sms, nowUs, startUs, Collect(sms.KeyOf(), messages))
  {
    var key := sms.KeyOf();
    CollectorOk(key, messages);
    if Collect(key, messages).parts == NO_PARTS {
      NewKeyFindsFreeSlot(r, messages, sms, nowUs, startUs);
    } else {
      assert Agrees(r.slots, key, Collect(key, messages));
      var i :| 0 <= i < SLOTS && r.slots[i].Holds(key) && r.slots[i].parts == Collect(key, messages).parts
               && r.slots[i].timestamp == Collect(key, messages).timestamp;
      assert FirstHolding(r.slots, key) == i;
    }
  }

  // What feeding a part does: slot k becomes `offered`, or is cleared if that is whole, ...
  predicate Moves(slots: seq<Slot>, sms: Sms, after: seq<Slot>, startUs: int, k: nat, offered: Slot) {
    && k < |slots| && (forall j :: 0 <= j < |slots| && j != k ==> !slots[j].Holds(sms.KeyOf()))
    && (slots[k].active ==> slots[k].Holds(sms.KeyOf()))
    && offered.Holds(sms.KeyOf()) && |offered.parts| == PARTS && startUs <= offered.lastUs
    && after == slots[k := Settled(offered)]
    && (offered.received >= offered.total <==> Whole(sms.KeyOf(), offered.parts))
  }

  // ... and `offered` holds what the collector c of the key holds after the same part.
  predicate Mirrors(c: Collector, sms: Sms, events: seq<Event>, offered: Slot)
    requires sms.IsPart() && |c.parts| == PARTS
  {
    var i := sms.part - 1;
    if c.parts[i].Present? then
      && offered.parts == c.parts && offered.timestamp == c.timestamp
      && events == SettleEvents(offered)
    else
      && offered.parts == c.parts[i := Present(sms.text)]
      && offered.timestamp == (if c.timestamp == "" then sms.timestamp else c.timestamp)
      && events == [Stored(sms, offered.received)] + SettleEvents(offered)
  }

  predicate TakesPart(slots: seq<Slot>, sms: Sms, step: Outcome, startUs: int, c: Collector, k: nat, offered: Slot)
    requires sms.IsPart() && |c.parts| == PARTS
  {
    Moves(slots, sms, step.slots, startUs, k, offered) && Mirrors(c, sms, step.events, offered)
  }

  lemma {:induction false} OthersDiffer(slots: seq<Slot>, key: Key, nowUs: int)
    requires Inv(slots) && 2 <= key.total <= PARTS
    ensures var k := FindStep(slots, key, nowUs).index;
            forall j :: 0 <= j < SLOTS && j != k ==> !slots[j].Holds(key)
  {
    FindKeeps(slots, key, nowUs);
  }

  lemma {:induction false} OfferedIsWhole(slot: Slot, sms: Sms, nowUs: int)
    requires sms.IsPart() && Fits(slot) && slot.Holds(sms.KeyOf())
    ensures var offered := Offer(slot, sms, nowUs);
            offered.Holds(sms.KeyOf()) && |offered.parts| == PARTS
            && (offered.received >= offered.total <==> Whole(sms.KeyOf(), offered.parts))
  {
    OfferFits(slot, sms, nowUs);
    CountBound(Offer(slot, sms, nowUs).parts, sms.total);
  }

  lemma {:induction false} OfferMirrors(slot: Slot, sms: Sms, nowUs: int, c: Collector)
    requires sms.IsPart() && |c.parts| == PARTS && slot.parts == c.parts && slot.timestamp == c.timestamp
    ensures var offered := Offer(slot, sms, nowUs);
            Mirrors(c, sms, StoreEvents(slot, sms) + SettleEvents(offered), offered)
  {
  }

  lemma {:induction false} PartStep(slots: seq<Slot>, sms: Sms, nowUs: int, startUs: int, c: Collector) returns (k: nat, offered: Slot)
    requires Inv(slots) && sms.IsPart() && |c.parts| == PARTS && startUs <= nowUs
    requires Finds(slots, sms, nowUs, startUs, c)
    ensures TakesPart(slots, sms, FeedStep(slots, sms, nowUs), startUs, c, k, offered)
  {
    hide FindStep, Mirrors, Fits, Whole;
    var key := sms.KeyOf();
    OthersDiffer(slots, key, nowUs);
    FindKeeps(slots, key, nowUs);
    var found := FindStep(slots, key, nowUs);
    var slot := found.slots[found.index];
    k, offered := found.index, Offer(slot, sms, nowUs);
    OfferedIsWhole(slot, sms, nowUs);
    OfferMirrors(slot, sms, nowUs, c);
    var step := FeedStep(slots, sms, nowUs);
    assert step.slots == slots[k := Settled(offered)];
    assert step.events == StoreEvents(slot, sms) + SettleEvents(offered);
  }

  lemma {:induction false} CollectsOne(key: Key, messages: seq<Sms>, sms: Sms)
    ensures Collect(key, messages + [sms]) == CollectOne(key, Collect(key, messages), sms)
  {
    assert (messages + [sms])[..|messages|] == messages;
  }

  lemma {:induction false} OtherKeyStays(key: Key, c: Collector, sms: Sms)
    requires |c.parts| == PARTS && key != sms.KeyOf()
    ensures CollectOne(key, c, sms) == c
  {
  }

  // The collector of the key goes on as the slot does.
  lemma {:induction false} CollectorFollows(c: Collector, sms: Sms, events: seq<Event>, offered: Slot)
    requires sms.IsPart() && |c.parts| == |offered.parts| == PARTS && offered.Holds(sms.KeyOf())
    requires Mirrors(c, sms, events, offered) && (c.parts != NO_PARTS ==> !Whole(sms.KeyOf(), c.parts))
    ensures offered.parts != NO_PARTS
    ensures CollectOne(sms.KeyOf(), c, sms) ==
            if Whole(sms.KeyOf(), offered.parts) then Collector(NO_PARTS, "", c.done + [EmissionOf(offered)])
            else Collector(offered.parts, offered.timestamp, c.done)
  {
    hide Whole, TextOf, EmissionOf, SettleEvents;
    var key := sms.KeyOf();
    HasThePart(c, sms, events, offered);
    if Whole(key, offered.parts) { HandsOut(offered, key); }
  }

  lemma {:induction false} HasThePart(c: Collector, sms: Sms, events: seq<Event>, offered: Slot)
    requires sms.IsPart() && |c.parts| == PARTS && Mirrors(c, sms, events, offered)
    ensures offered.parts != NO_PARTS
    ensures c.parts[sms.part - 1].Present? ==> c.parts != NO_PARTS
  {
    hide SettleEvents;
    assert NO_PARTS[sms.part - 1].Missing?;
    assert offered.parts[sms.part - 1].Present?;
  }

  lemma {:induction false} SettledHolds(offered: Slot, key: Key)
    ensures Settled(offered).Holds(key) ==> Settled(offered) == offered && offered.Holds(key)
    ensures offered.received < offered.total ==> Settled(offered) == offered
    ensures offered.received >= offered.total ==> !Settled(offered).Holds(key)
  {
  }

  lemma {:induction false} OtherSlotsAgree(slots: seq<Slot>, sms: Sms, after: seq<Slot>, startUs: int, k: nat, offered: Slot, key: Key, c: Collector)
    requires Agrees(slots, key, c) && Moves(slots, sms, after, startUs, k, offered) && key != sms.KeyOf()
    ensures Agrees(after, key, c)
  {
    hide Settled, Whole;
    SettledHolds(offered, key);
    if c.parts != NO_PARTS {
      var i :| 0 <= i < |slots| && slots[i].Holds(key) && slots[i].parts == c.parts && slots[i].timestamp == c.timestamp;
      assert after[i] == slots[i];
    }
  }

  lemma {:induction false} ItsSlotAgrees(slots: seq<Slot>, sms: Sms, after: seq<Slot>, startUs: int, k: nat, offered: Slot, c: Collector)
    requires Moves(slots, sms, after, startUs, k, offered)
    requires if Whole(sms.KeyOf(), offered.parts) then c.parts == NO_PARTS
             else c.parts == offered.parts != NO_PARTS && c.timestamp == offered.timestamp
    ensures Agrees(after, sms.KeyOf(), c)
  {
    hide Settled, Whole;
    SettledHolds(offered, sms.KeyOf());
    assert after[k] == Settled(offered);
  }

  lemma {:induction false} PartAgrees(slots: seq<Slot>, messages: seq<Sms>, sms: Sms, step: Outcome, startUs: int,
                   k: nat, offered: Slot, key: Key)
    requires sms.IsPart() && Agrees(slots, key, Collect(key, messages)) && KeysDiffer(slots)
    requires TakesPart(slots, sms, step, startUs, Collect(sms.KeyOf(), messages), k, offered)
    ensures Agrees(step.slots, key, Collect(key, messages + [sms]))
  {
    hide Agrees, Mirrors, Collect, CollectOne, Settled, Whole, KeysDiffer;
    var c := Collect(key, messages);
    CollectsOne(key, messages, sms);
    if key == sms.KeyOf() {
      CollectorOk(key, messages);
      CollectorFollows(c, sms, step.events, offered);
      ItsSlotAgrees(slots, sms, step.slots, startUs, k, offered, Collect(key, messages + [sms]));
    } else {
      OtherKeyStays(key, c, sms);
      OtherSlotsAgree(slots, sms, step.slots, startUs, k, offered, key, c);
    }
  }

  lemma {:induction false} HandsOut(slot: Slot, key: Key)
    requires slot.Holds(key) && |slot.parts| == PARTS && 0 <= key.total <= PARTS
    ensures EmissionOf(slot) == Emission(key.sender, Join(Pieces(slot.parts[..key.total])), slot.timestamp)
  {
  }

  lemma {:induction false} OtherKeyCompletesNone(key: Key, sms: Sms, offered: Slot)
    requires offered.KeyOf() != key
    ensures CompletedFor(key, SettleEvents(offered)) == []
    ensures CompletedFor(key, [Stored(sms, offered.received)] + SettleEvents(offered)) == []
  {
    CompletedOne(key, Completed(offered));
    CompletedOne(key, Stored(sms, offered.received));
    CompletedAppends(key, [Stored(sms, offered.received)], SettleEvents(offered));
  }

  lemma {:induction false} SettledCompletes(sms: Sms, offered: Slot)
    ensures var done := if offered.received >= offered.total then [EmissionOf(offered)] else [];
            && CompletedFor(offered.KeyOf(), SettleEvents(offered)) == done
            && CompletedFor(offered.KeyOf(), [Stored(sms, offered.received)] + SettleEvents(offered)) == done
  {
    hide TextOf;
    CompletedOne(offered.KeyOf(), Completed(offered));
    CompletedOne(offered.KeyOf(), Stored(sms, offered.received));
    CompletedAppends(offered.KeyOf(), [Stored(sms, offered.received)], SettleEvents(offered));
  }

  lemma {:induction false} PartCompletes(slots: seq<Slot>, messages: seq<Sms>, sms: Sms, step: Outcome, startUs: int,
                      k: nat, offered: Slot, key: Key)
    requires sms.IsPart()
    requires TakesPart(slots, sms, step, startUs, Collect(sms.KeyOf(), messages), k, offered)
    ensures Collect(key, messages + [sms]).done == Collect(key, messages).done + CompletedFor(key, step.events)
  {
    hide Whole, TextOf, CompletedFor, Collect, CollectOne, EmissionOf, SettleEvents, Settled;
    CollectsOne(key, messages, sms);
    if key == sms.KeyOf() {
      CollectorOk(key, messages);
      CollectorFollows(Collect(key, messages), sms, step.events, offered);
      SettledCompletes(sms, offered);
    } else {
      OtherKeyStays(key, Collect(key, messages), sms);
      OtherKeyCompletesNone(key, sms, offered);
    }
  }

  lemma {:induction false} CompletedOne(key: Key, e: Event)
    ensures CompletedFor(key, [e]) == CompletedBy(key, e)
  {
    assert [e][..0] == [];
  }

  lemma {:induction false} CompletedAppends(key: Key, a: seq<Event>, b: seq<Event>)
    ensures CompletedFor(key, a + b) == CompletedFor(key, a) + CompletedFor(key, b)
  {
    if b == [] {
      assert a + b == a;
    } else {
      var n := |b| - 1;
      CompletedAppends(key, a, b[..n]);
      assert (a + b)[..|a + b| - 1] == a + b[..n];
      Associative(CompletedFor(key, a), CompletedFor(key, b[..n]), CompletedBy(key, b[n]));
    }
  }

  lemma {:induction false} PassedRefines(r: Outcome, messages: seq<Sms>, sms: Sms, e: Event, startUs: int)
    requires Refines(r, messages, startUs) && !sms.IsPart() && (e.Passed? || e.Rejected?)
    ensures Refines(Outcome(r.slots, r.events + [e]), messages + [sms], startUs)
  {
    assert (messages + [sms])[..|messages|] == messages;
    forall key ensures CompletedFor(key, r.events + [e]) == CompletedFor(key, r.events) {
      CompletedAppends(key, r.events, [e]);
      CompletedOne(key, e);
    }
  }

  lemma {:induction false} PartRefines(r: Outcome, messages: seq<Sms>, sms: Sms, step: Outcome, startUs: int, k: nat, offered: Slot)
    requires Refines(r, messages, startUs) && sms.IsPart() && Inv(step.slots)
    requires TakesPart(r.slots, sms, step, startUs, Collect(sms.KeyOf(), messages), k, offered)
    ensures Refines(Outcome(step.slots, r.events + step.events), messages + [sms], startUs)
  {
    var after := messages + [sms];
    forall key ensures Agrees(step.slots, key, Collect(key, after)) {
      assert Agrees(r.slots, key, Collect(key, messages));
      PartAgrees(r.slots, messages, sms, step, startUs, k, offered, key);
    }
    forall key ensures CompletedFor(key, r.events + step.events) == Collect(key, after).done {
      PartCompletes(r.slots, messages, sms, step, startUs, k, offered, key);
      CompletedAppends(key, r.events, step.events);
      assert CompletedFor(key, r.events) == Collect(key, messages).done;
    }
    assert Quiet(step.events);
  }

  lemma {:induction false} FeedRefines(r: Outcome, messages: seq<Sms>, sms: Sms, nowUs: int, startUs: int)
    requires Refines(r, messages, startUs)
    requires startUs <= nowUs <= startUs + TIMEOUT_US
    requires |OpenKeys(messages + [sms])| <= SLOTS
    ensures var step := FeedStep(r.slots, sms, nowUs);
            Refines(Outcome(step.slots, r.events + step.events), messages + [sms], startUs)
  {
    if sms.IsPart() {
      FeedKeeps(r.slots, sms, nowUs);
      FindsItsSlot(r, messages, sms, nowUs, startUs);
      var k, offered := PartStep(r.slots, sms, nowUs, startUs, Collect(sms.KeyOf(), messages));
      PartRefines(r, messages, sms, FeedStep(r.slots, sms, nowUs), startUs, k, offered);
    } else {
      PassedRefines(r, messages, sms, FeedStep(r.slots, sms, nowUs).events[0], startUs);
    }
  }

  lemma {:induction false} ExpireIdle(slots: seq<Slot>, nowUs: int, n: nat)
    requires WellSized(slots) && n <= SLOTS
    requires forall i :: 0 <= i < SLOTS ==> !Due(slots[i], nowUs)
    ensures ExpireFirst(slots, nowUs, n) == Outcome(slots, [])
  {
    if n > 0 { ExpireIdle(slots, nowUs, n - 1); }
  }

  // For all runs within one timeout and with at most five messages open: nothing is evicted, expired
  // or lost, and for every key exactly the collector's messages are handed out.
  lemma {:induction false} RunRefinesCollectors(inputs: seq<Input>, startUs: int)
    requires Prompt(inputs, startUs) && FewOpen(Fed(inputs))
    ensures Refines(Run(inputs), Fed(inputs), startUs)
  {
    if inputs != [] {
      var n := |inputs| - 1;
      var before := Fed(inputs[..n]);
      var r := Run(inputs[..n]);
      match inputs[n] {
        case Feed(sms, nowUs) =>
          assert Fed(inputs)[..|before|] == before && (before + [sms])[..|before| + 1] == before + [sms];
          assert forall m :: 0 <= m <= |before| ==> before[..m] == Fed(inputs)[..m];
          RunRefinesCollectors(inputs[..n], startUs);
          FeedRefines(r, before, sms, nowUs, startUs);
        case Expire(nowUs) =>
          RunRefinesCollectors(inputs[..n], startUs);
          ExpireIdle(r.slots, nowUs, SLOTS);
          assert r.events + [] == r.events;
      }
    }
  }
}
