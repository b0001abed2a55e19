// One call of feed or expire, told by the fields of the slots and the numbers of the source alone
// (core/src/pdu.cpp:214-299).
module ConcatSteps {
  import opened Text
  import opened Concat
  import opened ConcatRuns
  import opened ConcatTexts

  // ----- feed -----

  predicate SameMessage(slot: Slot, sms: Sms) {
    slot.active && slot.reference == sms.reference && slot.sender == sms.sender && slot.total == sms.total
  }

  // Not in use, or not added to for more than 30 seconds.
  predicate Stale(slot: Slot, nowUs: int) {
    !slot.active || nowUs - slot.lastUs > 30_000_000
  }

  datatype Choice = Held | Reused | Robbed

  // The slot for a part: the one of its message; else the first that is stale; else, all five being
  // in use, the first of those that were added to longest ago.
  predicate IsChoice(slots: seq<Slot>, sms: Sms, nowUs: int, k: int, choice: Choice) {
    && 0 <= k < |slots| == 5
    && match choice
       case Held => SameMessage(slots[k], sms)
       case Reused =>
         && (forall j :: 0 <= j < 5 ==> !SameMessage(slots[j], sms))
         && Stale(slots[k], nowUs) && forall j :: 0 <= j < k ==> !Stale(slots[j], nowUs)
       case Robbed =>
         && (forall j :: 0 <= j < 5 ==> !SameMessage(slots[j], sms) && !Stale(slots[j], nowUs))
         && (forall j :: 0 <= j < 5 ==> slots[k].lastUs <= slots[j].lastUs)
         && (forall j :: 0 <= j < k ==> slots[k].lastUs < slots[j].lastUs)
  }

  // The slot once the part is in it: a new one starts without parts, timestamp and count.
  predicate IsFilled(before: Slot, choice: Choice, sms: Sms, nowUs: int, after: Slot) {
    var parts := if choice.Held? then before.parts else seq(10, _ => Missing);
    var count := if choice.Held? then before.received else 0;
    var timestamp := if choice.Held? then before.timestamp else "";
    && |parts| == 10 && 1 <= sms.part <= 10 && SameMessage(after, sms)
    && if parts[sms.part - 1].Present?
       then after == before
       else && after.parts == parts[sms.part - 1 := Present(sms.text)]
            && after.received == count + 1
            && after.lastUs == nowUs
            && after.timestamp == if timestamp == "" then sms.timestamp else timestamp
  }

  predicate IsNew(before: Slot, choice: Choice, sms: Sms) {
    choice.Held? && 1 <= sms.part <= |before.parts| ==> before.parts[sms.part - 1].Missing?
  }

  // What the part brought about: the slot it went into, as it is with the part in it; the pieces of a
  // message that had to make room for it, and of the message that it completed.
  datatype Effect = Effect(k: int, choice: Choice, filled: Slot, robbed: seq<Bytes>, whole: seq<Bytes>)

  predicate IsEffect(slots: seq<Slot>, sms: Sms, nowUs: int, effect: Effect, after: seq<Slot>, out: seq<Emission>, said: seq<Notice>) {
    var k, filled := effect.k, effect.filled;
    && IsChoice(slots, sms, nowUs, k, effect.choice)
    && IsFilled(slots[k], effect.choice, sms, nowUs, filled)
    && (effect.choice.Robbed? ==> Shows(slots[k].parts, slots[k].total, effect.robbed))
    && (filled.received == filled.total ==> Shows(filled.parts, filled.total, effect.whole))
    && after == slots[k := if filled.received == filled.total then CLEARED else filled]
    && out == (if effect.choice.Robbed? then [Emission(slots[k].sender, Join(effect.robbed), slots[k].timestamp)] else [])
            + (if filled.received == filled.total then [Emission(sms.sender, Join(effect.whole), filled.timestamp)] else [])
    && said == (if effect.choice.Robbed? then [Notice(SlotEvicted, slots[k].reference, 0, slots[k].received, slots[k].total)] else [])
             + (if IsNew(slots[k], effect.choice, sms)
                then [Notice(PartReceived, sms.reference, sms.part, filled.received, sms.total)] else [])
  }

  // In every state that a run can reach.
  lemma {:induction false} FeedSays(slots: seq<Slot>, sms: Sms, nowUs: int) returns (effect: Effect)
    requires Inv(slots)
    ensures var r := FeedStep(slots, sms, nowUs);
            var out, said := AllEmissions(r.events), AllNotices(r.events);
            var alone := Emission(sms.sender, sms.text, sms.timestamp);
            if sms.total <= 1 || sms.part <= 0 then r.slots == slots && out == [alone] && said == []
            else if sms.total > 10 || sms.part > sms.total
            then r.slots == slots && out == [alone] && said == [Notice(InvalidPart, sms.reference, sms.part, 1, sms.total)]
            else IsEffect(slots, sms, nowUs, effect, r.slots, out, said)
  {
    hide AllEmissions, AllNotices, FindStep, IsEffect, Offer;
    OnlyOne(Passed(sms));
    OnlyOne(Rejected(sms));
    if sms.IsPart() {
      effect := PartSays(slots, sms, nowUs);
    } else {
      effect := Effect(0, Held, CLEARED, [], []);
    }
  }

  lemma {:induction false} PartSays(slots: seq<Slot>, sms: Sms, nowUs: int) returns (effect: Effect)
    requires Inv(slots) && sms.IsPart()
    ensures var r := FeedStep(slots, sms, nowUs);
            IsEffect(slots, sms, nowUs, effect, r.slots, AllEmissions(r.events), AllNotices(r.events))
  {
    hide AllEmissions, AllNotices, FeedStep, Settled, IsChoice, IsFilled, IsEffect, Shows, FindStep, Offer, StoreEvents, SettleEvents, IsNew, SlotOk, KeysDiffer, Count;
    var found := FindStep(slots, sms.KeyOf(), nowUs);
    var k, slot := found.index, found.slots[found.index];
    FindKeeps(slots, sms.KeyOf(), nowUs);
    var filled := Offer(slot, sms, nowUs);
    var choice, robbed := FindSays(slots, sms, nowUs);
    SameTotal(slot, sms, nowUs);
    OfferSays(slots[k], slot, choice, sms, nowUs);
    OfferFits(slot, sms, nowUs);
    var whole := [];
    if filled.received == filled.total { whole := TextShows(filled); }
    effect := Effect(k, choice, filled, robbed, whole);
    FeedLog(slots, sms, nowUs);
    SettleSays(filled);
    StoreSays(slots[k], slot, choice, sms, nowUs);
    PutTogether(slots, sms, nowUs, effect, found, FeedStep(slots, sms, nowUs));
  }

  lemma {:induction false} PutTogether(slots: seq<Slot>, sms: Sms, nowUs: int, effect: Effect, found: Found, r: Outcome)
    requires var k, filled := effect.k, effect.filled;
      && IsChoice(slots, sms, nowUs, k, effect.choice)
      && IsFilled(slots[k], effect.choice, sms, nowUs, filled) && filled.sender == sms.sender
      && (effect.choice.Robbed? ==> Shows(slots[k].parts, slots[k].total, effect.robbed))
      && (filled.received == filled.total ==> Shows(filled.parts, filled.total, effect.whole) && TextOf(filled) == Join(effect.whole))
      && |found.slots| == |slots| && found.slots == slots[k := found.slots[k]]
      && r.slots == found.slots[k := if filled.received == filled.total then CLEARED else filled]
      && AllEmissions(r.events) == AllEmissions(found.events) + AllEmissions(SettleEvents(filled))
      && AllEmissions(found.events) == (if effect.choice.Robbed? then [Emission(slots[k].sender, Join(effect.robbed), slots[k].timestamp)] else [])
      && AllEmissions(SettleEvents(filled)) ==
         (if filled.received == filled.total then [Emission(filled.sender, TextOf(filled), filled.timestamp)] else [])
    requires var k := effect.k;
      AllNotices(r.events) ==
        (if effect.choice.Robbed? then [Notice(SlotEvicted, slots[k].reference, 0, slots[k].received, slots[k].total)] else [])
      + (if IsNew(slots[k], effect.choice, sms) then [Notice(PartReceived, sms.reference, sms.part, effect.filled.received, sms.total)] else [])
    ensures IsEffect(slots, sms, nowUs, effect, r.slots, AllEmissions(r.events), AllNotices(r.events))
  {
    hide AllEmissions, AllNotices, IsFilled, Shows, IsNew, TextOf, SettleEvents;
  }

  lemma {:induction false} SettleSays(filled: Slot)
    requires filled.received <= filled.total
    ensures AllEmissions(SettleEvents(filled)) ==
            if filled.received == filled.total then [Emission(filled.sender, TextOf(filled), filled.timestamp)] else []
    ensures Settled(filled) == if filled.received == filled.total then CLEARED else filled
  {
    hide TextOf;
    OnlyOne(Completed(filled));
    NothingLogged();
  }

  lemma {:induction false} FindSays(slots: seq<Slot>, sms: Sms, nowUs: int) returns (choice: Choice, robbed: seq<Bytes>)
    requires Inv(slots) && sms.IsPart()
    ensures var r := FindStep(slots, sms.KeyOf(), nowUs);
            && IsChoice(slots, sms, nowUs, r.index, choice)
            && r.slots == slots[r.index := r.slots[r.index]]
            && (choice.Held? ==> r.slots[r.index] == slots[r.index])
            && (!choice.Held? ==> r.slots[r.index] == Opened(sms.KeyOf(), nowUs))
            && (choice.Robbed? ==> Shows(slots[r.index].parts, slots[r.index].total, robbed))
            && AllEmissions(r.events) == (if choice.Robbed? then [Emission(slots[r.index].sender, Join(robbed), slots[r.index].timestamp)] else [])
            && AllNotices(r.events) == (if choice.Robbed? then [Notice(SlotEvicted, slots[r.index].reference, 0, slots[r.index].received, slots[r.index].total)] else [])
  {
    hide AllEmissions, AllNotices, TextOf, Shows, Fits;
    NothingLogged();
    var k := FindStep(slots, sms.KeyOf(), nowUs).index;
    OnlyOne(Reclaimed(slots[k]));
    OnlyOne(Evicted(slots[k]));
    robbed := [];
    if SameMessage(slots[k], sms) {
      choice := Held;
    } else if Stale(slots[k], nowUs) {
      choice := Reused;
    } else {
      choice := Robbed;
      IncompleteIsNotEmpty(slots[k]);
      robbed := TextShows(slots[k]);
    }
  }

  lemma {:induction false} OfferSays(before: Slot, slot: Slot, choice: Choice, sms: Sms, nowUs: int)
    requires sms.IsPart() && |before.parts| == 10
    requires slot == if choice.Held? then before else Opened(sms.KeyOf(), nowUs)
    requires choice.Held? ==> SameMessage(before, sms)
    ensures IsFilled(before, choice, sms, nowUs, Offer(slot, sms, nowUs))
  {
    assert NO_PARTS == seq(10, _ => Missing);
  }

  lemma {:induction false} StoreSays(before: Slot, slot: Slot, choice: Choice, sms: Sms, nowUs: int)
    requires sms.IsPart() && |before.parts| == 10
    requires slot == if choice.Held? then before else Opened(sms.KeyOf(), nowUs)
    ensures AllNotices(StoreEvents(slot, sms)) ==
            if IsNew(before, choice, sms)
            then [Notice(PartReceived, sms.reference, sms.part, Offer(slot, sms, nowUs).received, sms.total)] else []
  {
    OnlyOne(Stored(sms, slot.received + 1));
    NothingLogged();
  }

  // ----- expire -----

  // The numbers of the slots among the first n that time out, rising.
  predicate AreDue(slots: seq<Slot>, nowUs: int, n: nat, due: seq<int>)
    requires n <= |slots|
  {
    && (forall i, j :: 0 <= i < j < |due| ==> due[i] < due[j])
    && (forall i :: 0 <= i < |due| ==> 0 <= due[i] < n)
    && (forall k :: 0 <= k < n ==> (k in due <==> slots[k].active && nowUs - slots[k].lastUs > 30_000_000))
  }

  // Each of them is given up, in this order; the others stay.
  lemma {:induction false} ExpireSays(slots: seq<Slot>, nowUs: int) returns (due: seq<int>)
    requires Inv(slots)
    ensures |slots| == 5 && AreDue(slots, nowUs, 5, due)
    ensures var r := ExpireStep(slots, nowUs);
            && |r.slots| == 5 && (forall k :: 0 <= k < 5 ==> r.slots[k] == if k in due then CLEARED else slots[k])
            && AreExpired(slots, due, r.events)
  {
    hide SlotOk, KeysDiffer, AreExpired;
    due := FirstSay(slots, nowUs, 5);
  }

  lemma {:induction false} FirstSay(slots: seq<Slot>, nowUs: int, n: nat) returns (due: seq<int>)
    requires WellSized(slots) && n <= 5
    ensures AreDue(slots, nowUs, n, due) && AreExpired(slots, due, ExpireFirst(slots, nowUs, n).events)
  {
    hide AreDue, AreExpired, Due;
    if n == 0 {
      due := [];
      NoneDue(slots, nowUs);
    } else {
      due := FirstSay(slots, nowUs, n - 1);
      OneMoreDue(slots, nowUs, n, due);
      OneMoreExpired(slots, due, n - 1, ExpireFirst(slots, nowUs, n - 1).events);
      if Due(slots[n - 1], nowUs) { due := due + [n - 1]; }
    }
  }

  predicate AreExpired(slots: seq<Slot>, due: seq<int>, events: seq<Event>) {
    && |events| == |due|
    && forall i :: 0 <= i < |due| ==> 0 <= due[i] < |slots| && events[i] == Expired(slots[due[i]])
  }

  lemma {:induction false} OneMoreExpired(slots: seq<Slot>, due: seq<int>, k: nat, events: seq<Event>)
    requires k < |slots| && AreExpired(slots, due, events)
    ensures AreExpired(slots, due + [k], events + [Expired(slots[k])])
  {
  }

  lemma {:induction false} NoneDue(slots: seq<Slot>, nowUs: int)
    ensures AreDue(slots, nowUs, 0, []) && AreExpired(slots, [], [])
  {
  }

  lemma {:induction false} OneMoreDue(slots: seq<Slot>, nowUs: int, n: nat, due: seq<int>)
    requires 0 < n <= |slots| && AreDue(slots, nowUs, n - 1, due)
    ensures AreDue(slots, nowUs, n, if Due(slots[n - 1], nowUs) then due + [n - 1] else due)
  {
    var after := due + [n - 1];
    assert n - 1 !in due && after[|due|] == n - 1;
    assert forall k :: k in due ==> k in after;
  }
}
