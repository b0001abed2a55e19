// What every run of the assembler keeps: the slot invariant, that no emit is suppressed, and where
// every part goes (core/src/pdu.cpp:174-292).
module ConcatRuns {
  import opened Text
  import opened Concat

  datatype Input = Feed(sms: Sms, nowUs: int) | Expire(nowUs: int)

  function Step(slots: seq<Slot>, input: Input): (r: Outcome)
    requires WellSized(slots)
    ensures WellSized(r.slots)
  {
    match input
    case Feed(sms, nowUs) => FeedStep(slots, sms, nowUs)
    case Expire(nowUs) => ExpireStep(slots, nowUs)
  }

  // The state after a run from a new assembler, with everything that happened on the way.
  function Run(inputs: seq<Input>): (r: Outcome)
    ensures WellSized(r.slots)
  {
    if inputs == [] then Outcome(EMPTY, [])
    else
      var before := Run(inputs[..|inputs| - 1]);
      var step := Step(before.slots, inputs[|inputs| - 1]);
      Outcome(step.slots, before.events + step.events)
  }

  // ----- the invariant -----

  function Count(parts: seq<Part>): nat {
    if parts == [] then 0 else Count(parts[1..]) + if parts[0].Present? then 1 else 0
  }

  predicate Fits(slot: Slot) {
    && |slot.parts| == PARTS
    && 2 <= slot.total <= PARTS
    && slot.received == Count(slot.parts)
    && forall i :: slot.total <= i < PARTS ==> slot.parts[i].Missing?
  }

  // Between steps an active slot has at least one part and lacks at least one.
  predicate SlotOk(slot: Slot) {
    if slot.active then Fits(slot) && 1 <= slot.received < slot.total else slot == CLEARED
  }

  predicate KeysDiffer(slots: seq<Slot>) {
    forall i, j :: 0 <= i < j < |slots| && slots[i].active && slots[j].active ==> slots[i].KeyOf() != slots[j].KeyOf()
  }

  predicate Inv(slots: seq<Slot>) {
    && WellSized(slots)
    && (forall i :: 0 <= i < SLOTS ==> SlotOk(slots[i]))
    && KeysDiffer(slots)
  }

  lemma {:induction false} CountUpdate(parts: seq<Part>, i: nat, text: Bytes)
    requires i < |parts| && parts[i].Missing?
    ensures Count(parts[i := Present(text)]) == Count(parts) + 1
  {
    var after := parts[i := Present(text)];
    if i > 0 {
      CountUpdate(parts[1..], i - 1, text);
      assert after[1..] == parts[1..][i - 1 := Present(text)];
    } else {
      assert after[1..] == parts[1..];
    }
  }

  lemma {:induction false} CountBound(parts: seq<Part>, n: nat)
    requires n <= |parts|
    requires forall i :: n <= i < |parts| ==> parts[i].Missing?
    ensures Count(parts) <= n
    ensures Count(parts) == n <==> forall i :: 0 <= i < n ==> parts[i].Present?
  {
    if parts == [] {
    } else if n == 0 {
      CountBound(parts[1..], 0);
    } else {
      CountBound(parts[1..], n - 1);
      assert forall i :: 1 <= i < n ==> parts[i] == parts[1..][i - 1];
      assert forall i :: 0 <= i < n - 1 ==> parts[1..][i] == parts[i + 1];
    }
  }

  // Offering a part to a slot that fits leaves it fitting, with one part more or unchanged.
  lemma {:induction false} OfferFits(slot: Slot, sms: Sms, nowUs: int)
    requires sms.IsPart() && Fits(slot) && slot.total == sms.total
    ensures Fits(Offer(slot, sms, nowUs))
    ensures Offer(slot, sms, nowUs).received ==
            slot.received + if slot.parts[sms.part - 1].Missing? then 1 else 0
    ensures Offer(slot, sms, nowUs).received <= sms.total
    ensures Offer(slot, sms, nowUs).received >= 1
  {
    var after := Offer(slot, sms, nowUs);
    if slot.parts[sms.part - 1].Missing? {
      CountUpdate(slot.parts, sms.part - 1, sms.text);
    } else {
      CountPositive(slot.parts, sms.part - 1);
    }
    CountBound(after.parts, sms.total);
  }

  lemma {:induction false} CountPositive(parts: seq<Part>, i: nat)
    requires i < |parts| && parts[i].Present?
    ensures Count(parts) >= 1
  {
    if i > 0 { CountPositive(parts[1..], i - 1); }
  }

  lemma {:induction false} OpenedFits(key: Key, nowUs: int)
    requires 2 <= key.total <= PARTS
    ensures Fits(Opened(key, nowUs)) && Opened(key, nowUs).received == 0
    ensures Opened(key, nowUs).Holds(key)
  {
    CountBound(NO_PARTS, 0);
  }

  // The slot that find_slot returns holds the key, and no other slot does.
  lemma {:induction false} FindKeeps(slots: seq<Slot>, key: Key, nowUs: int)
    requires Inv(slots) && 2 <= key.total <= PARTS
    ensures var r := FindStep(slots, key, nowUs);
            && WellSized(r.slots) && KeysDiffer(r.slots)
            && Fits(r.slots[r.index]) && r.slots[r.index].Holds(key)
            && forall j :: 0 <= j < SLOTS && j != r.index ==> r.slots[j] == slots[j]
  {
    OpenedFits(key, nowUs);
  }

  lemma {:induction false} FeedKeeps(slots: seq<Slot>, sms: Sms, nowUs: int)
    requires Inv(slots)
    ensures Inv(FeedStep(slots, sms, nowUs).slots)
  {
    if sms.IsPart() {
      FindKeeps(slots, sms.KeyOf(), nowUs);
      var found := FindStep(slots, sms.KeyOf(), nowUs);
      OfferFits(found.slots[found.index], sms, nowUs);
    }
  }

  lemma {:induction false} ExpireKeeps(slots: seq<Slot>, nowUs: int)
    requires Inv(slots)
    ensures Inv(ExpireStep(slots, nowUs).slots)
  {
  }

  lemma {:induction false} RunKeepsInvariant(inputs: seq<Input>)
    ensures Inv(Run(inputs).slots)
  {
    if inputs != [] {
      RunKeepsInvariant(inputs[..|inputs| - 1]);
      var slots := Run(inputs[..|inputs| - 1]).slots;
      match inputs[|inputs| - 1]
      case Feed(sms, nowUs) => FeedKeeps(slots, sms, nowUs);
      case Expire(nowUs) => ExpireKeeps(slots, nowUs);
    }
  }

  // ----- no emit is suppressed -----

  // A slot that lacks a part assembles to a text with a gap marker in it, so the source's tests for
  // an empty text never hold back a message.
  lemma {:induction false} GapShows(pieces: seq<Bytes>, i: nat)
    requires i < |pieces| && pieces[i] != ""
    ensures Join(pieces) != ""
  {
    if i > 0 { GapShows(pieces[1..], i - 1); }
  }

  lemma {:induction false} IncompleteIsNotEmpty(slot: Slot)
    requires slot.active && SlotOk(slot)
    ensures TextOf(slot) != ""
  {
    var parts := slot.parts[..slot.total];
    CountBound(slot.parts, slot.total);
    var i :| 0 <= i < slot.total && slot.parts[i].Missing?;
    assert Pieces(parts)[i] == GapMarker(i + 1);
    GapShows(Pieces(parts), i);
  }

  predicate Loud(event: Event) {
    event.Stored? || event.Reclaimed? || |Emissions(event)| == 1
  }

  lemma {:induction false} FeedIsLoud(slots: seq<Slot>, sms: Sms, nowUs: int)
    requires Inv(slots)
    ensures forall e :: e in FeedStep(slots, sms, nowUs).events ==> Loud(e)
  {
    hide TextOf, SlotOk, KeysDiffer, FirstHolding, FirstReusable, Oldest;
    forall i | 0 <= i < SLOTS && slots[i].active ensures TextOf(slots[i]) != "" {
      IncompleteIsNotEmpty(slots[i]);
    }
  }

  lemma {:induction false} ExpireIsLoud(slots: seq<Slot>, nowUs: int, n: nat)
    requires Inv(slots) && n <= SLOTS
    ensures forall e :: e in ExpireFirst(slots, nowUs, n).events ==> Loud(e)
  {
    if n > 0 {
      ExpireIsLoud(slots, nowUs, n - 1);
      if slots[n - 1].active { IncompleteIsNotEmpty(slots[n - 1]); }
    }
  }

  // In every run each completed, evicted or timed-out message is handed out exactly once.
  lemma {:induction false} NoEmitIsSuppressed(inputs: seq<Input>)
    ensures forall e :: e in Run(inputs).events ==> Loud(e)
  {
    if inputs != [] {
      var prefix := inputs[..|inputs| - 1];
      NoEmitIsSuppressed(prefix);
      RunKeepsInvariant(prefix);
      match inputs[|inputs| - 1]
      case Feed(sms, nowUs) => FeedIsLoud(Run(prefix).slots, sms, nowUs);
      case Expire(nowUs) => ExpireIsLoud(Run(prefix).slots, nowUs, SLOTS);
    }
  }

  // ----- conservation -----

  // A part as a place in a message and the text stored there. The books below count, for one such
  // record x, how often it was taken in, handed out, lost, and is still held.
  datatype Record = Record(key: Key, index: nat, text: Bytes)

  function In(slot: Slot, x: Record): nat {
    if slot.KeyOf() == x.key && x.index < |slot.parts| && slot.parts[x.index] == Present(x.text) then 1 else 0
  }

  function Held(slots: seq<Slot>, x: Record): nat {
    if slots == [] then 0 else Held(slots[1..], x) + In(slots[0], x)
  }

  function TakenBy(event: Event, x: Record): nat {
    match event
    case Stored(sms, _) => if x.key == sms.KeyOf() && x.index == sms.part - 1 && x.text == sms.text then 1 else 0
    case _ => 0
  }

  function HandedBy(event: Event, x: Record): nat {
    match event
    case Completed(slot) => In(slot, x)
    case Evicted(slot) => In(slot, x)
    case Expired(slot) => In(slot, x)
    case _ => 0
  }

  function LostBy(event: Event, x: Record): nat {
    match event
    case Reclaimed(slot) => In(slot, x)
    case _ => 0
  }

  function Taken(events: seq<Event>, x: Record): nat {
    if events == [] then 0 else Taken(events[1..], x) + TakenBy(events[0], x)
  }

  function Handed(events: seq<Event>, x: Record): nat {
    if events == [] then 0 else Handed(events[1..], x) + HandedBy(events[0], x)
  }

  function Lost(events: seq<Event>, x: Record): nat {
    if events == [] then 0 else Lost(events[1..], x) + LostBy(events[0], x)
  }

  lemma {:induction false} BooksAppend(a: seq<Event>, b: seq<Event>, x: Record)
    ensures Taken(a + b, x) == Taken(a, x) + Taken(b, x)
    ensures Handed(a + b, x) == Handed(a, x) + Handed(b, x)
    ensures Lost(a + b, x) == Lost(a, x) + Lost(b, x)
  {
    if a == [] {
      assert a + b == b;
    } else {
      BooksAppend(a[1..], b, x);
      assert (a + b)[1..] == a[1..] + b;
    }
  }

  lemma {:induction false} BooksOne(e: Event, x: Record)
    ensures Taken([e], x) == TakenBy(e, x) && Handed([e], x) == HandedBy(e, x) && Lost([e], x) == LostBy(e, x)
  {
    assert [e][1..] == [];
  }

  lemma {:induction false} HeldUpdate(slots: seq<Slot>, i: nat, slot: Slot, x: Record)
    requires i < |slots|
    ensures Held(slots[i := slot], x) + In(slots[i], x) == Held(slots, x) + In(slot, x)
  {
    var after := slots[i := slot];
    if i > 0 {
      HeldUpdate(slots[1..], i - 1, slot, x);
      assert after[1..] == slots[1..][i - 1 := slot];
    } else {
      assert after[1..] == slots[1..];
    }
  }

  // One step moves parts between the books and forgets none.
  predicate Balanced(before: seq<Slot>, r: Outcome, x: Record) {
    Held(before, x) + Taken(r.events, x) == Held(r.slots, x) + Handed(r.events, x) + Lost(r.events, x)
  }

  lemma {:induction false} FindBalanced(slots: seq<Slot>, key: Key, nowUs: int, x: Record)
    requires Inv(slots)
    ensures var r := FindStep(slots, key, nowUs);
            Held(slots, x) == Held(r.slots, x) + Handed(r.events, x) + Lost(r.events, x)
            && Taken(r.events, x) == 0
  {
    hide FirstHolding, FirstReusable, Oldest, Held, Taken, Handed, Lost, In, KeysDiffer;
    var k := FindStep(slots, key, nowUs).index;
    HeldUpdate(slots, k, Opened(key, nowUs), x);
    OpenedHoldsNone(slots[k], key, nowUs, x);
    NoBooks(x);
    BooksOne(Reclaimed(slots[k]), x);
    BooksOne(Evicted(slots[k]), x);
  }

  lemma {:induction false} OpenedHoldsNone(slot: Slot, key: Key, nowUs: int, x: Record)
    ensures In(Opened(key, nowUs), x) == 0
    ensures SlotOk(slot) && !slot.active ==> In(slot, x) == 0
  {
  }

  lemma {:induction false} NoBooks(x: Record)
    ensures Taken([], x) == Handed([], x) == Lost([], x) == 0
  {
  }

  lemma {:induction false} OfferBalanced(slot: Slot, sms: Sms, nowUs: int, x: Record)
    requires sms.IsPart() && |slot.parts| == PARTS && slot.KeyOf() == sms.KeyOf()
    ensures var events := StoreEvents(slot, sms);
            In(slot, x) + Taken(events, x) == In(Offer(slot, sms, nowUs), x)
            && Handed(events, x) == 0 && Lost(events, x) == 0
  {
    BooksOne(Stored(sms, slot.received + 1), x);
  }

  lemma {:induction false} SettleBalanced(slot: Slot, x: Record)
    ensures var events := SettleEvents(slot);
            In(slot, x) == In(Settled(slot), x) + Handed(events, x)
            && Taken(events, x) == 0 && Lost(events, x) == 0
  {
    BooksOne(Completed(slot), x);
  }

  lemma {:induction false} FeedBalanced(slots: seq<Slot>, sms: Sms, nowUs: int, x: Record)
    requires Inv(slots)
    ensures Balanced(slots, FeedStep(slots, sms, nowUs), x)
  {
    if !sms.IsPart() {
      BooksOne(Passed(sms), x);
      BooksOne(Rejected(sms), x);
    } else {
      FindKeeps(slots, sms.KeyOf(), nowUs);
      FindBalanced(slots, sms.KeyOf(), nowUs, x);
      var found := FindStep(slots, sms.KeyOf(), nowUs);
      var slot := found.slots[found.index];
      var after := Offer(slot, sms, nowUs);
      OfferBalanced(slot, sms, nowUs, x);
      SettleBalanced(after, x);
      HeldUpdate(found.slots, found.index, Settled(after), x);
      BooksAppend(found.events, StoreEvents(slot, sms), x);
      BooksAppend(found.events + StoreEvents(slot, sms), SettleEvents(after), x);
    }
  }

  lemma {:induction false} ExpireBalanced(slots: seq<Slot>, nowUs: int, n: nat, x: Record)
    requires Inv(slots) && n <= SLOTS
    ensures Balanced(slots, ExpireFirst(slots, nowUs, n), x)
  {
    if n > 0 {
      ExpireBalanced(slots, nowUs, n - 1, x);
      if Due(slots[n - 1], nowUs) {
        ClearBalanced(slots, ExpireFirst(slots, nowUs, n - 1), n - 1, x);
      }
    }
  }

  lemma {:induction false} ClearBalanced(before: seq<Slot>, r: Outcome, i: nat, x: Record)
    requires Balanced(before, r, x) && i < |r.slots|
    ensures Balanced(before, Outcome(r.slots[i := CLEARED], r.events + [Expired(r.slots[i])]), x)
  {
    var slot := r.slots[i];
    HeldUpdate(r.slots, i, CLEARED, x);
    BooksOne(Expired(slot), x);
    BooksAppend(r.events, [Expired(slot)], x);
  }

  // Over every run and for every part: it was taken in as often as it was handed out in a completed,
  // evicted or timed-out message, is still held, or was thrown away with a reclaimed slot.
  lemma {:induction false} Conservation(inputs: seq<Input>, x: Record)
    ensures var r := Run(inputs);
            Taken(r.events, x) == Handed(r.events, x) + Held(r.slots, x) + Lost(r.events, x)
  {
    if inputs == [] {
      HeldNowhere(EMPTY, x);
    } else {
      var prefix, input := inputs[..|inputs| - 1], inputs[|inputs| - 1];
      Conservation(prefix, x);
      RunKeepsInvariant(prefix);
      match input {
        case Feed(sms, nowUs) => FeedBalanced(Run(prefix).slots, sms, nowUs, x);
        case Expire(nowUs) => ExpireBalanced(Run(prefix).slots, nowUs, SLOTS, x);
      }
      BooksAppend(Run(prefix).events, Step(Run(prefix).slots, input).events, x);
    }
  }

  lemma {:induction false} HeldNowhere(slots: seq<Slot>, x: Record)
    requires forall i :: 0 <= i < |slots| ==> slots[i] == CLEARED
    ensures Held(slots, x) == 0
  {
    if slots != [] { HeldNowhere(slots[1..], x); }
  }

  // ----- what is lost, exactly -----

  // Feeding throws a slot away exactly when the message is a part, no slot holds its key, and the
  // first slot that is free or timed out is not free.
  lemma {:induction false} LosesExactlyWhen(slots: seq<Slot>, sms: Sms, nowUs: int)
    requires Inv(slots)
    ensures (exists e :: e in FeedStep(slots, sms, nowUs).events && e.Reclaimed?)
            <==> && sms.IsPart()
                 && (forall i :: 0 <= i < SLOTS ==> !slots[i].Holds(sms.KeyOf()))
                 && (exists k :: 0 <= k < SLOTS && Due(slots[k], nowUs)
                                 && forall j :: 0 <= j < k ==> !slots[j].Reusable(nowUs))
  {
    hide FirstHolding, FirstReusable, KeysDiffer, SlotOk;
    if sms.IsPart() && FirstHolding(slots, sms.KeyOf()) == SLOTS {
      var f := FirstReusable(slots, nowUs);
      if f < SLOTS && slots[f].active {
        assert Due(slots[f], nowUs);
        var e := Reclaimed(slots[f]);
        assert FindStep(slots, sms.KeyOf(), nowUs).events[0] == e;
        assert e in FeedStep(slots, sms, nowUs).events;
      }
    }
  }

  // The run expires at the same time before each feed.
  predicate ExpiresFirst(inputs: seq<Input>) {
    forall i :: 0 <= i < |inputs| && inputs[i].Feed? ==> i > 0 && inputs[i - 1] == Expire(inputs[i].nowUs)
  }

  lemma {:induction false} ExpireLeavesNoneDue(slots: seq<Slot>, nowUs: int)
    requires WellSized(slots)
    ensures forall i :: 0 <= i < SLOTS ==> !Due(ExpireStep(slots, nowUs).slots[i], nowUs)
    ensures forall e :: e in ExpireStep(slots, nowUs).events ==> e.Expired?
  {
    ExpireEvents(slots, nowUs, SLOTS);
  }

  lemma {:induction false} ExpireEvents(slots: seq<Slot>, nowUs: int, n: nat)
    requires WellSized(slots) && n <= SLOTS
    ensures forall e :: e in ExpireFirst(slots, nowUs, n).events ==> e.Expired?
  {
    if n > 0 { ExpireEvents(slots, nowUs, n - 1); }
  }

  // Then nothing is ever lost, so the books of Conservation close without the last term.
  lemma {:induction false} NothingLost(inputs: seq<Input>, x: Record)
    requires ExpiresFirst(inputs)
    ensures var r := Run(inputs);
            Taken(r.events, x) == Handed(r.events, x) + Held(r.slots, x) && Lost(r.events, x) == 0
  {
    NoReclaim(inputs);
    NoLoss(Run(inputs).events, x);
    Conservation(inputs, x);
  }

  lemma {:induction false} NoLoss(events: seq<Event>, x: Record)
    requires forall e :: e in events ==> !e.Reclaimed?
    ensures Lost(events, x) == 0
  {
    if events != [] { NoLoss(events[1..], x); }
  }

  lemma {:induction false} NoReclaim(inputs: seq<Input>)
    requires ExpiresFirst(inputs)
    ensures forall e :: e in Run(inputs).events ==> !e.Reclaimed?
  {
    if inputs != [] {
      var n := |inputs| - 1;
      NoReclaim(inputs[..n]);
      var slots := Run(inputs[..n]).slots;
      RunKeepsInvariant(inputs[..n]);
      match inputs[n] {
        case Expire(nowUs) => ExpireLeavesNoneDue(slots, nowUs);
        case Feed(sms, nowUs) =>
          assert inputs[..n][n - 1] == Expire(nowUs);
          ExpireLeavesNoneDue(Run(inputs[..n][..n - 1]).slots, nowUs);
          LosesExactlyWhen(slots, sms, nowUs);
      }
    }
  }
}
