// What a message that is handed out says, read off the log of inputs: which parts came, and in the
// place of which a gap is marked (core/src/pdu.cpp:174-188, core/src/pdu.cpp:214-299).
module ConcatTexts {
  import opened Text
  import opened Concat
  import opened ConcatRuns
  import opened ConcatOrder
  import opened ConcatDelivery

  // ----- the text of a slot -----

  lemma {:induction false} TextShows(slot: Slot) returns (pieces: seq<Bytes>)
    requires Fits(slot)
    ensures TextOf(slot) == Join(pieces) && Shows(slot.parts, slot.total, pieces)
  {
    hide Assemble;
    pieces := AssembleShows(slot);
  }

  // ----- the inputs behind a slot -----

  // The time of the last input that brought a part of the key which had not come before.
  function LastNewUs(key: Key, inputs: seq<Input>): int {
    if inputs == [] then 0
    else
      var n := |inputs| - 1;
      match inputs[n]
      case Feed(sms, nowUs) =>
        if sms.IsPart() && sms.KeyOf() == key && Pick(key, sms.part - 1, Fed(inputs[..n])).Missing?
        then nowUs else LastNewUs(key, inputs[..n])
      case Expire(_) => LastNewUs(key, inputs[..n])
  }

  // The slot was begun by input number s, and since then the first copies of its parts came.
  predicate Since(slot: Slot, inputs: seq<Input>, s: int) {
    && 0 <= s < |inputs| && inputs[s].Feed? && inputs[s].sms.IsPart() && inputs[s].sms.KeyOf() == slot.KeyOf()
    && slot.parts == Picks(slot.KeyOf(), Fed(inputs[s..]))
    && slot.timestamp == Stamp(slot.KeyOf(), Fed(inputs[s..]))
    && slot.lastUs == LastNewUs(slot.KeyOf(), inputs[s..])
  }

  predicate HasHistory(slot: Slot, inputs: seq<Input>) {
    exists s :: 0 <= s < |inputs| && Since(slot, inputs, s)
  }

  // So it was at some point of the run.
  predicate HadHistory(slot: Slot, inputs: seq<Input>) {
    exists n :: 0 <= n <= |inputs| && HasHistory(slot, inputs[..n])
  }

  predicate CarriesSlot(e: Event) {
    e.Completed? || e.Evicted? || e.Expired? || e.Reclaimed?
  }

  lemma {:induction false} OneMoreFed(inputs: seq<Input>, x: Input)
    ensures Fed(inputs + [x]) == if x.Feed? then Fed(inputs) + [x.sms] else Fed(inputs)
  {
    assert (inputs + [x])[..|inputs|] == inputs;
  }

  lemma {:induction false} OneMoreSince(inputs: seq<Input>, x: Input, s: nat)
    requires s <= |inputs|
    ensures (inputs + [x])[s..] == inputs[s..] + [x] && (inputs[s..] + [x])[..|inputs[s..]|] == inputs[s..]
  {
  }

  // What is no part of the key leaves the history as it is.
  lemma {:induction false} OtherInput(slot: Slot, inputs: seq<Input>, x: Input, s: nat)
    requires Since(slot, inputs, s)
    requires x.Feed? ==> !x.sms.IsPart() || x.sms.KeyOf() != slot.KeyOf()
    ensures Since(slot, inputs + [x], s)
  {
    hide Picks, Pick;
    OneMoreSince(inputs, x, s);
    OneMoreFed(inputs[s..], x);
    if x.Feed? {
      PicksOne(slot.KeyOf(), Fed(inputs[s..]), x.sms);
      StampOne(slot.KeyOf(), Fed(inputs[s..]), x.sms);
    }
  }

  lemma {:induction false} StampOne(key: Key, messages: seq<Sms>, sms: Sms)
    ensures Stamp(key, messages + [sms]) ==
            if Stamp(key, messages) == "" && sms.IsPart() && sms.KeyOf() == key && Pick(key, sms.part - 1, messages).Missing?
            then sms.timestamp else Stamp(key, messages)
  {
    assert (messages + [sms])[..|messages|] == messages;
  }

  lemma {:induction false} OfferedInput(slot: Slot, inputs: seq<Input>, sms: Sms, nowUs: int, s: nat)
    requires Since(slot, inputs, s) && sms.IsPart() && sms.KeyOf() == slot.KeyOf()
    ensures Since(Offer(slot, sms, nowUs), inputs + [Feed(sms, nowUs)], s)
  {
    hide Pick;
    var x := Feed(sms, nowUs);
    OneMoreSince(inputs, x, s);
    OneMoreFed(inputs[s..], x);
    PicksOne(slot.KeyOf(), Fed(inputs[s..]), sms);
    StampOne(slot.KeyOf(), Fed(inputs[s..]), sms);
  }

  lemma {:induction false} OpenedInput(inputs: seq<Input>, sms: Sms, nowUs: int)
    requires sms.IsPart()
    ensures Since(Offer(Opened(sms.KeyOf(), nowUs), sms, nowUs), inputs + [Feed(sms, nowUs)], |inputs|)
  {
    var x := Feed(sms, nowUs);
    OneMoreSince(inputs, x, |inputs|);
    assert inputs[|inputs|..] == [];
    OneMoreFed([], x);
    PicksOne(sms.KeyOf(), [], sms);
    StampOne(sms.KeyOf(), [], sms);
    NothingPicked(sms.KeyOf());
  }

  predicate AllHaveHistory(slots: seq<Slot>, inputs: seq<Input>) {
    forall i :: 0 <= i < |slots| && slots[i].active ==> HasHistory(slots[i], inputs)
  }

  predicate AllHadHistory(events: seq<Event>, inputs: seq<Input>) {
    forall e :: e in events && CarriesSlot(e) ==> HadHistory(e.slot, inputs)
  }

  // The slot into which the last input was put, before it is settled.
  lemma {:induction false} OfferHistory(slots: seq<Slot>, inputs: seq<Input>, sms: Sms, nowUs: int)
    requires Inv(slots) && AllHaveHistory(slots, inputs) && sms.IsPart()
    ensures var found := FindStep(slots, sms.KeyOf(), nowUs);
            HasHistory(Offer(found.slots[found.index], sms, nowUs), inputs + [Feed(sms, nowUs)])
  {
    hide Since, FirstReusable, Oldest, SlotOk, KeysDiffer, Offer;
    var found := FindStep(slots, sms.KeyOf(), nowUs);
    var m := FirstHolding(slots, sms.KeyOf());
    if m < |slots| {
      var s :| 0 <= s < |inputs| && Since(slots[m], inputs, s);
      OfferedInput(slots[m], inputs, sms, nowUs, s);
    } else {
      OpenedInput(inputs, sms, nowUs);
    }
  }

  lemma {:induction false} OthersKeepHistory(slot: Slot, inputs: seq<Input>, x: Input)
    requires HasHistory(slot, inputs)
    requires x.Feed? ==> !x.sms.IsPart() || x.sms.KeyOf() != slot.KeyOf()
    ensures HasHistory(slot, inputs + [x])
  {
    hide Since;
    var s :| 0 <= s < |inputs| && Since(slot, inputs, s);
    OtherInput(slot, inputs, x, s);
  }

  lemma {:induction false} FeedHistory(slots: seq<Slot>, inputs: seq<Input>, sms: Sms, nowUs: int)
    requires Inv(slots) && AllHaveHistory(slots, inputs)
    ensures AllHaveHistory(FeedStep(slots, sms, nowUs).slots, inputs + [Feed(sms, nowUs)])
  {
    hide HasHistory, FindStep, SlotOk, Offer, Fits;
    var r, x := FeedStep(slots, sms, nowUs), Feed(sms, nowUs);
    if sms.IsPart() {
      FindKeeps(slots, sms.KeyOf(), nowUs);
      OfferHistory(slots, inputs, sms, nowUs);
      var found := FindStep(slots, sms.KeyOf(), nowUs);
      forall i | 0 <= i < |r.slots| && r.slots[i].active ensures HasHistory(r.slots[i], inputs + [x]) {
        if i != found.index {
          assert slots[i].KeyOf() != sms.KeyOf();
          OthersKeepHistory(slots[i], inputs, x);
        }
      }
    } else {
      forall i | 0 <= i < |slots| && slots[i].active ensures HasHistory(slots[i], inputs + [x]) {
        OthersKeepHistory(slots[i], inputs, x);
      }
    }
  }

  lemma {:induction false} ExpireHistory(slots: seq<Slot>, inputs: seq<Input>, nowUs: int)
    requires WellSized(slots) && AllHaveHistory(slots, inputs)
    ensures AllHaveHistory(ExpireStep(slots, nowUs).slots, inputs + [Expire(nowUs)])
  {
    hide HasHistory;
    var r := ExpireStep(slots, nowUs);
    forall i | 0 <= i < |r.slots| && r.slots[i].active ensures HasHistory(r.slots[i], inputs + [Expire(nowUs)]) {
      OthersKeepHistory(slots[i], inputs, Expire(nowUs));
    }
  }

  // An event that carries a slot: one that was there before the step, or the one just filled.
  lemma {:induction false} FeedCarries(slots: seq<Slot>, sms: Sms, nowUs: int, e: Event)
    requires Inv(slots) && e in FeedStep(slots, sms, nowUs).events && CarriesSlot(e)
    ensures sms.IsPart()
    ensures var found := FindStep(slots, sms.KeyOf(), nowUs);
            || e.slot == Offer(found.slots[found.index], sms, nowUs)
            || exists i :: 0 <= i < |slots| && slots[i].active && slots[i] == e.slot
  {
    hide Offer, Fits, FirstHolding, Oldest, KeysDiffer;
  }

  lemma {:induction false} ExpireCarries(slots: seq<Slot>, nowUs: int, n: nat, e: Event)
    requires WellSized(slots) && n <= SLOTS && e in ExpireFirst(slots, nowUs, n).events
    ensures e.Expired? && exists i :: 0 <= i < |slots| && slots[i].active && slots[i] == e.slot
  {
    if n > 0 && e in ExpireFirst(slots, nowUs, n - 1).events {
      ExpireCarries(slots, nowUs, n - 1, e);
    }
  }

  lemma {:induction false} Had(slot: Slot, inputs: seq<Input>, n: nat)
    requires n <= |inputs| && HasHistory(slot, inputs[..n])
    ensures HadHistory(slot, inputs)
  {
  }

  lemma {:induction false} HadBefore(events: seq<Event>, inputs: seq<Input>)
    requires inputs != [] && AllHadHistory(events, inputs[..|inputs| - 1])
    ensures AllHadHistory(events, inputs)
  {
    hide HasHistory;
    forall e | e in events && CarriesSlot(e) ensures HadHistory(e.slot, inputs) {
      var n :| 0 <= n <= |inputs| - 1 && HasHistory(e.slot, inputs[..|inputs| - 1][..n]);
      assert inputs[..|inputs| - 1][..n] == inputs[..n];
      Had(e.slot, inputs, n);
    }
  }

  lemma {:induction false} StepHad(slots: seq<Slot>, inputs: seq<Input>, x: Input)
    requires Inv(slots) && AllHaveHistory(slots, inputs)
    ensures AllHadHistory(Step(slots, x).events, inputs + [x])
  {
    hide HasHistory, HadHistory, Step, SlotOk, KeysDiffer;
    var after := inputs + [x];
    assert after[..|inputs|] == inputs && after[..|after|] == after;
    forall e | e in Step(slots, x).events && CarriesSlot(e) ensures HadHistory(e.slot, after) {
      EventHad(slots, inputs, x, e);
      if HasHistory(e.slot, inputs) { Had(e.slot, after, |inputs|); } else { Had(e.slot, after, |after|); }
    }
  }

  lemma {:induction false} EventHad(slots: seq<Slot>, inputs: seq<Input>, x: Input, e: Event)
    requires Inv(slots) && AllHaveHistory(slots, inputs) && e in Step(slots, x).events && CarriesSlot(e)
    ensures HasHistory(e.slot, inputs) || HasHistory(e.slot, inputs + [x])
  {
    hide HasHistory, Inv, FindStep, Offer, FeedStep;
    match x
    case Feed(sms, nowUs) =>
      FeedCarries(slots, sms, nowUs, e);
      OfferHistory(slots, inputs, sms, nowUs);
    case Expire(nowUs) =>
      SizedRun(slots);
      ExpireCarries(slots, nowUs, SLOTS, e);
  }

  lemma {:induction false} SizedRun(slots: seq<Slot>)
    requires Inv(slots)
    ensures WellSized(slots)
  {
  }

  // Over every run: what a slot holds, and what an event hands out or drops, are the first copies of
  // the parts that came since some input began it, with the first timestamp among them that is not
  // empty and the time of the last part that was new.
  lemma {:induction false} RunHasHistory(inputs: seq<Input>)
    ensures AllHaveHistory(Run(inputs).slots, inputs) && AllHadHistory(Run(inputs).events, inputs)
  {
    hide HasHistory, HadHistory, Step, CarriesSlot;
    if inputs != [] {
      var n := |inputs| - 1;
      var prefix, x := inputs[..n], inputs[n];
      assert inputs == prefix + [x];
      RunHasHistory(prefix);
      RunKeepsInvariant(prefix);
      HadBefore(Run(prefix).events, inputs);
      StepHad(Run(prefix).slots, prefix, x);
      StepHistory(Run(prefix).slots, prefix, x);
    }
  }

  lemma {:induction false} StepHistory(slots: seq<Slot>, inputs: seq<Input>, x: Input)
    requires Inv(slots) && AllHaveHistory(slots, inputs)
    ensures AllHaveHistory(Step(slots, x).slots, inputs + [x])
  {
    match x
    case Feed(sms, nowUs) => FeedHistory(slots, inputs, sms, nowUs);
    case Expire(nowUs) => ExpireHistory(slots, inputs, nowUs);
  }

  // ----- what is handed out -----

  // A completed slot has all its parts, any other that is handed out or dropped has some of them.
  predicate SlotFits(e: Event) {
    match e
    case Completed(slot) => Fits(slot) && slot.received == slot.total
    case Evicted(slot) => Fits(slot) && 1 <= slot.received < slot.total
    case Expired(slot) => Fits(slot) && 1 <= slot.received < slot.total
    case Reclaimed(slot) => Fits(slot) && 1 <= slot.received < slot.total
    case _ => true
  }

  lemma {:induction false} FeedFits(slots: seq<Slot>, sms: Sms, nowUs: int, e: Event)
    requires Inv(slots) && e in FeedStep(slots, sms, nowUs).events
    ensures SlotFits(e)
  {
    hide Offer, Fits, KeysDiffer, FirstHolding, Oldest;
    if sms.IsPart() {
      FindKeeps(slots, sms.KeyOf(), nowUs);
      var found := FindStep(slots, sms.KeyOf(), nowUs);
      OfferFits(found.slots[found.index], sms, nowUs);
      SameTotal(found.slots[found.index], sms, nowUs);
    }
  }

  lemma {:induction false} SameTotal(slot: Slot, sms: Sms, nowUs: int)
    requires sms.IsPart() && |slot.parts| == PARTS
    ensures Offer(slot, sms, nowUs).KeyOf() == slot.KeyOf()
  {
  }

  lemma {:induction false} ExpireFits(slots: seq<Slot>, nowUs: int, n: nat, e: Event)
    requires Inv(slots) && n <= SLOTS && e in ExpireFirst(slots, nowUs, n).events
    ensures SlotFits(e)
  {
    if n > 0 && e in ExpireFirst(slots, nowUs, n - 1).events {
      ExpireFits(slots, nowUs, n - 1, e);
    }
  }

  lemma {:induction false} RunFits(inputs: seq<Input>, e: Event)
    requires e in Run(inputs).events
    ensures SlotFits(e)
  {
    hide SlotFits, FeedStep, ExpireStep, Inv;
    if inputs != [] {
      var prefix, x := inputs[..|inputs| - 1], inputs[|inputs| - 1];
      if e in Run(prefix).events {
        RunFits(prefix, e);
      } else {
        RunKeepsInvariant(prefix);
        StepFits(Run(prefix).slots, x, e);
      }
    }
  }

  lemma {:induction false} StepFits(slots: seq<Slot>, x: Input, e: Event)
    requires Inv(slots) && e in Step(slots, x).events
    ensures SlotFits(e)
  {
    hide SlotFits, FeedStep, ExpireFirst, Inv;
    match x
    case Feed(sms, nowUs) => FeedFits(slots, sms, nowUs, e);
    case Expire(nowUs) => ExpireFits(slots, nowUs, SLOTS, e);
  }

  // The places of the parts that came.
  function Came(slot: Slot): set<int> {
    CameOf(slot.parts, |slot.parts|)
  }

  function CameOf(parts: seq<Part>, n: nat): set<int>
    requires n <= |parts|
  {
    set i | 0 <= i < n && parts[i].Present?
  }

  lemma {:induction false} CameNone(parts: seq<Part>)
    ensures CameOf(parts, 0) == {}
  {
  }

  lemma {:induction false} CameLast(parts: seq<Part>, n: nat)
    requires 1 <= n <= |parts|
    ensures |CameOf(parts, n)| == |CameOf(parts, n - 1)| + if parts[n - 1].Present? then 1 else 0
  {
    assert CameOf(parts, n) == CameOf(parts, n - 1) + if parts[n - 1].Present? then {n - 1} else {};
  }

  lemma {:induction false} CameCount(parts: seq<Part>, n: nat)
    requires n <= |parts|
    ensures |CameOf(parts, n)| == Count(parts[..n])
  {
    hide CameOf;
    if n == 0 {
      CameNone(parts);
    } else {
      CameCount(parts, n - 1);
      CountLast(parts[..n]);
      assert parts[..n][..n - 1] == parts[..n - 1];
      CameLast(parts, n);
    }
  }

  lemma {:induction false} CountLast(parts: seq<Part>)
    requires parts != []
    ensures Count(parts) == Count(parts[..|parts| - 1]) + if parts[|parts| - 1].Present? then 1 else 0
  {
    if |parts| > 1 {
      CountLast(parts[1..]);
      assert parts[1..][..|parts| - 2] == parts[..|parts| - 1][1..];
    }
  }

  // In every run, an event that hands out a slot emits one message with its sender and timestamp. The
  // text is one piece for each part, its own text or a gap that names it; a completed message has no
  // gap and is not announced, an incomplete one is announced with the number of its parts that came.
  lemma {:induction false} HandedOut(inputs: seq<Input>, e: Event) returns (pieces: seq<Bytes>)
    requires e in Run(inputs).events && CarriesSlot(e) && !e.Reclaimed?
    ensures HadHistory(e.slot, inputs)
    ensures Shows(e.slot.parts, e.slot.total, pieces)
    ensures Emissions(e) == [Emission(e.slot.sender, Join(pieces), e.slot.timestamp)]
    ensures e.Completed? <==> forall i :: 0 <= i < e.slot.total ==> e.slot.parts[i].Present?
    ensures var came := |Came(e.slot)|;
            Notices(e) == if e.Completed? then []
                          else [Notice(if e.Evicted? then SlotEvicted else TimedOut, e.slot.reference, 0, came, e.slot.total)]
  {
    hide HadHistory, Run, Fits, Shows;
    RunHasHistory(inputs);
    RunFits(inputs, e);
    NoEmitIsSuppressed(inputs);
    pieces := TextShows(e.slot);
    FitsMeans(e.slot);
  }

  lemma {:induction false} FitsMeans(slot: Slot)
    requires Fits(slot)
    ensures slot.received == |Came(slot)| && 0 <= slot.total <= |slot.parts|
    ensures slot.received == slot.total <==> forall i :: 0 <= i < slot.total ==> slot.parts[i].Present?
  {
    CameCount(slot.parts, PARTS);
    assert slot.parts[..PARTS] == slot.parts;
    CountBound(slot.parts, slot.total);
  }
}
