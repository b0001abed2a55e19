// The reassembly of long messages: ConcatAssembler of core/src/pdu.cpp.
//
// The steps as functions on the sequence of slots. Assembler.dfy holds the class that updates its
// slots in place, proved equal to FeedStep and ExpireStep; ConcatRuns.dfy and ConcatOrder.dfy prove
// what every run of these steps does.
module Concat {
  import opened Text

  const SLOTS := 5
  const PARTS := 10
  const TIMEOUT_US := 30_000_000

  datatype Part = Missing | Present(text: Bytes)

  // What identifies a long message while its parts arrive.
  datatype Key = Key(reference: int, sender: Bytes, total: int)

  datatype Sms = Sms(sender: Bytes, text: Bytes, timestamp: Bytes, reference: int, part: int, total: int) {
    function KeyOf(): Key {
      Key(reference, sender, total)
    }

    predicate IsMultiPart() {
      total > 1 && part > 0
    }

    predicate IsOversized() {
      total > PARTS || part > total
    }

    // A part that goes into a slot.
    predicate IsPart() {
      IsMultiPart() && !IsOversized()
    }
  }

  datatype Slot = Slot(active: bool, reference: int, total: int, received: int, sender: Bytes,
                       timestamp: Bytes, lastUs: int, parts: seq<Part>) {
    function KeyOf(): Key {
      Key(reference, sender, total)
    }

    predicate Holds(key: Key) {
      active && KeyOf() == key
    }

    predicate Reusable(nowUs: int) {
      !active || nowUs - lastUs > TIMEOUT_US
    }
  }

  datatype Emission = Emission(sender: Bytes, text: Bytes, timestamp: Bytes)

  datatype NoticeKind = PartReceived | InvalidPart | SlotEvicted | TimedOut
  datatype Notice = Notice(kind: NoticeKind, reference: int, part: int, received: int, total: int)

  // What one step did. Reclaimed is the one that the source reports to nobody.
  datatype Event =
    | Passed(sms: Sms)
    | Rejected(sms: Sms)
    | Stored(sms: Sms, received: int)
    | Completed(slot: Slot)
    | Evicted(slot: Slot)
    | Expired(slot: Slot)
    | Reclaimed(slot: Slot)

  const NO_PARTS: seq<Part> := [Missing, Missing, Missing, Missing, Missing, Missing, Missing, Missing, Missing, Missing]
  const CLEARED := Slot(false, 0, 0, 0, "", "", 0, NO_PARTS)

  const EMPTY: seq<Slot> := [CLEARED, CLEARED, CLEARED, CLEARED, CLEARED]

  function Opened(key: Key, nowUs: int): Slot {
    CLEARED.(active := true, reference := key.reference, total := key.total, sender := key.sender, lastUs := nowUs)
  }

  // ----- assemble -----

  // "[", the UTF-8 bytes of the four characters for "missing part", the part number, "]".
  function GapMarker(number: nat): Bytes {
    "[\U{E7}\U{BC}\U{BA}\U{E5}\U{A4}\U{B1}\U{E5}\U{88}\U{86}\U{E6}\U{AE}\U{B5}" + Decimal(number) + "]"
  }

  function Piece(part: Part, index: nat): Bytes {
    match part
    case Present(text) => text
    case Missing => GapMarker(index + 1)
  }

  function Pieces(parts: seq<Part>): (r: seq<Bytes>)
    ensures |r| == |parts| && forall i :: 0 <= i < |r| ==> r[i] == Piece(parts[i], i)
  {
    if parts == [] then []
    else Pieces(parts[..|parts| - 1]) + [Piece(parts[|parts| - 1], |parts| - 1)]
  }

  function Width(slot: Slot): (n: nat)
    ensures n <= PARTS
  {
    if slot.total < 0 then 0 else if slot.total < PARTS then slot.total else PARTS
  }

  function Assemble(slot: Slot): Bytes
    requires |slot.parts| == PARTS
  {
    Join(Pieces(slot.parts[..Width(slot)]))
  }

  // An opening bracket and the four characters for "missing part" in UTF-8.
  const GAP: seq<int> := [0x5B, 0xE7, 0xBC, 0xBA, 0xE5, 0xA4, 0xB1, 0xE5, 0x88, 0x86, 0xE6, 0xAE, 0xB5]

  // The bytes that stand for the missing part with this number: GAP, the number, a closing bracket.
  predicate IsGap(piece: Bytes, number: int)
    requires 1 <= number <= 10
  {
    var codes := GAP + (if number < 10 then [0x30 + number] else [0x31, 0x30]) + [0x5D];
    |piece| == |codes| && forall i :: 0 <= i < |codes| ==> piece[i] as int == codes[i]
  }

  // One piece for each of the first `total` parts: its text if it came, a gap with its number otherwise.
  predicate Shows(parts: seq<Part>, total: int, pieces: seq<Bytes>) {
    && 0 <= total == |pieces| <= |parts| == 10
    && forall i :: 0 <= i < total ==>
         match parts[i]
         case Present(text) => pieces[i] == text
         case Missing => IsGap(pieces[i], i + 1)
  }

  lemma {:induction false} MarkerIsGap(number: nat)
    requires 1 <= number <= 10
    ensures IsGap(GapMarker(number), number)
  {
    if number == 10 {
      assert Decimal(10) == Decimal(1) + [DigitChar(0)];
      assert Decimal(10) == "10";
    } else {
      assert Decimal(number) == [DigitChar(number)];
    }
  }

  // The text of a slot: one piece for each part, up to the ten places.
  ghost predicate Tells(slot: Slot, text: Bytes) {
    exists pieces :: text == Join(pieces) && Shows(slot.parts, |pieces|, pieces)
                     && |pieces| == if slot.total < 0 then 0 else if slot.total < 10 then slot.total else 10
  }

  lemma {:induction false} AssembleShows(slot: Slot) returns (pieces: seq<Bytes>)
    requires |slot.parts| == 10
    ensures Assemble(slot) == Join(pieces) && Shows(slot.parts, |pieces|, pieces)
    ensures |pieces| == if slot.total < 0 then 0 else if slot.total < 10 then slot.total else 10
  {
    hide GapMarker, IsGap;
    pieces := Pieces(slot.parts[..Width(slot)]);
    forall i | 0 <= i < |pieces| && slot.parts[i].Missing? ensures IsGap(pieces[i], i + 1) {
      MarkerIsGap(i + 1);
    }
  }

  // ----- events seen from outside -----

  function Emissions(event: Event): seq<Emission> {
    match event
    case Passed(sms) => [Emission(sms.sender, sms.text, sms.timestamp)]
    case Rejected(sms) => [Emission(sms.sender, sms.text, sms.timestamp)]
    case Stored(_, _) => []
    case Completed(slot) => [EmissionOf(slot)]
    case Evicted(slot) => if TextOf(slot) == "" then [] else [EmissionOf(slot)]
    case Expired(slot) => if TextOf(slot) == "" then [] else [EmissionOf(slot)]
    case Reclaimed(_) => []
  }

  function TextOf(slot: Slot): Bytes {
    if |slot.parts| == PARTS then Assemble(slot) else ""
  }

  function EmissionOf(slot: Slot): Emission {
    Emission(slot.sender, TextOf(slot), slot.timestamp)
  }

  function Notices(event: Event): seq<Notice> {
    match event
    case Passed(_) => []
    case Rejected(sms) => [Notice(InvalidPart, sms.reference, sms.part, 1, sms.total)]
    case Stored(sms, received) => [Notice(PartReceived, sms.reference, sms.part, received, sms.total)]
    case Completed(_) => []
    case Evicted(slot) =>
      if TextOf(slot) == "" then [] else [Notice(SlotEvicted, slot.reference, 0, slot.received, slot.total)]
    case Expired(slot) =>
      if TextOf(slot) == "" then [] else [Notice(TimedOut, slot.reference, 0, slot.received, slot.total)]
    case Reclaimed(_) => []
  }

  function AllEmissions(events: seq<Event>): seq<Emission> {
    if events == [] then [] else Emissions(events[0]) + AllEmissions(events[1..])
  }

  function AllNotices(events: seq<Event>): seq<Notice> {
    if events == [] then [] else Notices(events[0]) + AllNotices(events[1..])
  }

  lemma {:induction false} EmissionsAppend(a: seq<Event>, b: seq<Event>)
    ensures AllEmissions(a + b) == AllEmissions(a) + AllEmissions(b)
  {
    if a == [] {
      assert a + b == b;
    } else {
      assert (a + b)[1..] == a[1..] + b;
      EmissionsAppend(a[1..], b);
    }
  }

  lemma {:induction false} NoticesAppend(a: seq<Event>, b: seq<Event>)
    ensures AllNotices(a + b) == AllNotices(a) + AllNotices(b)
  {
    if a == [] {
      assert a + b == b;
    } else {
      assert (a + b)[1..] == a[1..] + b;
      NoticesAppend(a[1..], b);
    }
  }

  lemma {:induction false} OnlyOne(event: Event)
    ensures AllEmissions([event]) == Emissions(event)
    ensures AllNotices([event]) == Notices(event)
  {
    assert [event][1..] == [];
  }

  lemma NothingLogged()
    ensures AllEmissions([]) == [] && AllNotices([]) == []
  {
  }

  // The log of the callbacks after one more event.
  lemma {:induction false} OneMore(events: seq<Event>, event: Event)
    ensures AllEmissions(events + [event]) == AllEmissions(events) + Emissions(event)
    ensures AllNotices(events + [event]) == AllNotices(events) + Notices(event)
  {
    EmissionsAppend(events, [event]);
    NoticesAppend(events, [event]);
    OnlyOne(event);
  }

  // Finding a slot, storing and settling write to the two logs one after the other.
  lemma {:induction false} LogOf(found: seq<Event>, stored: seq<Event>, settled: seq<Event>)
    ensures AllEmissions(found + stored + settled) == AllEmissions(found) + AllEmissions(stored) + AllEmissions(settled)
    ensures AllNotices(found + stored + settled) == AllNotices(found) + AllNotices(stored) + AllNotices(settled)
  {
    EmissionsAppend(found + stored, settled);
    EmissionsAppend(found, stored);
    NoticesAppend(found + stored, settled);
    NoticesAppend(found, stored);
  }

  // ----- find_slot -----

  // The first slot that holds the key, or the number of slots.
  function FirstHolding(slots: seq<Slot>, key: Key): (k: nat)
    ensures k <= |slots|
    ensures forall j :: 0 <= j < k ==> !slots[j].Holds(key)
    ensures k < |slots| ==> slots[k].Holds(key)
  {
    if slots == [] then 0 else if slots[0].Holds(key) then 0 else 1 + FirstHolding(slots[1..], key)
  }

  // The first slot that is free or timed out, or the number of slots.
  function FirstReusable(slots: seq<Slot>, nowUs: int): (k: nat)
    ensures k <= |slots|
    ensures forall j :: 0 <= j < k ==> !slots[j].Reusable(nowUs)
    ensures k < |slots| ==> slots[k].Reusable(nowUs)
  {
    if slots == [] then 0 else if slots[0].Reusable(nowUs) then 0 else 1 + FirstReusable(slots[1..], nowUs)
  }

  // std::min_element by lastUs: the first of the least.
  predicate IsOldest(slots: seq<Slot>, k: nat) {
    && k < |slots|
    && (forall j :: 0 <= j < |slots| ==> slots[k].lastUs <= slots[j].lastUs)
    && (forall j :: 0 <= j < k ==> slots[k].lastUs < slots[j].lastUs)
  }

  function Oldest(slots: seq<Slot>): (k: nat)
    requires slots != []
    ensures IsOldest(slots, k)
  {
    if |slots| == 1 then 0
    else
      var k := Oldest(slots[..|slots| - 1]);
      if slots[|slots| - 1].lastUs < slots[k].lastUs then |slots| - 1 else k
  }

  datatype Found = Found(index: nat, slots: seq<Slot>, events: seq<Event>)

  function FindStep(slots: seq<Slot>, key: Key, nowUs: int): (r: Found)
    requires slots != []
    ensures |r.slots| == |slots| && r.index < |slots|
  {
    var m := FirstHolding(slots, key);
    if m < |slots| then Found(m, slots, [])
    else
      var f := FirstReusable(slots, nowUs);
      if f < |slots| then
        Found(f, slots[f := Opened(key, nowUs)], if slots[f].active then [Reclaimed(slots[f])] else [])
      else
        var o := Oldest(slots);
        Found(o, slots[o := Opened(key, nowUs)], [Evicted(slots[o])])
  }

  // ----- feed -----

  // The slot after the part is offered to it, before the look at completion.
  function Offer(slot: Slot, sms: Sms, nowUs: int): Slot
    requires sms.IsPart() && |slot.parts| == PARTS
  {
    if slot.parts[sms.part - 1].Missing? then
      slot.(parts := slot.parts[sms.part - 1 := Present(sms.text)],
            received := slot.received + 1,
            lastUs := nowUs,
            timestamp := if slot.timestamp == "" then sms.timestamp else slot.timestamp)
    else slot
  }

  // A completed slot is cleared at once.
  function Settled(slot: Slot): Slot {
    if slot.received >= slot.total then CLEARED else slot
  }

  function StoreEvents(slot: Slot, sms: Sms): seq<Event>
    requires sms.IsPart() && |slot.parts| == PARTS
  {
    if slot.parts[sms.part - 1].Missing? then [Stored(sms, slot.received + 1)] else []
  }

  function SettleEvents(slot: Slot): seq<Event> {
    if slot.received >= slot.total then [Completed(slot)] else []
  }

  lemma {:induction false} SilentStore(slot: Slot, sms: Sms)
    requires sms.IsPart() && |slot.parts| == PARTS
    ensures AllEmissions(StoreEvents(slot, sms)) == []
    ensures forall after :: AllNotices(SettleEvents(after)) == []
  {
    OnlyOne(Stored(sms, slot.received + 1));
    forall after ensures AllNotices(SettleEvents(after)) == [] {
      OnlyOne(Completed(after));
    }
  }

  datatype Outcome = Outcome(slots: seq<Slot>, events: seq<Event>)

  predicate WellSized(slots: seq<Slot>) {
    |slots| == SLOTS && forall i :: 0 <= i < SLOTS ==> |slots[i].parts| == PARTS
  }

  function FeedStep(slots: seq<Slot>, sms: Sms, nowUs: int): (r: Outcome)
    requires WellSized(slots)
    ensures WellSized(r.slots)
  {
    if !sms.IsMultiPart() then Outcome(slots, [Passed(sms)])
    else if sms.IsOversized() then Outcome(slots, [Rejected(sms)])
    else
      var found := FindStep(slots, sms.KeyOf(), nowUs);
      var slot := found.slots[found.index];
      Outcome(found.slots[found.index := Settled(Offer(slot, sms, nowUs))],
              found.events + StoreEvents(slot, sms) + SettleEvents(Offer(slot, sms, nowUs)))
  }

  // What feeding a part writes to the two logs: first what finding the slot wrote, then at most one
  // notice for the part, then at most one emission for the whole message.
  lemma {:induction false} FeedLog(slots: seq<Slot>, sms: Sms, nowUs: int)
    requires WellSized(slots) && sms.IsPart()
    ensures var found := FindStep(slots, sms.KeyOf(), nowUs);
            var slot := found.slots[found.index];
            var after := Offer(slot, sms, nowUs);
            var r := FeedStep(slots, sms, nowUs);
            && r.slots == found.slots[found.index := Settled(after)]
            && AllEmissions(r.events) == AllEmissions(found.events) + AllEmissions(SettleEvents(after))
            && AllNotices(r.events) == AllNotices(found.events) + AllNotices(StoreEvents(slot, sms))
  {
    var found := FindStep(slots, sms.KeyOf(), nowUs);
    var slot := found.slots[found.index];
    var stored, settled := StoreEvents(slot, sms), SettleEvents(Offer(slot, sms, nowUs));
    LogOf(found.events, stored, settled);
    SilentStore(slot, sms);
  }

  // ----- expire -----

  predicate Due(slot: Slot, nowUs: int) {
    slot.active && nowUs - slot.lastUs > TIMEOUT_US
  }

  function ExpireFirst(slots: seq<Slot>, nowUs: int, n: nat): (r: Outcome)
    requires WellSized(slots) && n <= SLOTS
    ensures WellSized(r.slots)
    ensures forall i :: n <= i < SLOTS ==> r.slots[i] == slots[i]
    ensures forall i :: 0 <= i < n ==> r.slots[i] == if Due(slots[i], nowUs) then CLEARED else slots[i]
  {
    if n == 0 then Outcome(slots, [])
    else
      var r := ExpireFirst(slots, nowUs, n - 1);
      if Due(slots[n - 1], nowUs)
      then Outcome(r.slots[n - 1 := CLEARED], r.events + [Expired(slots[n - 1])])
      else r
  }

  function ExpireStep(slots: seq<Slot>, nowUs: int): (r: Outcome)
    requires WellSized(slots)
    ensures WellSized(r.slots)
  {
    ExpireFirst(slots, nowUs, SLOTS)
  }
}
