// The flash copy of the inbox kept by ports/esp-idf/components/idf_inbox/idf_inbox.cpp: one blob for
// each live message, under a key made from its id. Flash is a map that every write reaches.
module Nvs {
  import opened Text
  import opened Store
  import opened Lines
  import opened Blob

  type Flash = map<Bytes, Bytes>

  datatype Device = Device(store: State, flash: Flash)

  const BLOB_LIMIT := 2048

  function Key(id: nat): Bytes {
    "m" + Decimal(id)
  }

  lemma {:induction false} KeyIsInjective(a: nat, b: nat)
    requires Key(a) == Key(b)
    ensures a == b
  {
    assert Key(a)[1..] == Decimal(a) && Key(b)[1..] == Decimal(b);
    DecimalIsInjective(a, b);
  }

  // The letter m and the id in decimal.
  lemma {:induction false} KeyIs(id: nat)
    ensures Key(id) != "" && Key(id)[0] == 'm' && AllDigits(Key(id)[1..]) && Number(Key(id)[1..]) == id
    ensures Key(id)[1] == '0' <==> id == 0
  {
    DecimalIsNumber(id);
    DecimalHasNoLeadingZero(id);
    assert Key(id)[1..] == Decimal(id);
  }

  function Persist(flash: Flash, e: InboxEntry): Flash {
    flash[Key(e.id) := EntryBlob(e)]
  }

  function Erase(flash: Flash, id: nat): Flash {
    if id == 0 then flash else flash - {Key(id)}
  }

  // ----- the three operations that write -----

  function Lookup(s: State, id: nat): Option<InboxEntry>
    requires Shaped(s)
  {
    var k := Find(s.inbox, id, s.inboxFilled);
    if id == 0 || k == s.inboxFilled then None else Some(s.inbox[k].entry)
  }

  function PersistFound(flash: Flash, found: Option<InboxEntry>): Flash {
    match found case None => flash case Some(e) => Persist(flash, e)
  }

  datatype Event =
    | Added(sender: Bytes, text: Bytes, ts: Bytes, recvEpoch: nat)
    | Marked(id: nat, forwarded: bool)
    | Deleted(id: nat)

  function Arrival(ev: Event): InboxEntry
    requires ev.Added?
  {
    InboxEntry(0, ev.recvEpoch, ev.sender, ev.ts, ev.text, false)
  }

  function Step(d: Device, ev: Event): (r: Device)
    requires Shaped(d.store)
    ensures Shaped(r.store)
  {
    match ev
    case Added(_, _, _, _) =>
      var (after, r) := InsertReceived(d.store, Arrival(ev), false);
      Device(after, PersistFound(Erase(d.flash, r.evictedId), Lookup(after, r.id)))
    case Marked(id, forwarded) =>
      var before := Lookup(d.store, id);
      if before.None? || before.value.forwarded == forwarded then d
      else
        var (after, ok) := SetForwarded(d.store, id, forwarded);
        Device(after, PersistFound(d.flash, Lookup(after, id)))
    case Deleted(id) =>
      var (after, ok) := DeleteReceived(d.store, id);
      Device(after, if ok then Erase(d.flash, id) else d.flash)
  }

  function Run(d: Device, events: seq<Event>): (r: Device)
    requires Shaped(d.store)
    ensures Shaped(r.store)
  {
    if events == [] then d else Step(Run(d, events[..|events| - 1]), events[|events| - 1])
  }

  // ----- flash and RAM agree -----

  function Readable(blob: Bytes): Option<InboxEntry> {
    if 0 < |blob| < BLOB_LIMIT then ReadEntry(blob) else None
  }

  lemma {:induction false} ReadableIs(blob: Bytes, e: InboxEntry)
    ensures Readable(blob) == Some(e) <==> 0 < |blob| < 2048 && IsBlob(blob, e)
  {
    hide ReadEntry, IsBlob;
    ReadIsExact(blob, e);
  }

  predicate Fits(e: InboxEntry) {
    0 < e.id < UINT32 && e.recvEpoch < UINT32 && |EntryBlob(e)| < BLOB_LIMIT
  }

  predicate OnFlash(flash: Flash, e: InboxEntry) {
    Key(e.id) in flash && Readable(flash[Key(e.id)]) == Some(Kept(e))
  }

  ghost predicate HasKey(entries: seq<InboxEntry>, key: Bytes) {
    exists e :: e in entries && key == Key(e.id)
  }

  // The keys are exactly those of the listed ids, and each blob reads back as its entry.
  ghost predicate InStep(entries: seq<InboxEntry>, flash: Flash) {
    && (forall key :: key in flash ==> HasKey(entries, key))
    && (forall e :: e in entries ==> Fits(e) && OnFlash(flash, e))
  }

  predicate Distinct(entries: seq<InboxEntry>) {
    forall i, j :: 0 <= i < j < |entries| ==> entries[i].id != entries[j].id
  }

  ghost predicate Agree(d: Device) {
    Inv(d.store) && InStep(Entries(d.store), d.flash)
  }

  // ----- every operation keeps them in agreement -----

  lemma {:induction false} WrittenIsRead(flash: Flash, e: InboxEntry)
    requires Fits(e)
    ensures OnFlash(Persist(flash, e), e)
  {
    EntryRoundTrip(e);
  }

  // Storing an entry that is not listed yet adds it to the list.
  lemma {:induction false} PersistAppends(entries: seq<InboxEntry>, flash: Flash, e: InboxEntry)
    requires InStep(entries, flash) && Fits(e)
    requires forall x :: x in entries ==> x.id != e.id
    ensures InStep(entries + [e], Persist(flash, e))
  {
    hide Fits, Readable, EntryBlob, Kept;
    var after := Persist(flash, e);
    WrittenIsRead(flash, e);
    forall key | key in after ensures HasKey(entries + [e], key) {
      if key in flash {
        var x :| x in entries && key == Key(x.id);
        assert x in entries + [e];
      } else {
        assert e in entries + [e];
      }
    }
    forall x | x in entries ensures OnFlash(after, x) {
      if Key(x.id) == Key(e.id) { KeyIsInjective(x.id, e.id); }
    }
  }

  // Storing a changed entry over its old form changes it in the list.
  lemma {:induction false} PersistReplaces(entries: seq<InboxEntry>, flash: Flash, j: nat, e: InboxEntry)
    requires InStep(entries, flash) && Distinct(entries) && Fits(e)
    requires j < |entries| && entries[j].id == e.id
    ensures InStep(entries[j := e], Persist(flash, e))
  {
    hide Fits, Readable, EntryBlob, Kept;
    var after, list := Persist(flash, e), entries[j := e];
    WrittenIsRead(flash, e);
    assert list[j] == e;
    forall key | key in after ensures HasKey(list, key) {
      if key != Key(e.id) {
        var i :| 0 <= i < |entries| && key == Key(entries[i].id);
        assert list[i] == entries[i];
      }
    }
    forall i | 0 <= i < |list| ensures Fits(list[i]) && OnFlash(after, list[i]) {
      if i != j {
        assert list[i] == entries[i];
        if Key(entries[i].id) == Key(e.id) { KeyIsInjective(entries[i].id, e.id); }
      }
    }
  }

  lemma {:induction false} EraseSpares(flash: Flash, e: InboxEntry, id: nat)
    requires OnFlash(flash, e) && e.id != id
    ensures OnFlash(Erase(flash, id), e)
  {
    if Key(e.id) == Key(id) { KeyIsInjective(e.id, id); }
  }

  lemma {:induction false} WithoutAt(entries: seq<InboxEntry>, j: nat, i: nat)
    requires j < |entries| && i < |entries| && i != j
    ensures entries[i] in Without(entries, j)
  {
    assert entries[i] == Without(entries, j)[if i < j then i else i - 1];
  }

  lemma {:induction false} WithoutIs(entries: seq<InboxEntry>, j: nat, e: InboxEntry)
    requires j < |entries| && Distinct(entries) && e in Without(entries, j)
    ensures e in entries && e.id != entries[j].id
  {
    var i :| 0 <= i < |Without(entries, j)| && Without(entries, j)[i] == e;
    var k := if i < j then i else i + 1;
    assert entries[k] == e;
  }

  // Erasing an id takes its entry off the list.
  lemma {:induction false} EraseRemoves(entries: seq<InboxEntry>, flash: Flash, j: nat)
    requires InStep(entries, flash) && Distinct(entries) && j < |entries|
    ensures InStep(Without(entries, j), Erase(flash, entries[j].id))
  {
    hide OnFlash, Without, Distinct, Key;
    var id, rest := entries[j].id, Without(entries, j);
    assert Fits(entries[j]);
    hide Fits;
    var after := Erase(flash, id);
    forall key | key in after ensures HasKey(rest, key) {
      var i :| 0 <= i < |entries| && key == Key(entries[i].id);
      WithoutAt(entries, j, i);
    }
    forall e | e in rest ensures Fits(e) && OnFlash(after, e) {
      WithoutIs(entries, j, e);
      EraseSpares(flash, e, id);
    }
  }

  lemma {:induction false} ListIsDistinct(s: State)
    requires Inv(s)
    ensures Distinct(Entries(s))
    ensures forall e :: e in Entries(s) ==> 0 < e.id <= s.inboxSeq
  {
    EntriesAscend(s);
  }

  // What is looked up is the listed entry with that id.
  lemma {:induction false} LookupIsListed(s: State, id: nat)
    requires Inv(s) && id > 0
    ensures Lookup(s, id).Some? ==> Lookup(s, id).value in Entries(s) && Lookup(s, id).value.id == id
    ensures Lookup(s, id).None? ==> forall e :: e in Entries(s) ==> e.id != id
  {
    var k := Find(s.inbox, id, s.inboxFilled);
    if k < s.inboxFilled { SlotIsListed(s, k); } else { Store.NotFound(s, id); }
  }

  lemma {:induction false} LookupIs(s: State, e: InboxEntry)
    requires Inv(s) && e in Entries(s)
    ensures e.id > 0 && Lookup(s, e.id) == Some(e)
  {
    ListIsDistinct(s);
    LookupIsListed(s, e.id);
    var found := Lookup(s, e.id).value;
    var i :| 0 <= i < |Entries(s)| && Entries(s)[i] == found;
    var j :| 0 <= j < |Entries(s)| && Entries(s)[j] == e;
  }

  predicate Timed(ev: Event) {
    ev.Added? ==> ev.recvEpoch < UINT32
  }

  // The store still has an id for this arrival.
  predicate Roomy(s: State, ev: Event) {
    ev.Added? ==> s.inboxSeq + 1 < UINT32
  }

  lemma {:induction false} ArrivalFits(e: InboxEntry)
    requires 0 < e.id < UINT32 && e.recvEpoch < UINT32 && |e.text| <= MESSAGE_BODY_MAX_BYTES + 3
    ensures Fits(e)
  {
    BlobLength(e);
  }

  lemma {:induction false} AddAgrees(d: Device, ev: Event)
    requires Agree(d) && ev.Added? && Timed(ev)
    ensures Agree(Step(d, ev)) <==> Roomy(d.store, ev)
  {
    InsertKeeps(d.store, Arrival(ev), false);
    hide Inv, Entries, InsertReceived, InStep;
    if Roomy(d.store, ev) { NewIdAgrees(d, ev); }
  }

  // What an arrival does to the list, as long as there is an id for it.
  lemma {:induction false} NewIdListed(s: State, ev: Event)
    requires Inv(s) && ev.Added? && Timed(ev) && Roomy(s, ev)
    ensures var (after, r) := InsertReceived(s, Arrival(ev), false);
            var stored := after.inbox[s.inboxHead].entry;
            && Inv(after) && r.id == stored.id && Fits(stored)
            && (r.evictedId != 0 ==> Entries(s) != [] && Entries(s)[0].id == r.evictedId)
            && Entries(after) == (if r.evictedId != 0 then Entries(s)[1..] else Entries(s)) + [stored]
            && forall e :: e in Entries(s) ==> e.id != stored.id
  {
    hide Entries, Fits, Utf8Truncate;
    AddAppends(s, Arrival(ev), false);
    InsertKeeps(s, Arrival(ev), false);
    ListIsDistinct(s);
    hide Inv;
    ArrivalFits(InsertReceived(s, Arrival(ev), false).0.inbox[s.inboxHead].entry);
  }

  lemma {:induction false} NewIdAgrees(d: Device, ev: Event)
    requires Agree(d) && ev.Added? && Timed(ev) && Roomy(d.store, ev)
    ensures Agree(Step(d, ev))
  {
    NewIdListed(d.store, ev);
    hide Inv, Entries, InsertReceived, InStep, Fits;
    var s := d.store;
    var (after, r) := InsertReceived(s, Arrival(ev), false);
    var stored := after.inbox[s.inboxHead].entry;
    var kept := if r.evictedId != 0 then Entries(s)[1..] else Entries(s);
    if r.evictedId != 0 {
      ListIsDistinct(s);
      EraseRemoves(Entries(s), d.flash, 0);
      assert Without(Entries(s), 0) == kept;
    }
    assert stored in Entries(after);
    LookupIs(after, stored);
    PersistAppends(kept, Erase(d.flash, r.evictedId), stored);
  }

  lemma {:induction false} FitsMarked(e: InboxEntry, forwarded: bool)
    requires Fits(e)
    ensures Fits(e.(forwarded := forwarded))
  {
    BlobLength(e);
    BlobLength(e.(forwarded := forwarded));
  }

  lemma {:induction false} MarkAgrees(d: Device, ev: Event)
    requires Agree(d) && ev.Marked?
    ensures Agree(Step(d, ev))
  {
    var s := d.store;
    if ev.id > 0 && Lookup(s, ev.id).Some? {
      var (after, ok) := SetForwarded(s, ev.id, ev.forwarded);
      assert ok;
      MarkActsOnList(s, ev.id, ev.forwarded);
      hide Inv, Entries, SetForwarded, Fits, OnFlash;
      var j :| 0 <= j < |Entries(s)| && Entries(s)[j].id == ev.id
               && Entries(after) == Entries(s)[j := Entries(s)[j].(forwarded := ev.forwarded)];
      var e := Entries(s)[j].(forwarded := ev.forwarded);
      assert Entries(after)[j] == e;
      LookupIs(after, e);
      ListIsDistinct(s);
      FitsMarked(Entries(s)[j], ev.forwarded);
      PersistReplaces(Entries(s), d.flash, j, e);
    }
  }

  lemma {:induction false} DeleteAgrees(d: Device, ev: Event)
    requires Agree(d) && ev.Deleted?
    ensures Agree(Step(d, ev))
  {
    hide Inv, Entries, InStep, DeleteReceived, Shaped;
    var s := d.store;
    SequenceFits(d);
    if ev.id == 0 {
      NothingDeleted(s);
    } else {
      DeleteActsOnList(s, ev.id);
      var (after, ok) := DeleteReceived(s, ev.id);
      SequenceFits(Device(after, d.flash));
      if ok {
        var j :| 0 <= j < |Entries(s)| && Entries(s)[j].id == ev.id && Entries(after) == Without(Entries(s), j);
        ListIsDistinct(s);
        EraseRemoves(Entries(s), d.flash, j);
      }
    }
  }

  lemma {:induction false} NothingDeleted(s: State)
    requires Shaped(s)
    ensures DeleteReceived(s, 0) == (s, false)
  {
  }

  // ----- what each operation does to the list -----

  // An arrival goes to the end of the list with the next id, unmarked; at most the oldest entry falls off.
  lemma {:induction false} AddSays(d: Device, ev: Event)
    requires Inv(d.store) && ev.Added?
    ensures var before, after := Entries(d.store), Entries(Step(d, ev).store);
            var n := |after| - 1;
            && n >= 0 && (after[..n] == before || (before != [] && d.store.inboxFilled == 50 && after[..n] == before[1..]))
            && after[n].id == Step(d, ev).store.inboxSeq == (d.store.inboxSeq + 1) % 0x1_0000_0000
            && after[n].recvEpoch == ev.recvEpoch && after[n].sender == ev.sender && after[n].ts == ev.ts
            && !after[n].forwarded && IsStored(ev.text, after[n].text)
  {
    hide Entries, InsertReceived, IsStored;
    InsertSays(d.store, Arrival(ev), false);
    AddAppends(d.store, Arrival(ev), false);
    hide Inv;
  }

  // The listed entry with that id gets the mark, no other changes; where none differs nothing happens.
  lemma {:induction false} MarkSays(d: Device, ev: Event)
    requires Inv(d.store) && ev.Marked?
    ensures var before, after := Entries(d.store), Entries(Step(d, ev).store);
            && |after| == |before|
            && (forall j :: 0 <= j < |before| ==>
                  after[j] == if before[j].id == ev.id then before[j].(forwarded := ev.forwarded) else before[j])
            && ((forall e :: e in before && e.id == ev.id ==> e.forwarded == ev.forwarded) ==> Step(d, ev) == d)
  {
    var s := d.store;
    ListIsDistinct(s);
    if ev.id > 0 {
      LookupIsListed(s, ev.id);
      MarkActsOnList(s, ev.id, ev.forwarded);
      hide Inv, Entries, SetForwarded, Lookup;
      forall j | 0 <= j < |Entries(s)| && Entries(s)[j].id == ev.id ensures Lookup(s, ev.id) == Some(Entries(s)[j]) {
        LookupIs(s, Entries(s)[j]);
      }
    }
  }

  // The listed entry with that id goes, if there is one; else nothing happens.
  lemma {:induction false} DeleteSays(d: Device, ev: Event)
    requires Inv(d.store) && ev.Deleted?
    ensures var before, after := Entries(d.store), Entries(Step(d, ev).store);
            if exists e :: e in before && e.id == ev.id
            then exists j :: 0 <= j < |before| && before[j].id == ev.id && after == before[..j] + before[j + 1..]
            else Step(d, ev) == d
  {
    hide Entries, DeleteReceived;
    var s := d.store;
    ListIsDistinct(s);
    if ev.id == 0 { NothingDeleted(s); } else { DeleteActsOnList(s, ev.id); }
    hide Inv;
  }

  function Arrivals(events: seq<Event>): nat {
    if events == [] then 0
    else Arrivals(events[..|events| - 1]) + if events[|events| - 1].Added? then 1 else 0
  }

  lemma {:induction false} StepAgrees(d: Device, ev: Event)
    requires Agree(d) && Timed(ev)
    ensures Agree(Step(d, ev)) <==> Roomy(d.store, ev)
    ensures Roomy(d.store, ev) ==> Step(d, ev).store.inboxSeq == d.store.inboxSeq + if ev.Added? then 1 else 0
  {
    SequenceFits(d);
    hide Inv, InStep, Step, Shaped;
    match ev {
      case Added(_, _, _, _) => AddAgrees(d, ev);
      case Marked(_, _) => MarkAgrees(d, ev);
      case Deleted(_) => DeleteAgrees(d, ev);
    }
    if Roomy(d.store, ev) { SequenceSteps(d, ev); }
  }

  // They agree all along a run.
  ghost predicate AgreeAlong(d: Device, events: seq<Event>)
    requires Shaped(d.store)
  {
    forall n :: 0 <= n <= |events| ==> Agree(Run(d, events[..n]))
  }

  lemma {:induction false} AlongOne(d: Device, events: seq<Event>)
    requires Shaped(d.store) && events != []
    ensures AgreeAlong(d, events) <==> AgreeAlong(d, events[..|events| - 1]) && Agree(Run(d, events))
  {
    hide Agree, Run;
    var n := |events| - 1;
    assert events[..|events|] == events;
    forall k | 0 <= k <= n ensures events[..n][..k] == events[..k] {}
    if AgreeAlong(d, events) {
      forall k | 0 <= k <= n ensures Agree(Run(d, events[..n][..k])) { assert events[..n][..k] == events[..k]; }
    } else if AgreeAlong(d, events[..n]) && Agree(Run(d, events)) {
      forall k | 0 <= k <= |events| ensures Agree(Run(d, events[..k])) {
        if k <= n { assert events[..n][..k] == events[..k]; }
      }
    }
  }

  // The keys are exactly the live ids and each blob reads back as its entry, after every step of a
  // run, if and only if the run asks for fewer than 2^32 ids in all.
  lemma {:induction false} RunAgrees(d: Device, events: seq<Event>)
    requires Agree(d)
    requires forall ev :: ev in events ==> Timed(ev)
    ensures AgreeAlong(d, events) <==> d.store.inboxSeq + Arrivals(events) < UINT32
    ensures AgreeAlong(d, events) ==>
              Agree(Run(d, events)) && Run(d, events).store.inboxSeq == d.store.inboxSeq + Arrivals(events)
  {
    hide Inv, InStep, Step, AgreeAlong;
    SequenceFits(d);
    if events == [] {
      AlongNone(d);
    } else {
      var n := |events| - 1;
      RunAgrees(d, events[..n]);
      AlongOne(d, events);
      var before, ev := Run(d, events[..n]), events[n];
      assert ev in events;
      if AgreeAlong(d, events[..n]) { StepAgrees(before, ev); }
    }
  }

  lemma {:induction false} SequenceFits(d: Device)
    requires Inv(d.store)
    ensures Shaped(d.store) && d.store.inboxSeq < UINT32
  {
  }

  lemma {:induction false} AlongNone(d: Device)
    requires Agree(d)
    ensures AgreeAlong(d, [])
  {
  }

  lemma {:induction false} SequenceSteps(d: Device, ev: Event)
    requires Shaped(d.store) && Roomy(d.store, ev)
    ensures Step(d, ev).store.inboxSeq == d.store.inboxSeq + if ev.Added? then 1 else 0
  {
  }
}
