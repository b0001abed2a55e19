// MessageStore of core/src/inbox.cpp as functions on its state: fixed rings, deletion that leaves a
// hole, ids that only grow. MessageStores.dfy holds the class that works in place.
module Store {
  import opened Text

  const INBOX_CAPACITY := 50
  const SENT_CAPACITY := 10
  const MESSAGE_BODY_MAX_BYTES := 320
  const UINT32 := 0x1_0000_0000

  datatype InboxEntry = InboxEntry(id: nat, recvEpoch: nat, sender: Bytes, ts: Bytes, text: Bytes, forwarded: bool)
  datatype SentEntry = SentEntry(id: nat, sentEpoch: nat, target: Bytes, text: Bytes, ok: bool)
  datatype InboxSlot = InboxSlot(entry: InboxEntry, deleted: bool)

  const NO_ENTRY := InboxEntry(0, 0, "", "", "", false)
  const NO_SENT := SentEntry(0, 0, "", "", false)
  const HOLE := InboxSlot(NO_ENTRY, true)

  datatype State = State(inbox: seq<InboxSlot>, sent: seq<SentEntry>,
                         inboxHead: nat, inboxFilled: nat, inboxSeq: nat,
                         sentHead: nat, sentFilled: nat, sentSeq: nat)

  datatype AddResult = AddResult(id: nat, evictedId: nat)

  // ----- rings -----

  // The slots in use, oldest first: the next write goes to head, after the newest.
  function Ring<T>(slots: seq<T>, head: nat, filled: nat): seq<T>
    requires head < |slots| && filled <= |slots| && (filled < |slots| ==> head == filled)
  {
    if filled < |slots| then slots[..filled] else slots[head..] + slots[..head]
  }

  predicate RingShape(n: nat, head: nat, filled: nat) {
    head < n && filled <= n && (filled < n ==> head == filled)
  }

  function NextHead(head: nat, n: nat): nat
    requires n > 0
  {
    (head + 1) % n
  }

  function NextFilled(filled: nat, n: nat): nat {
    if filled < n then filled + 1 else filled
  }

  // Writing at head appends to the ring, and drops its oldest slot once the ring is full.
  lemma {:induction false} RingAppends<T>(slots: seq<T>, head: nat, filled: nat, x: T)
    requires RingShape(|slots|, head, filled)
    ensures |Ring(slots, head, filled)| == filled
    ensures RingShape(|slots|, NextHead(head, |slots|), NextFilled(filled, |slots|))
    ensures var ring := Ring(slots, head, filled);
            Ring(slots[head := x], NextHead(head, |slots|), NextFilled(filled, |slots|)) ==
            (if filled == |slots| then ring[1..] else ring) + [x]
    ensures filled == |slots| ==> Ring(slots, head, filled)[0] == slots[head]
  {
    if head + 1 == |slots| { LastPlace(slots, filled, x); } else { InnerPlace(slots, head, filled, x); }
  }

  lemma {:induction false} LastPlace<T>(slots: seq<T>, filled: nat, x: T)
    requires |slots| > 0 && RingShape(|slots|, |slots| - 1, filled)
    ensures NextHead(|slots| - 1, |slots|) == 0 && NextFilled(filled, |slots|) == |slots|
    ensures Ring(slots[|slots| - 1 := x], 0, |slots|) == slots[..|slots| - 1] + [x]
    ensures filled == |slots| ==> Ring(slots, |slots| - 1, filled)[1..] == slots[..|slots| - 1]
  {
    var after := slots[|slots| - 1 := x];
    assert after[0..] + after[..0] == after;
    if filled == |slots| { assert slots[|slots| - 1..] == [slots[|slots| - 1]]; }
  }

  lemma {:induction false} InnerPlace<T>(slots: seq<T>, head: nat, filled: nat, x: T)
    requires head + 1 < |slots| && RingShape(|slots|, head, filled)
    ensures NextHead(head, |slots|) == head + 1
    ensures RingShape(|slots|, head + 1, NextFilled(filled, |slots|))
    ensures Ring(slots[head := x], head + 1, NextFilled(filled, |slots|)) ==
            (if filled == |slots| then Ring(slots, head, filled)[1..] else Ring(slots, head, filled)) + [x]
  {
    var n := |slots|;
    var after := slots[head := x];
    UpdatedFirst(slots, head, x);
    if filled == n {
      var a, b := slots[head + 1..], slots[..head];
      Associative(a, b, [x]);
      DropOldest(slots, head);
    }
  }

  lemma {:induction false} UpdatedFirst<T>(slots: seq<T>, head: nat, x: T)
    requires head < |slots|
    ensures slots[head := x][..head + 1] == slots[..head] + [x] && slots[head := x][head + 1..] == slots[head + 1..]
  {
  }

  lemma {:induction false} DropOldest<T>(slots: seq<T>, head: nat)
    requires head < |slots|
    ensures (slots[head..] + slots[..head])[1..] == slots[head + 1..] + slots[..head]
  {
  }

  // Writing elsewhere changes the ring at the matching place.
  function RingIndex(n: nat, head: nat, filled: nat, i: nat): nat
    requires RingShape(n, head, filled) && i < filled
  {
    if filled < n || i >= head then i - (if filled < n then 0 else head) else i + n - head
  }

  lemma {:induction false} RingUpdates<T>(slots: seq<T>, head: nat, filled: nat, i: nat, x: T)
    requires RingShape(|slots|, head, filled) && i < filled
    ensures RingIndex(|slots|, head, filled, i) < filled
    ensures |Ring(slots, head, filled)| == filled
    ensures Ring(slots, head, filled)[RingIndex(|slots|, head, filled, i)] == slots[i]
    ensures Ring(slots[i := x], head, filled) == Ring(slots, head, filled)[RingIndex(|slots|, head, filled, i) := x]
  {
    var n := |slots|;
    var k := RingIndex(n, head, filled, i);
    if filled < n {
      assert slots[i := x][..filled] == slots[..filled][i := x];
    } else {
      assert slots[i := x][head..] + slots[i := x][..head] == (slots[head..] + slots[..head])[k := x];
    }
  }

  // Every place of the ring is some slot.
  lemma {:induction false} RingCovers<T>(slots: seq<T>, head: nat, filled: nat, k: nat) returns (i: nat)
    requires RingShape(|slots|, head, filled) && k < filled
    ensures i < filled && RingIndex(|slots|, head, filled, i) == k && slots[i] == Ring(slots, head, filled)[k]
  {
    i := if filled < |slots| then k else if k + head < |slots| then k + head else k + head - |slots|;
  }

  // ----- the state -----

  function Inbox(s: State): seq<InboxSlot>
    requires Shaped(s)
  {
    Ring(s.inbox, s.inboxHead, s.inboxFilled)
  }

  function Sent(s: State): seq<SentEntry>
    requires Shaped(s)
  {
    Ring(s.sent, s.sentHead, s.sentFilled)
  }

  predicate Shaped(s: State) {
    && |s.inbox| == INBOX_CAPACITY && |s.sent| == SENT_CAPACITY
    && RingShape(INBOX_CAPACITY, s.inboxHead, s.inboxFilled)
    && RingShape(SENT_CAPACITY, s.sentHead, s.sentFilled)
  }

  function Repeated<T>(x: T, n: nat): (r: seq<T>)
    ensures |r| == n && forall i :: 0 <= i < n ==> r[i] == x
  {
    if n == 0 then [] else Repeated(x, n - 1) + [x]
  }

  const NO_SLOTS := Repeated(HOLE, INBOX_CAPACITY)
  const NO_SENTS := Repeated(NO_SENT, SENT_CAPACITY)
  const EMPTY := State(NO_SLOTS, NO_SENTS, 0, 0, 0, 0, 0, 0)

  // ----- operations -----

  function InsertReceived(s: State, entry: InboxEntry, preserveId: bool): (State, AddResult)
    requires Shaped(s)
  {
    var slot := s.inbox[s.inboxHead];
    var evicted := if s.inboxFilled == INBOX_CAPACITY && !slot.deleted then slot.entry.id else 0;
    var sequence := if !preserveId then (s.inboxSeq + 1) % UINT32
                    else if s.inboxSeq < entry.id then entry.id else s.inboxSeq;
    var stored := if preserveId then entry
                  else entry.(id := sequence, text := Utf8Truncate(entry.text, MESSAGE_BODY_MAX_BYTES));
    (s.(inbox := s.inbox[s.inboxHead := InboxSlot(stored, false)], inboxSeq := sequence,
        inboxHead := NextHead(s.inboxHead, INBOX_CAPACITY), inboxFilled := NextFilled(s.inboxFilled, INBOX_CAPACITY)),
     AddResult(stored.id, evicted))
  }

  function InsertSent(s: State, entry: SentEntry, preserveId: bool): (State, AddResult)
    requires Shaped(s)
  {
    var slot := s.sent[s.sentHead];
    var evicted := if s.sentFilled == SENT_CAPACITY && slot.id != 0 then slot.id else 0;
    var sequence := if !preserveId then (s.sentSeq + 1) % UINT32
                    else if s.sentSeq < entry.id then entry.id else s.sentSeq;
    var stored := if preserveId then entry
                  else entry.(id := sequence, text := Utf8Truncate(entry.text, MESSAGE_BODY_MAX_BYTES));
    (s.(sent := s.sent[s.sentHead := stored], sentSeq := sequence,
        sentHead := NextHead(s.sentHead, SENT_CAPACITY), sentFilled := NextFilled(s.sentFilled, SENT_CAPACITY)),
     AddResult(stored.id, evicted))
  }

  // A stored text: as it is, or cut at a character boundary and marked with dots.
  predicate IsStored(text: Bytes, stored: Bytes) {
    if |text| <= 320 then stored == text
    else && 3 <= |stored| <= 323 && stored[|stored| - 3..] == "..."
         && CutAtBoundary(text, 320, |stored| - 3) && stored[..|stored| - 3] == text[..|stored| - 3]
  }

  // What an insertion writes: a restored entry as it is, a new one with the next id and a text of
  // limited size; the counter becomes the larger of the two.
  lemma {:induction false} InsertSays(s: State, e: InboxEntry, preserveId: bool)
    requires Shaped(s)
    ensures var (after, r) := InsertReceived(s, e, preserveId);
            var slot := after.inbox[s.inboxHead];
            && !slot.deleted && r.id == slot.entry.id
            && slot.entry.recvEpoch == e.recvEpoch && slot.entry.sender == e.sender && slot.entry.ts == e.ts
            && slot.entry.forwarded == e.forwarded
            && (if preserveId then slot.entry.text == e.text && slot.entry.id == e.id else IsStored(e.text, slot.entry.text))
            && (if preserveId then after.inboxSeq == (if s.inboxSeq < e.id then e.id else s.inboxSeq)
                else slot.entry.id == after.inboxSeq == (s.inboxSeq + 1) % 0x1_0000_0000)
            && after.inbox == s.inbox[s.inboxHead := slot]
            && after.inboxHead == (s.inboxHead + 1) % 50 && after.inboxFilled == (if s.inboxFilled < 50 then s.inboxFilled + 1 else 50)
            && after.sent == s.sent && after.sentHead == s.sentHead && after.sentFilled == s.sentFilled && after.sentSeq == s.sentSeq
  {
    StoredIs(e.text);
  }

  lemma {:induction false} InsertSentSays(s: State, e: SentEntry, preserveId: bool)
    requires Shaped(s)
    ensures var (after, r) := InsertSent(s, e, preserveId);
            var stored := after.sent[s.sentHead];
            && r.id == stored.id && r.evictedId == (if s.sentFilled == 10 then s.sent[s.sentHead].id else 0)
            && stored.sentEpoch == e.sentEpoch && stored.target == e.target && stored.ok == e.ok
            && (if preserveId then stored.text == e.text && stored.id == e.id else IsStored(e.text, stored.text))
            && (if preserveId then after.sentSeq == (if s.sentSeq < e.id then e.id else s.sentSeq)
                else stored.id == after.sentSeq == (s.sentSeq + 1) % 0x1_0000_0000)
            && after.sent == s.sent[s.sentHead := stored]
            && after.sentHead == (s.sentHead + 1) % 10 && after.sentFilled == (if s.sentFilled < 10 then s.sentFilled + 1 else 10)
            && after.inbox == s.inbox && after.inboxHead == s.inboxHead && after.inboxFilled == s.inboxFilled && after.inboxSeq == s.inboxSeq
  {
    StoredIs(e.text);
  }

  lemma {:induction false} StoredIs(text: Bytes)
    ensures IsStored(text, Utf8Truncate(text, MESSAGE_BODY_MAX_BYTES))
  {
  }

  // The slot that holds an id: the first in memory, or the number of slots in use.
  function Find(inbox: seq<InboxSlot>, id: nat, filled: nat): (k: nat)
    requires filled <= |inbox|
    ensures k <= filled
    ensures forall j :: 0 <= j < k ==> inbox[j].deleted || inbox[j].entry.id != id
    ensures k < filled ==> !inbox[k].deleted && inbox[k].entry.id == id
  {
    if filled == 0 then 0
    else
      var k := Find(inbox, id, filled - 1);
      if k < filled - 1 then k
      else if !inbox[filled - 1].deleted && inbox[filled - 1].entry.id == id then filled - 1 else filled
  }

  function SetForwarded(s: State, id: nat, forwarded: bool): (State, bool)
    requires Shaped(s)
  {
    var k := Find(s.inbox, id, s.inboxFilled);
    if id == 0 || k == s.inboxFilled then (s, false)
    else (s.(inbox := s.inbox[k := s.inbox[k].(entry := s.inbox[k].entry.(forwarded := forwarded))]), true)
  }

  function DeleteReceived(s: State, id: nat): (State, bool)
    requires Shaped(s)
  {
    var k := Find(s.inbox, id, s.inboxFilled);
    if id == 0 || k == s.inboxFilled then (s, false) else (s.(inbox := s.inbox[k := HOLE]), true)
  }

  // ----- what the inbox means: the live entries, oldest first -----

  function Live(slots: seq<InboxSlot>): seq<InboxEntry> {
    if slots == [] then []
    else Live(slots[..|slots| - 1]) + if slots[|slots| - 1].deleted then [] else [slots[|slots| - 1].entry]
  }

  function Entries(s: State): seq<InboxEntry>
    requires Shaped(s)
  {
    Live(Inbox(s))
  }

  // ----- the invariant -----

  predicate Ascending(slots: seq<InboxSlot>, limit: nat) {
    && (forall i :: 0 <= i < |slots| && !slots[i].deleted ==> 0 < slots[i].entry.id <= limit)
    && (forall i, j :: 0 <= i < j < |slots| && !slots[i].deleted && !slots[j].deleted ==> slots[i].entry.id < slots[j].entry.id)
  }

  predicate SentAscending(slots: seq<SentEntry>, limit: nat) {
    && (forall i :: 0 <= i < |slots| ==> 0 < slots[i].id <= limit)
    && (forall i, j :: 0 <= i < j < |slots| ==> slots[i].id < slots[j].id)
  }

  // Slots not in use are as new, deleted ones are cleared; ids are non-zero, at most the sequence
  // counter, and grow with the age order of the ring.
  predicate Inv(s: State) {
    && Shaped(s)
    && s.inboxSeq < UINT32 && s.sentSeq < UINT32
    && (forall i :: 0 <= i < INBOX_CAPACITY && (s.inbox[i].deleted || i >= s.inboxFilled) ==> s.inbox[i] == HOLE)
    && (forall i :: s.sentFilled <= i < SENT_CAPACITY ==> s.sent[i] == NO_SENT)
    && Ascending(Inbox(s), s.inboxSeq) && SentAscending(Sent(s), s.sentSeq)
  }

  lemma EmptyOk()
    ensures Inv(EMPTY) && Entries(EMPTY) == []
    ensures forall e :: InsertReceived(EMPTY, e, false).1.id == 1
    ensures forall e :: InsertSent(EMPTY, e, false).1.id == 1
  {
    assert Inbox(EMPTY) == [] && Sent(EMPTY) == [];
  }

  // The slots that an insertion leaves: all but the oldest, once the ring is full.
  function Staying<T>(slots: seq<T>, head: nat, filled: nat): seq<T>
    requires RingShape(|slots|, head, filled)
  {
    if filled == |slots| then slots[head + 1..] + slots[..head] else slots[..filled]
  }

  lemma {:induction false} StayingIs<T>(slots: seq<T>, head: nat, filled: nat)
    requires RingShape(|slots|, head, filled)
    ensures var ring := Ring(slots, head, filled);
            |ring| == filled && Staying(slots, head, filled) == if filled == |slots| then ring[1..] else ring
  {
  }

  // The next id is below 2^32, or the id that is brought along is, and above those of the live slots
  // that stay.
  predicate FreshId(s: State, entry: InboxEntry, preserveId: bool)
    requires Shaped(s)
  {
    if preserveId then
      && 0 < entry.id < UINT32
      && forall slot :: slot in Staying(s.inbox, s.inboxHead, s.inboxFilled) && !slot.deleted ==> slot.entry.id < entry.id
    else s.inboxSeq + 1 < UINT32
  }

  lemma {:induction false} FreshAbove(s: State, entry: InboxEntry)
    requires Inv(s) && s.inboxSeq < entry.id < UINT32
    ensures FreshId(s, entry, true)
  {
    hide SentAscending;
    StayingIs(s.inbox, s.inboxHead, s.inboxFilled);
  }

  lemma {:induction false} AscendingShrinks(ring: seq<InboxSlot>, limit: nat)
    requires Ascending(ring, limit) && ring != []
    ensures Ascending(ring[1..], limit)
  {
  }

  lemma {:induction false} AscendingGrows(ring: seq<InboxSlot>, limit: nat, slot: InboxSlot, next: nat)
    requires Ascending(ring, limit) && !slot.deleted && limit <= next && 0 < slot.entry.id <= next
    requires forall x :: x in ring && !x.deleted ==> x.entry.id < slot.entry.id
    ensures Ascending(ring + [slot], next)
  {
    forall i | 0 <= i < |ring| ensures ring[i] in ring {}
  }

  lemma {:induction false} AscendingLast(ring: seq<InboxSlot>, slot: InboxSlot, next: nat)
    requires Ascending(ring + [slot], next) && !slot.deleted
    ensures 0 < slot.entry.id <= next && forall x :: x in ring && !x.deleted ==> x.entry.id < slot.entry.id
  {
    var after := ring + [slot];
    assert after[|ring|] == slot && forall i :: 0 <= i < |ring| ==> after[i] == ring[i];
  }

  // An insertion keeps the invariant if and only if its id is fresh.
  lemma {:induction false} InsertKeeps(s: State, entry: InboxEntry, preserveId: bool)
    requires Inv(s)
    ensures Inv(InsertReceived(s, entry, preserveId).0) <==> FreshId(s, entry, preserveId)
  {
    hide Ring, Ascending, SentAscending, Utf8Truncate, Staying;
    var (after, r) := InsertReceived(s, entry, preserveId);
    var slot := after.inbox[s.inboxHead];
    StayingIs(s.inbox, s.inboxHead, s.inboxFilled);
    RingAppends(s.inbox, s.inboxHead, s.inboxFilled, slot);
    var rest := Staying(s.inbox, s.inboxHead, s.inboxFilled);
    LiveBelow(Inbox(s), s.inboxSeq);
    if s.inboxFilled == INBOX_CAPACITY { AscendingShrinks(Inbox(s), s.inboxSeq); }
    if FreshId(s, entry, preserveId) {
      AscendingGrows(rest, s.inboxSeq, slot, after.inboxSeq);
    } else if Ascending(rest + [slot], after.inboxSeq) {
      AscendingLast(rest, slot, after.inboxSeq);
    }
    assert forall i :: 0 <= i < INBOX_CAPACITY && i != s.inboxHead ==> after.inbox[i] == s.inbox[i];
    assert Sent(after) == Sent(s);
  }

  lemma {:induction false} LiveBelow(ring: seq<InboxSlot>, limit: nat)
    requires Ascending(ring, limit)
    ensures forall x :: x in ring && !x.deleted ==> x.entry.id <= limit
  {
  }

  predicate FreshSentId(s: State, entry: SentEntry, preserveId: bool)
    requires Shaped(s)
  {
    if preserveId then
      0 < entry.id < UINT32 && forall x :: x in Staying(s.sent, s.sentHead, s.sentFilled) ==> x.id < entry.id
    else s.sentSeq + 1 < UINT32
  }

  lemma {:induction false} SentAscendingShrinks(ring: seq<SentEntry>, limit: nat)
    requires SentAscending(ring, limit) && ring != []
    ensures SentAscending(ring[1..], limit)
  {
  }

  lemma {:induction false} SentAscendingGrows(ring: seq<SentEntry>, limit: nat, entry: SentEntry, next: nat)
    requires SentAscending(ring, limit) && limit <= next && 0 < entry.id <= next && forall x :: x in ring ==> x.id < entry.id
    ensures SentAscending(ring + [entry], next)
  {
    forall i | 0 <= i < |ring| ensures ring[i] in ring {}
  }

  lemma {:induction false} SentAscendingLast(ring: seq<SentEntry>, entry: SentEntry, next: nat)
    requires SentAscending(ring + [entry], next)
    ensures 0 < entry.id <= next && forall x :: x in ring ==> x.id < entry.id
  {
    var after := ring + [entry];
    assert after[|ring|] == entry && forall i :: 0 <= i < |ring| ==> after[i] == ring[i];
  }

  lemma {:induction false} SentBelow(ring: seq<SentEntry>, limit: nat)
    requires SentAscending(ring, limit)
    ensures forall x :: x in ring ==> x.id <= limit
  {
  }

  lemma {:induction false} InsertSentKeeps(s: State, entry: SentEntry, preserveId: bool)
    requires Inv(s)
    ensures Inv(InsertSent(s, entry, preserveId).0) <==> FreshSentId(s, entry, preserveId)
  {
    hide Ring, Ascending, SentAscending, Utf8Truncate, Staying;
    var (after, r) := InsertSent(s, entry, preserveId);
    var stored := after.sent[s.sentHead];
    StayingIs(s.sent, s.sentHead, s.sentFilled);
    RingAppends(s.sent, s.sentHead, s.sentFilled, stored);
    var rest := Staying(s.sent, s.sentHead, s.sentFilled);
    SentBelow(Sent(s), s.sentSeq);
    if s.sentFilled == SENT_CAPACITY { SentAscendingShrinks(Sent(s), s.sentSeq); }
    if FreshSentId(s, entry, preserveId) {
      SentAscendingGrows(rest, s.sentSeq, stored, after.sentSeq);
    } else if SentAscending(rest + [stored], after.sentSeq) {
      SentAscendingLast(rest, stored, after.sentSeq);
    }
    assert forall i :: 0 <= i < SENT_CAPACITY && i != s.sentHead ==> after.sent[i] == s.sent[i];
    assert Inbox(after) == Inbox(s);
  }

  lemma {:induction false} UpdateKeeps(s: State, i: nat, slot: InboxSlot)
    requires Inv(s) && i < s.inboxFilled && !s.inbox[i].deleted
    requires slot == HOLE || (!slot.deleted && slot.entry.id == s.inbox[i].entry.id)
    ensures Inv(s.(inbox := s.inbox[i := slot]))
  {
    RingUpdates(s.inbox, s.inboxHead, s.inboxFilled, i, slot);
  }

  // ----- refinement of a bounded list -----

  lemma {:induction false} LiveOne(slots: seq<InboxSlot>, x: InboxSlot)
    ensures Live(slots + [x]) == Live(slots) + if x.deleted then [] else [x.entry]
  {
    assert (slots + [x])[..|slots|] == slots;
  }

  lemma {:induction false} LiveAppends(a: seq<InboxSlot>, b: seq<InboxSlot>)
    ensures Live(a + b) == Live(a) + Live(b)
  {
    if b == [] {
      assert a + b == a;
    } else {
      var n := |b| - 1;
      assert a + b == a + b[..n] + [b[n]] && b == b[..n] + [b[n]];
      LiveAppends(a, b[..n]);
      LiveOne(a + b[..n], b[n]);
      LiveOne(b[..n], b[n]);
      Associative(Live(a), Live(b[..n]), if b[n].deleted then [] else [b[n].entry]);
    }
  }

  lemma {:induction false} LiveFirst(ring: seq<InboxSlot>)
    requires ring != []
    ensures Live(ring) == (if ring[0].deleted then [] else [ring[0].entry]) + Live(ring[1..])
    ensures !ring[0].deleted ==> Live(ring)[0] == ring[0].entry && Live(ring)[1..] == Live(ring[1..])
  {
    assert ring == [ring[0]] + ring[1..] && [] + [ring[0]] == [ring[0]];
    LiveAppends([ring[0]], ring[1..]);
    LiveOne([], ring[0]);
  }

  // Adding appends the new entry; the oldest of fifty places falls off, and the reported evicted id
  // is the id of the live entry there, or 0 when that place is free or a hole.
  lemma {:induction false} AddAppends(s: State, entry: InboxEntry, preserveId: bool)
    requires Inv(s)
    ensures var (after, r) := InsertReceived(s, entry, preserveId);
            var stored := after.inbox[s.inboxHead].entry;
            var oldest := Inbox(s);
            && stored.id == r.id == (if preserveId then entry.id else (s.inboxSeq + 1) % UINT32)
            && (r.evictedId != 0 ==> Entries(s) != [])
            && Entries(after) == (if r.evictedId != 0 then Entries(s)[1..] else Entries(s)) + [stored]
            && (r.evictedId != 0 ==> Entries(s)[0].id == r.evictedId)
            && (r.evictedId == 0 <==> |oldest| < INBOX_CAPACITY || oldest[0].deleted)
  {
    hide Live, Utf8Truncate, SentAscending;
    var (after, r) := InsertReceived(s, entry, preserveId);
    var slot := after.inbox[s.inboxHead];
    var ring := Inbox(s);
    RingAppends(s.inbox, s.inboxHead, s.inboxFilled, slot);
    if s.inboxFilled == INBOX_CAPACITY {
      LiveFirst(ring);
      LiveOne(ring[1..], slot);
    } else {
      LiveOne(ring, slot);
    }
  }

  lemma {:induction false} LiveUpdate(slots: seq<InboxSlot>, k: nat, slot: InboxSlot) returns (j: nat)
    requires k < |slots| && !slots[k].deleted
    ensures j < |Live(slots)| && Live(slots)[j] == slots[k].entry
    ensures Live(slots[k := slot]) ==
            if slot.deleted then Without(Live(slots), j) else Live(slots)[j := slot.entry]
  {
    hide Live;
    var a, b := slots[..k], slots[k + 1..];
    assert slots == a + [slots[k]] + b && slots[k := slot] == a + [slot] + b;
    LiveAppends(a + [slots[k]], b);
    LiveAppends(a + [slot], b);
    LiveOne(a, slots[k]);
    LiveOne(a, slot);
    j := |Live(a)|;
  }

  // Changing a live slot changes, or removes, its entry in the list.
  lemma {:induction false} SlotActsOnList(s: State, i: nat, slot: InboxSlot) returns (j: nat)
    requires Inv(s) && i < s.inboxFilled && !s.inbox[i].deleted
    requires slot == HOLE || (!slot.deleted && slot.entry.id == s.inbox[i].entry.id)
    ensures j < |Entries(s)| && Entries(s)[j] == s.inbox[i].entry
    ensures var after := s.(inbox := s.inbox[i := slot]);
            Inv(after) && Entries(after) == if slot.deleted then Without(Entries(s), j) else Entries(s)[j := slot.entry]
  {
    hide Ring, RingIndex;
    RingUpdates(s.inbox, s.inboxHead, s.inboxFilled, i, slot);
    UpdateKeeps(s, i, slot);
    j := LiveUpdate(Inbox(s), RingIndex(INBOX_CAPACITY, s.inboxHead, s.inboxFilled, i), slot);
  }

  // Deleting reaches exactly the live entry with that id, if there is one.
  lemma {:induction false} DeleteActsOnList(s: State, id: nat)
    requires Inv(s) && id > 0
    ensures var (after, ok) := DeleteReceived(s, id);
            && Inv(after)
            && if ok then exists j :: 0 <= j < |Entries(s)| && Entries(s)[j].id == id && Entries(after) == Without(Entries(s), j)
               else after == s && forall e :: e in Entries(s) ==> e.id != id
  {
    hide Entries;
    var i := Find(s.inbox, id, s.inboxFilled);
    if i < s.inboxFilled { var j := SlotActsOnList(s, i, HOLE); } else { NotFound(s, id); }
  }

  // So does marking, and it changes only the mark.
  lemma {:induction false} MarkActsOnList(s: State, id: nat, forwarded: bool)
    requires Inv(s) && id > 0
    ensures var (after, ok) := SetForwarded(s, id, forwarded);
            && Inv(after)
            && if ok then exists j :: 0 <= j < |Entries(s)| && Entries(s)[j].id == id
                                      && Entries(after) == Entries(s)[j := Entries(s)[j].(forwarded := forwarded)]
               else after == s && forall e :: e in Entries(s) ==> e.id != id
  {
    hide Entries;
    var i := Find(s.inbox, id, s.inboxFilled);
    if i < s.inboxFilled {
      var j := SlotActsOnList(s, i, s.inbox[i].(entry := s.inbox[i].entry.(forwarded := forwarded)));
    } else {
      NotFound(s, id);
    }
  }

  lemma {:induction false} NotFound(s: State, id: nat)
    requires Shaped(s) && Find(s.inbox, id, s.inboxFilled) == s.inboxFilled
    ensures forall e :: e in Entries(s) ==> e.id != id
  {
    forall e | e in Entries(s) ensures e.id != id {
      var k := LiveIsSlot(Inbox(s), e);
      var m := RingCovers(s.inbox, s.inboxHead, s.inboxFilled, k);
    }
  }

  lemma {:induction false} LiveIsSlot(slots: seq<InboxSlot>, e: InboxEntry) returns (k: nat)
    requires e in Live(slots)
    ensures k < |slots| && !slots[k].deleted && slots[k].entry == e
  {
    var n := |slots| - 1;
    if !slots[n].deleted && slots[n].entry == e {
      k := n;
    } else {
      k := LiveIsSlot(slots[..n], e);
    }
  }

  lemma {:induction false} LiveAscends(slots: seq<InboxSlot>, limit: nat)
    requires Ascending(slots, limit)
    ensures forall i :: 0 <= i < |Live(slots)| ==> 0 < Live(slots)[i].id <= limit
    ensures forall i, j :: 0 <= i < j < |Live(slots)| ==> Live(slots)[i].id < Live(slots)[j].id
  {
    if slots != [] {
      var n := |slots| - 1;
      LiveAscends(slots[..n], limit);
      forall e | e in Live(slots[..n]) && !slots[n].deleted ensures e.id < slots[n].entry.id {
        var k := LiveIsSlot(slots[..n], e);
      }
    }
  }

  lemma {:induction false} SlotIsListed(s: State, i: nat)
    requires Shaped(s) && i < s.inboxFilled && !s.inbox[i].deleted
    ensures s.inbox[i].entry in Entries(s)
  {
    RingUpdates(s.inbox, s.inboxHead, s.inboxFilled, i, HOLE);
    var j := LiveUpdate(Inbox(s), RingIndex(INBOX_CAPACITY, s.inboxHead, s.inboxFilled, i), HOLE);
  }

  // The list is in age order and no id occurs twice in it.
  lemma {:induction false} EntriesAscend(s: State)
    requires Inv(s)
    ensures forall i :: 0 <= i < |Entries(s)| ==> 0 < Entries(s)[i].id <= s.inboxSeq
    ensures forall i, j :: 0 <= i < j < |Entries(s)| ==> Entries(s)[i].id < Entries(s)[j].id
  {
    LiveAscends(Inbox(s), s.inboxSeq);
  }

  lemma {:induction false} LiveBound(slots: seq<InboxSlot>)
    ensures |Live(slots)| <= |slots|
  {
    if slots != [] { LiveBound(slots[..|slots| - 1]); }
  }
}
