// The class MessageStore of core/src/inbox.cpp: two rings of slots, updated in place.
module MessageStores {
  import opened Text
  import opened Store

  class MessageStore {
    const inbox: array<InboxSlot>
    const sent: array<SentEntry>
    var inboxHead: nat
    var inboxFilled: nat
    var inboxSeq: nat
    var sentHead: nat
    var sentFilled: nat
    var sentSeq: nat

    ghost function State(): State
      reads this, inbox, sent
    {
      Store.State(inbox[..], sent[..], inboxHead, inboxFilled, inboxSeq, sentHead, sentFilled, sentSeq)
    }

    ghost predicate Valid()
      reads this, inbox, sent
    {
      Shaped(State())
    }

    constructor ()
      ensures Valid() && fresh(inbox) && fresh(sent) && State() == EMPTY
    {
      inbox := new InboxSlot[INBOX_CAPACITY](_ => HOLE);
      sent := new SentEntry[SENT_CAPACITY](_ => NO_SENT);
      inboxHead, inboxFilled, inboxSeq := 0, 0, 0;
      sentHead, sentFilled, sentSeq := 0, 0, 0;
      new;
      assert inbox[..] == NO_SLOTS && sent[..] == NO_SENTS;
    }

    method InsertReceivedEntry(entry: InboxEntry, preserveId: bool) returns (result: AddResult)
      requires Valid()
      modifies this, inbox
      ensures Valid() && (State(), result) == InsertReceived(old(State()), entry, preserveId)
    {
      hide Utf8Truncate;
      ghost var after := InsertReceived(State(), entry, preserveId).0;
      var evictedId := 0;
      if inboxFilled == INBOX_CAPACITY && !inbox[inboxHead].deleted { evictedId := inbox[inboxHead].entry.id; }
      var e := entry;
      if !preserveId {
        inboxSeq := (inboxSeq + 1) % UINT32;
        e := e.(id := inboxSeq);
        var text := TruncateUtf8(e.text, MESSAGE_BODY_MAX_BYTES);
        e := e.(text := text);
      } else {
        if inboxSeq < e.id { inboxSeq := e.id; }
      }
      inbox[inboxHead] := InboxSlot(e, false);
      result := AddResult(e.id, evictedId);
      inboxHead := (inboxHead + 1) % INBOX_CAPACITY;
      if inboxFilled < INBOX_CAPACITY { inboxFilled := inboxFilled + 1; }
      assert inbox[..] == after.inbox && inboxHead == after.inboxHead && inboxFilled == after.inboxFilled;
    }

    method AddReceived(sender: Bytes, text: Bytes, timestamp: Bytes, recvEpoch: nat) returns (result: AddResult)
      requires Valid()
      modifies this, inbox
      ensures Valid() && (State(), result) == InsertReceived(old(State()), InboxEntry(0, recvEpoch, sender, timestamp, text, false), false)
    {
      result := InsertReceivedEntry(InboxEntry(0, recvEpoch, sender, timestamp, text, false), false);
    }

    method AddSent(target: Bytes, text: Bytes, ok: bool, sentEpoch: nat) returns (result: AddResult)
      requires Valid()
      modifies this, sent
      ensures Valid() && (State(), result) == InsertSent(old(State()), SentEntry(0, sentEpoch, target, text, ok), false)
    {
      hide Utf8Truncate;
      ghost var after := InsertSent(State(), SentEntry(0, sentEpoch, target, text, ok), false).0;
      var evictedId := 0;
      if sentFilled == SENT_CAPACITY && sent[sentHead].id != 0 { evictedId := sent[sentHead].id; }
      sentSeq := (sentSeq + 1) % UINT32;
      var stored := TruncateUtf8(text, MESSAGE_BODY_MAX_BYTES);
      sent[sentHead] := SentEntry(sentSeq, sentEpoch, target, stored, ok);
      result := AddResult(sentSeq, evictedId);
      sentHead := (sentHead + 1) % SENT_CAPACITY;
      if sentFilled < SENT_CAPACITY { sentFilled := sentFilled + 1; }
      assert sent[..] == after.sent && sentHead == after.sentHead && sentFilled == after.sentFilled;
    }

    // The first slot in use that is live and has the id.
    method FindSlot(id: nat) returns (k: nat)
      requires Valid()
      ensures k == Find(inbox[..], id, inboxFilled)
    {
      k := 0;
      while k < inboxFilled && (inbox[k].deleted || inbox[k].entry.id != id)
        invariant 0 <= k <= inboxFilled
        invariant forall j :: 0 <= j < k ==> inbox[j].deleted || inbox[j].entry.id != id
      {
        k := k + 1;
      }
    }

    method MarkForwarded(id: nat, forwarded: bool) returns (ok: bool)
      requires Valid()
      modifies inbox
      ensures Valid() && (State(), ok) == SetForwarded(old(State()), id, forwarded)
    {
      if id == 0 { return false; }
      var k := FindSlot(id);
      if k == inboxFilled { return false; }
      inbox[k] := inbox[k].(entry := inbox[k].entry.(forwarded := forwarded));
      ok := true;
    }

    method Delete(id: nat) returns (ok: bool)
      requires Valid()
      modifies inbox
      ensures Valid() && (State(), ok) == DeleteReceived(old(State()), id)
    {
      if id == 0 { return false; }
      var k := FindSlot(id);
      if k == inboxFilled { return false; }
      inbox[k] := HOLE;
      ok := true;
    }

    method ReceivedCount() returns (count: nat)
      requires Valid()
      ensures count == |Entries(State())|
    {
      count := CountLive();
      LiveInMemoryOrder(inbox[..], inboxHead, inboxFilled);
    }

    method CountLive() returns (count: nat)
      requires Valid()
      ensures count == |Live(inbox[..inboxFilled])|
    {
      count := 0;
      for i := 0 to inboxFilled
        invariant count == |Live(inbox[..i])|
      {
        assert inbox[..i + 1] == inbox[..i] + [inbox[i]];
        LiveOne(inbox[..i], inbox[i]);
        if !inbox[i].deleted { count := count + 1; }
      }
    }

    // Newest first: place `index` counted from the end of the list.
    method GetReceivedNewest(index: nat) returns (found: bool, entry: InboxEntry)
      requires Valid()
      ensures found == (index < |Entries(State())|)
      ensures found ==> entry == Entries(State())[|Entries(State())| - 1 - index]
    {
      hide Live, Ring, Ascending, SentAscending;
      ghost var ring := Inbox(State());
      entry := NO_ENTRY;
      var seen: nat, k: nat := 0, 0;
      ReadStart(inbox[..], inboxHead, inboxFilled);
      while k < inboxFilled
        invariant k <= inboxFilled && seen <= index && IsRead(ring, inboxFilled - k, seen)
        decreases inboxFilled - k
      {
        NewestPhysical(inbox[..], inboxHead, inboxFilled, k);
        ReadStep(ring, inboxFilled - k, seen);
        var physical := (inboxHead + INBOX_CAPACITY - 1 - k) % INBOX_CAPACITY;
        if !inbox[physical].deleted {
          if seen == index { return true, inbox[physical].entry; }
          seen := seen + 1;
        }
        k := k + 1;
      }
      ReadEnd(ring, seen);
      found := false;
    }

    method GetReceivedById(id: nat) returns (found: bool, entry: InboxEntry)
      requires Valid()
      ensures found <==> id > 0 && exists e :: e in Entries(State()) && e.id == id
      ensures found ==> entry in Entries(State()) && entry.id == id
      ensures var k := Find(inbox[..], id, inboxFilled);
              found == (id > 0 && k < inboxFilled) && (found ==> entry == inbox[k].entry)
    {
      entry := NO_ENTRY;
      if id == 0 { return false, entry; }
      var k := FindSlot(id);
      if k == inboxFilled {
        NotFound(State(), id);
        return false, entry;
      }
      SlotIsListed(State(), k);
      return true, inbox[k].entry;
    }
  }

  // ----- memory order against age order -----

  // The newest `seen` entries of the list are those outside the first m slots of the ring.
  ghost predicate IsRead(ring: seq<InboxSlot>, m: nat, seen: nat) {
    && m <= |ring| && seen <= |Live(ring)|
    && Live(ring[..m]) == Live(ring)[..|Live(ring)| - seen]
  }

  lemma {:induction false} ReadStart(slots: seq<InboxSlot>, head: nat, filled: nat)
    requires RingShape(|slots|, head, filled)
    ensures |Ring(slots, head, filled)| == filled && IsRead(Ring(slots, head, filled), filled, 0)
  {
    var ring := Ring(slots, head, filled);
    assert |ring| == filled;
    assert ring[..filled] == ring;
  }

  lemma {:induction false} ReadStep(ring: seq<InboxSlot>, m: nat, seen: nat)
    requires IsRead(ring, m, seen) && m > 0
    ensures if ring[m - 1].deleted then IsRead(ring, m - 1, seen)
            else seen < |Live(ring)| && Live(ring)[|Live(ring)| - 1 - seen] == ring[m - 1].entry && IsRead(ring, m - 1, seen + 1)
  {
    hide Live;
    assert ring[..m] == ring[..m - 1] + [ring[m - 1]];
    LiveOne(ring[..m - 1], ring[m - 1]);
    if ring[m - 1].deleted {
      assert Live(ring[..m - 1]) + [] == Live(ring[..m - 1]);
    } else {
      var all, fewer := Live(ring), Live(ring[..m - 1]);
      assert all[..|all| - seen] == fewer + [ring[m - 1].entry];
      assert all[..|all| - seen][|fewer|] == ring[m - 1].entry;
      assert all[..|all| - (seen + 1)] == all[..|all| - seen][..|fewer|];
    }
  }

  lemma {:induction false} ReadEnd(ring: seq<InboxSlot>, seen: nat)
    requires IsRead(ring, 0, seen)
    ensures seen == |Live(ring)|
  {
    assert ring[..0] == [];
  }

  // The k-th newest slot is where the source looks for it.
  lemma {:induction false} NewestPhysical(slots: seq<InboxSlot>, head: nat, filled: nat, k: nat)
    requires |slots| == INBOX_CAPACITY && RingShape(INBOX_CAPACITY, head, filled) && k < filled
    ensures var physical := (head + INBOX_CAPACITY - 1 - k) % INBOX_CAPACITY;
            |Ring(slots, head, filled)| == filled && slots[physical] == Ring(slots, head, filled)[filled - 1 - k]
  {
    var physical := (head + INBOX_CAPACITY - 1 - k) % INBOX_CAPACITY;
    if head + INBOX_CAPACITY - 1 - k >= INBOX_CAPACITY {
      assert physical == head - 1 - k;
    } else {
      assert physical == head + INBOX_CAPACITY - 1 - k;
    }
  }

  // Counting the live slots in memory order counts the list.
  lemma {:induction false} LiveInMemoryOrder(slots: seq<InboxSlot>, head: nat, filled: nat)
    requires |slots| == INBOX_CAPACITY && RingShape(INBOX_CAPACITY, head, filled)
    ensures |Live(slots[..filled])| == |Live(Ring(slots, head, filled))|
  {
    if filled == INBOX_CAPACITY {
      assert slots[..filled] == slots[..head] + slots[head..];
      LiveAppends(slots[..head], slots[head..]);
      LiveAppends(slots[head..], slots[..head]);
    }
  }
}
