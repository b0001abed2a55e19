// The class ConcatAssembler of core/src/pdu.cpp: five slots, updated in place.
module Assembler {
  import opened Text
  import opened Concat

  class ConcatAssembler {
    const slots: array<Slot>
    var emitted: seq<Emission>     // what the emit callback was given, in order
    var observed: seq<Notice>      // what the observe callback was given, in order

    ghost predicate Valid()
      reads this, slots
    {
      slots.Length == SLOTS && WellSized(slots[..])
    }

    constructor ()
      ensures Valid() && fresh(slots)
      ensures slots[..] == EMPTY && emitted == [] && observed == []
    {
      slots := new Slot[SLOTS](_ => CLEARED);
      emitted := [];
      observed := [];
    }

    method AssembleSlot(slot: Slot) returns (text: Bytes)
      requires |slot.parts| == PARTS
      ensures text == Assemble(slot)
      ensures Tells(slot, text)
    {
      text := "";
      var i := 0;
      ghost var pieces := Pieces(slot.parts[..Width(slot)]);
      while i < slot.total && i < PARTS
        invariant 0 <= i <= |pieces|
        invariant text == Join(pieces[..i])
      {
        assert pieces[..i + 1] == pieces[..i] + [pieces[i]];
        JoinOne(pieces[..i], pieces[i]);
        if slot.parts[i].Present? {
          text := text + slot.parts[i].text;
        } else {
          text := text + GapMarker(i + 1);
        }
        i := i + 1;
      }
      assert pieces[..i] == pieces;
      ghost var shown := AssembleShows(slot);
    }

    method FindSlot(key: Key, nowUs: int) returns (k: nat)
      requires Valid()
      modifies slots, `emitted, `observed
      ensures Valid()
      ensures k == FindStep(old(slots[..]), key, nowUs).index
      ensures slots[..] == FindStep(old(slots[..]), key, nowUs).slots
      ensures emitted == old(emitted) + AllEmissions(FindStep(old(slots[..]), key, nowUs).events)
      ensures observed == old(observed) + AllNotices(FindStep(old(slots[..]), key, nowUs).events)
    {
      hide AllEmissions, AllNotices, TextOf;
      NothingLogged();
      ghost var found := FindStep(slots[..], key, nowUs);
      k := FirstHolding(key);
      if k < SLOTS { return; }
      k := FirstReusable(nowUs);
      if k < SLOTS {
        OnlyOne(Reclaimed(slots[k]));
        slots[k] := Opened(key, nowUs);
        assert slots[..] == found.slots;
        return;
      }
      k := EvictOldest(key, nowUs);
    }

    method EvictOldest(key: Key, nowUs: int) returns (k: nat)
      requires Valid()
      modifies slots, `emitted, `observed
      ensures Valid()
      ensures k == Oldest(old(slots[..])) && slots[..] == old(slots[..])[k := Opened(key, nowUs)]
      ensures emitted == old(emitted) + AllEmissions([Evicted(old(slots[..])[k])])
      ensures observed == old(observed) + AllNotices([Evicted(old(slots[..])[k])])
    {
      hide AllEmissions, AllNotices, Tells, Assemble;
      k := OldestSlot();
      var slot := slots[k];
      var partial := AssembleSlot(slot);
      if partial != "" {
        observed := observed + [Notice(SlotEvicted, slot.reference, 0, slot.received, slot.total)];
        emitted := emitted + [Emission(slot.sender, partial, slot.timestamp)];
      }
      OnlyOne(Evicted(slot));
      slots[k] := Opened(key, nowUs);
    }

    method FirstHolding(key: Key) returns (k: nat)
      requires Valid()
      ensures k == Concat.FirstHolding(slots[..], key)
    {
      k := 0;
      while k < SLOTS && !slots[k].Holds(key)
        invariant k <= SLOTS
        invariant forall j :: 0 <= j < k ==> !slots[j].Holds(key)
      {
        k := k + 1;
      }
    }

    method FirstReusable(nowUs: int) returns (k: nat)
      requires Valid()
      ensures k == Concat.FirstReusable(slots[..], nowUs)
    {
      k := 0;
      while k < SLOTS && !slots[k].Reusable(nowUs)
        invariant k <= SLOTS
        invariant forall j :: 0 <= j < k ==> !slots[j].Reusable(nowUs)
      {
        k := k + 1;
      }
    }

    method OldestSlot() returns (k: nat)
      requires Valid()
      ensures k == Oldest(slots[..])
    {
      k := 0;
      for i := 1 to SLOTS
        invariant IsOldest(slots[..i], k)
      {
        if slots[i].lastUs < slots[k].lastUs { k := i; }
      }
      assert slots[..SLOTS] == slots[..];
    }

    // Store the part unless its place is taken.
    method Take(k: nat, sms: Sms, nowUs: int)
      requires Valid() && k < SLOTS && sms.IsPart()
      modifies slots, `observed
      ensures Valid()
      ensures slots[..] == old(slots[..])[k := Offer(old(slots[k]), sms, nowUs)]
      ensures observed == old(observed) + AllNotices(StoreEvents(old(slots[k]), sms))
    {
      var i := sms.part - 1;
      if slots[k].parts[i].Missing? {
        slots[k] := slots[k].(parts := slots[k].parts[i := Present(sms.text)],
                              received := slots[k].received + 1, lastUs := nowUs);
        if slots[k].timestamp == "" {
          slots[k] := slots[k].(timestamp := sms.timestamp);
        }
        observed := observed + [Notice(PartReceived, sms.reference, sms.part, slots[k].received, sms.total)];
        OnlyOne(Stored(sms, slots[k].received));
      }
    }

    // Hand out the message once it is whole.
    method Settle(k: nat)
      requires Valid() && k < SLOTS
      modifies slots, `emitted
      ensures Valid()
      ensures slots[..] == old(slots[..])[k := Settled(old(slots[k]))]
      ensures emitted == old(emitted) + AllEmissions(SettleEvents(old(slots[k])))
    {
      hide Tells, Assemble;
      if slots[k].received >= slots[k].total {
        OnlyOne(Completed(slots[k]));
        var full := AssembleSlot(slots[k]);
        emitted := emitted + [Emission(slots[k].sender, full, slots[k].timestamp)];
        slots[k] := CLEARED;
      }
    }

    method FeedPart(sms: Sms, nowUs: int)
      requires Valid() && sms.IsPart()
      modifies slots, `emitted, `observed
      ensures Valid()
      ensures slots[..] == FeedStep(old(slots[..]), sms, nowUs).slots
      ensures emitted == old(emitted) + AllEmissions(FeedStep(old(slots[..]), sms, nowUs).events)
      ensures observed == old(observed) + AllNotices(FeedStep(old(slots[..]), sms, nowUs).events)
    {
      ghost var before, e, o := slots[..], emitted, observed;
      ghost var found := FindStep(before, sms.KeyOf(), nowUs);
      ghost var slot := found.slots[found.index];
      ghost var settled := AllEmissions(SettleEvents(Offer(slot, sms, nowUs)));
      FeedLog(before, sms, nowUs);
      var k := FindSlot(sms.KeyOf(), nowUs);
      Take(k, sms, nowUs);
      Settle(k);
      Associative(e, AllEmissions(found.events), settled);
      Associative(o, AllNotices(found.events), AllNotices(StoreEvents(slot, sms)));
    }

    method Feed(sms: Sms, nowUs: int)
      requires Valid()
      modifies slots, `emitted, `observed
      ensures Valid()
      ensures slots[..] == FeedStep(old(slots[..]), sms, nowUs).slots
      ensures emitted == old(emitted) + AllEmissions(FeedStep(old(slots[..]), sms, nowUs).events)
      ensures observed == old(observed) + AllNotices(FeedStep(old(slots[..]), sms, nowUs).events)
    {
      if sms.total > 1 && sms.part > 0 {
        if sms.total > PARTS || sms.part > sms.total {
          observed := observed + [Notice(InvalidPart, sms.reference, sms.part, 1, sms.total)];
          emitted := emitted + [Emission(sms.sender, sms.text, sms.timestamp)];
          OnlyOne(Rejected(sms));
          return;
        }
        FeedPart(sms, nowUs);
        return;
      }
      emitted := emitted + [Emission(sms.sender, sms.text, sms.timestamp)];
      OnlyOne(Passed(sms));
    }

    method ExpireSlot(i: nat, nowUs: int)
      requires Valid() && i < SLOTS
      modifies slots, `emitted, `observed
      ensures Valid()
      ensures if Due(old(slots[i]), nowUs)
              then slots[..] == old(slots[..])[i := CLEARED]
                && emitted == old(emitted) + Emissions(Expired(old(slots[i])))
                && observed == old(observed) + Notices(Expired(old(slots[i])))
              else slots[..] == old(slots[..]) && emitted == old(emitted) && observed == old(observed)
    {
      hide Tells, Assemble;
      if !slots[i].active || nowUs - slots[i].lastUs <= TIMEOUT_US { return; }
      var slot := slots[i];
      var full := AssembleSlot(slot);
      if full != "" {
        observed := observed + [Notice(TimedOut, slot.reference, 0, slot.received, slot.total)];
        emitted := emitted + [Emission(slot.sender, full, slot.timestamp)];
      }
      slots[i] := CLEARED;
    }

    method Expire(nowUs: int)
      requires Valid()
      modifies slots, `emitted, `observed
      ensures Valid()
      ensures slots[..] == ExpireStep(old(slots[..]), nowUs).slots
      ensures emitted == old(emitted) + AllEmissions(ExpireStep(old(slots[..]), nowUs).events)
      ensures observed == old(observed) + AllNotices(ExpireStep(old(slots[..]), nowUs).events)
    {
      ghost var before := slots[..];
      for i := 0 to SLOTS
        invariant Valid()
        invariant slots[..] == ExpireFirst(before, nowUs, i).slots
        invariant emitted == old(emitted) + AllEmissions(ExpireFirst(before, nowUs, i).events)
        invariant observed == old(observed) + AllNotices(ExpireFirst(before, nowUs, i).events)
      {
        OneMore(ExpireFirst(before, nowUs, i).events, Expired(slots[i]));
        ExpireSlot(i, nowUs);
      }
    }
  }
}
