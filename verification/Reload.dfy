// Loading the inbox back from flash at start-up: load_inbox_from_flash of
// ports/esp-idf/components/idf_inbox/idf_inbox.cpp, and what survives a restart.
module Reload {
  import opened Text
  import opened Store
  import opened Lines
  import opened Blob
  import opened Nvs

  // ----- entries by age -----

  predicate Rising(entries: seq<InboxEntry>) {
    forall i, j :: 0 <= i < j < |entries| ==> entries[i].id < entries[j].id
  }

  function Members(entries: seq<InboxEntry>): set<InboxEntry> {
    set e | e in entries
  }

  // No two of the entries have the same id.
  predicate Unique(entries: set<InboxEntry>) {
    forall a, b :: a in entries && b in entries && a.id == b.id ==> a == b
  }

  ghost predicate IsOldest(entries: set<InboxEntry>, e: InboxEntry) {
    e in entries && forall x :: x in entries ==> e.id <= x.id
  }

  lemma {:induction false} OldestExists(entries: set<InboxEntry>)
    requires entries != {}
    ensures exists e :: IsOldest(entries, e)
  {
    var e :| e in entries;
    if entries == {e} {
      assert IsOldest(entries, e);
    } else {
      OldestExists(entries - {e});
      var other :| IsOldest(entries - {e}, other);
      assert forall x :: x in entries ==> x == e || x in entries - {e};
      assert IsOldest(entries, if other.id < e.id then other else e);
    }
  }

  ghost function Oldest(entries: set<InboxEntry>): (e: InboxEntry)
    requires entries != {}
    ensures IsOldest(entries, e)
  {
    OldestExists(entries);
    var e :| IsOldest(entries, e); e
  }

  ghost function ByAge(entries: set<InboxEntry>): seq<InboxEntry> {
    if entries == {} then [] else [Oldest(entries)] + ByAge(entries - {Oldest(entries)})
  }

  lemma {:induction false} FirstIsOldest(list: seq<InboxEntry>)
    requires Rising(list) && list != []
    ensures list[0] in Members(list) && Oldest(Members(list)) == list[0]
  {
    assert list[0] in Members(list);
    var oldest := Oldest(Members(list));
    var i :| 0 <= i < |list| && list[i] == oldest;
  }

  lemma {:induction false} RestOfMembers(list: seq<InboxEntry>)
    requires Rising(list) && list != []
    ensures Members(list[1..]) == Members(list) - {list[0]}
  {
    assert list == [list[0]] + list[1..];
    assert list[0] !in list[1..];
  }

  // A rising list of the entries is the list by age.
  lemma {:induction false} ByAgeIsTheRisingList(list: seq<InboxEntry>)
    requires Rising(list)
    ensures ByAge(Members(list)) == list
  {
    if list == [] {
      assert Members(list) == {};
    } else {
      hide ByAge, Members, Rising;
      RestRises(list);
      FirstIsOldest(list);
      RestOfMembers(list);
      ByAgeIsTheRisingList(list[1..]);
      ByAgeStep(Members(list), list[0]);
      assert list == [list[0]] + list[1..];
    }
  }

  lemma {:induction false} RestRises(list: seq<InboxEntry>)
    requires Rising(list) && list != []
    ensures Rising(list[1..])
  {
  }

  lemma {:induction false} ByAgeStep(entries: set<InboxEntry>, e: InboxEntry)
    requires e in entries && Oldest(entries) == e
    ensures ByAge(entries) == [e] + ByAge(entries - {e})
  {
  }

  lemma {:induction false} RisingCons(first: InboxEntry, list: seq<InboxEntry>)
    requires Rising(list) && forall e :: e in list ==> first.id < e.id
    ensures Rising([first] + list) && Members([first] + list) == {first} + Members(list)
  {
  }

  lemma {:induction false} OldestIsBelow(entries: set<InboxEntry>, e: InboxEntry)
    requires Unique(entries) && e in entries && e != Oldest(entries)
    ensures Oldest(entries).id < e.id
  {
  }

  lemma {:induction false} ByAgeRises(entries: set<InboxEntry>)
    requires Unique(entries)
    ensures Rising(ByAge(entries)) && Members(ByAge(entries)) == entries
  {
    if entries != {} {
      var first, rest := Oldest(entries), entries - {Oldest(entries)};
      RestIsUnique(entries, rest);
      ByAgeRises(rest);
      forall e | e in ByAge(rest) ensures first.id < e.id {
        assert e in Members(ByAge(rest));
        OldestIsBelow(entries, e);
      }
      hide Rising, IsOldest, Unique;
      RisingCons(first, ByAge(rest));
    }
  }

  lemma {:induction false} RestIsUnique(entries: set<InboxEntry>, rest: set<InboxEntry>)
    requires Unique(entries) && rest <= entries
    ensures Unique(rest)
  {
  }

  // ----- what a start-up brings back -----

  // Every readable blob lies under the key of its own id.
  predicate Keyed(flash: Flash) {
    forall key :: key in flash && Readable(flash[key]).Some? ==> key == Key(Readable(flash[key]).value.id)
  }

  function Good(flash: Flash): set<InboxEntry> {
    set key | key in flash && Readable(flash[key]).Some? :: Readable(flash[key]).value
  }

  function Newest(entries: seq<InboxEntry>): seq<InboxEntry> {
    if |entries| > INBOX_CAPACITY then entries[|entries| - INBOX_CAPACITY..] else entries
  }

  // The last fifty of them.
  lemma {:induction false} NewestIs(entries: seq<InboxEntry>)
    ensures |Newest(entries)| == (if |entries| < 50 then |entries| else 50)
    ensures entries[|entries| - |Newest(entries)|..] == Newest(entries)
  {
  }

  function RestoreAll(s: State, entries: seq<InboxEntry>): (r: State)
    requires Shaped(s)
    ensures Shaped(r)
  {
    if entries == [] then s
    else InsertReceived(RestoreAll(s, entries[..|entries| - 1]), entries[|entries| - 1], true).0
  }

  ghost function KeysOf(flash: Flash, entries: seq<InboxEntry>): Flash {
    map key | key in flash && HasKey(entries, key) :: flash[key]
  }

  ghost function Reloaded(flash: Flash): Device {
    var list := Newest(ByAge(Good(flash)));
    Device(RestoreAll(EMPTY, list), KeysOf(flash, list))
  }

  // ----- restoring into an empty store lists just what was restored -----

  predicate Restorable(entries: seq<InboxEntry>) {
    |entries| <= INBOX_CAPACITY && Rising(entries) && forall e :: e in entries ==> 0 < e.id < UINT32
  }

  // The store holds just this list.
  ghost predicate Lists(s: State, entries: seq<InboxEntry>) {
    && Inv(s) && Entries(s) == entries && s.inboxFilled == |entries|
    && s.inboxSeq == if entries == [] then 0 else entries[|entries| - 1].id
  }

  lemma NothingListed()
    ensures Lists(RestoreAll(EMPTY, []), [])
  {
    EmptyOk();
  }

  lemma {:induction false} ListsOneMore(s: State, entries: seq<InboxEntry>, e: InboxEntry)
    requires Lists(s, entries) && |entries| < INBOX_CAPACITY && s.inboxSeq < e.id < UINT32
    ensures Lists(InsertReceived(s, e, true).0, entries + [e])
  {
    FewSlots(s);
    hide Inv, Entries, Inbox;
    AddAppends(s, e, true);
    FreshAbove(s, e);
    InsertKeeps(s, e, true);
  }

  lemma {:induction false} FewSlots(s: State)
    requires Shaped(s) && s.inboxFilled < INBOX_CAPACITY
    ensures |Inbox(s)| == s.inboxFilled
  {
  }

  lemma {:induction false} RestorableButLast(entries: seq<InboxEntry>)
    requires Restorable(entries) && entries != []
    ensures var n := |entries| - 1;
            && Restorable(entries[..n]) && n < INBOX_CAPACITY && 0 < entries[n].id < UINT32
            && (n > 0 ==> entries[n - 1].id < entries[n].id)
  {
    var n := |entries| - 1;
    forall e | e in entries[..n] ensures e in entries {}
    assert entries[n] in entries;
  }

  lemma {:induction false} RestoreLists(entries: seq<InboxEntry>)
    requires Restorable(entries)
    ensures Lists(RestoreAll(EMPTY, entries), entries)
  {
    hide Restorable, Inv, Entries, InsertReceived;
    if entries == [] {
      NothingListed();
    } else {
      var n := |entries| - 1;
      RestorableButLast(entries);
      RestoreLists(entries[..n]);
      ListsOneMore(RestoreAll(EMPTY, entries[..n]), entries[..n], entries[n]);
      assert entries == entries[..n] + [entries[n]];
    }
  }

  // ----- a blob that was read fits, and reads the same when it is written again -----

  lemma {:induction false} ReadBounds(blob: Bytes)
    requires Readable(blob).Some?
    ensures var e := Readable(blob).value; Fits(e) && Kept(e) == e && Readable(EntryBlob(e)) == Some(e)
  {
    var e := Readable(blob).value;
    ReadSizes(blob);
    BlobLength(e);
    EntryRoundTrip(e);
  }

  lemma {:induction false} StepU8(r: Reader)
    ensures var (v, after) := GetU8(r);
            && v < 256 && after.data == r.data && (after.ok ==> r.ok)
            && (after.ok && r.i <= |r.data| ==> r.i + 1 == after.i <= |r.data|)
  {
  }

  lemma {:induction false} StepU16(r: Reader)
    ensures var (v, after) := GetU16(r);
            && v < 0x1_0000 && after.data == r.data && (after.ok ==> r.ok)
            && (after.ok && r.i <= |r.data| ==> r.i + 2 == after.i <= |r.data|)
  {
    hide GetU8;
    StepU8(r);
    StepU8(GetU8(r).1);
  }

  lemma {:induction false} StepU32(r: Reader)
    ensures var (v, after) := GetU32(r);
            && v < UINT32 && after.data == r.data && (after.ok ==> r.ok)
            && (after.ok && r.i <= |r.data| ==> r.i + 4 == after.i <= |r.data|)
  {
    hide GetU16;
    StepU16(r);
    StepU16(GetU16(r).1);
  }

  lemma {:induction false} StepShort(r: Reader)
    ensures var (t, after) := GetShort(r);
            && |t| <= 0xFF && after.data == r.data && (after.ok ==> r.ok)
            && (after.ok && r.i <= |r.data| ==> r.i + 1 + |t| == after.i <= |r.data|)
  {
    StepU8(r);
  }

  lemma {:induction false} StepLong(r: Reader)
    ensures var (t, after) := GetLong(r);
            && |t| <= 0xFFFF && after.data == r.data && (after.ok ==> r.ok)
            && (after.ok && r.i <= |r.data| ==> r.i + 2 + |t| == after.i <= |r.data|)
  {
    hide GetU8;
    StepU16(r);
  }

  lemma {:induction false} ReadSizes(blob: Bytes)
    requires ReadEntry(blob).Some?
    ensures var e := ReadEntry(blob).value;
            && 0 < e.id < UINT32 && e.recvEpoch < UINT32
            && |e.sender| <= 0xFF && |e.ts| <= 0xFF && |e.text| <= 0xFFFF
            && 14 + |e.sender| + |e.ts| + |e.text| <= |blob|
  {
    hide GetU8, GetU16, GetU32, GetShort, GetLong;
    var r0 := Reader(blob, 0, true);
    var r1 := GetU8(r0).1;
    var r2 := GetU8(r1).1;
    var r3 := GetU32(r2).1;
    var r4 := GetU32(r3).1;
    var r5 := GetShort(r4).1;
    var r6 := GetShort(r5).1;
    StepU8(r0);
    StepU8(r1);
    StepU32(r2);
    StepU32(r3);
    StepShort(r4);
    StepShort(r5);
    StepLong(r6);
  }

  // ----- after any start-up flash and RAM agree -----

  lemma {:induction false} GoodHasKey(flash: Flash, e: InboxEntry)
    requires Keyed(flash) && e in Good(flash)
    ensures Fits(e) && OnFlash(flash, e) && Kept(e) == e
  {
    var key :| key in flash && Readable(flash[key]).Some? && Readable(flash[key]).value == e;
    ReadBounds(flash[key]);
  }

  lemma {:induction false} GoodIsUnique(flash: Flash)
    requires Keyed(flash)
    ensures Unique(Good(flash))
  {
    hide Readable, Kept, EntryBlob;
    forall a, b | a in Good(flash) && b in Good(flash) && a.id == b.id ensures a == b {
      GoodHasKey(flash, a);
      GoodHasKey(flash, b);
    }
  }

  // The list that a start-up restores.
  ghost predicate Recovered(flash: Flash, list: seq<InboxEntry>) {
    && list == Newest(ByAge(Good(flash)))
    && Restorable(list)
    && forall e :: e in list ==> Fits(e) && OnFlash(flash, e)
  }

  lemma {:induction false} NewestRises(all: seq<InboxEntry>)
    requires Rising(all)
    ensures Rising(Newest(all)) && |Newest(all)| <= INBOX_CAPACITY && forall e :: e in Newest(all) ==> e in all
  {
  }

  lemma {:induction false} RecoveredIs(flash: Flash)
    requires Keyed(flash)
    ensures Recovered(flash, Newest(ByAge(Good(flash))))
  {
    hide Good, ByAge, OnFlash, Fits, Keyed, Newest, Rising;
    var all := ByAge(Good(flash));
    GoodIsUnique(flash);
    ByAgeRises(Good(flash));
    NewestRises(all);
    forall e | e in Newest(all) ensures 0 < e.id < UINT32 && Fits(e) && OnFlash(flash, e) {
      assert e in Members(all);
      GoodHasKey(flash, e);
      FitsMeans(e);
    }
  }

  lemma {:induction false} KeysInStep(flash: Flash, list: seq<InboxEntry>)
    requires forall e :: e in list ==> Fits(e) && OnFlash(flash, e)
    ensures InStep(list, KeysOf(flash, list))
  {
    hide Fits, Readable, Kept, Key;
    forall e | e in list ensures OnFlash(KeysOf(flash, list), e) {
      assert HasKey(list, Key(e.id));
    }
  }

  lemma {:induction false} ReloadAgrees(flash: Flash)
    requires Keyed(flash)
    ensures Agree(Reloaded(flash))
    ensures Entries(Reloaded(flash).store) == Newest(ByAge(Good(flash)))
  {
    hide ByAge, Good, Newest, RestoreAll, Inv, Entries, InStep, KeysOf, Restorable;
    var list := Newest(ByAge(Good(flash)));
    RecoveredIs(flash);
    RestoreLists(list);
    KeysInStep(flash, list);
  }

  lemma {:induction false} FitsMeans(e: InboxEntry)
    requires Fits(e)
    ensures 0 < e.id < UINT32
  {
  }

  // ----- a restart keeps the list -----

  function KeptAll(entries: seq<InboxEntry>): seq<InboxEntry> {
    if entries == [] then [] else KeptAll(entries[..|entries| - 1]) + [Kept(entries[|entries| - 1])]
  }

  lemma {:induction false} KeptAt(entries: seq<InboxEntry>)
    ensures |KeptAll(entries)| == |entries|
    ensures forall i :: 0 <= i < |entries| ==> KeptAll(entries)[i] == Kept(entries[i])
  {
    if entries != [] { KeptAt(entries[..|entries| - 1]); }
  }

  predicate Short(e: InboxEntry) {
    |e.sender| <= 0xFF && |e.ts| <= 0xFF
  }

  lemma {:induction false} FittingTextIsKept(e: InboxEntry)
    requires Fits(e)
    ensures Kept(e) == e <==> Short(e)
  {
    BlobLength(e);
  }

  lemma {:induction false} KeyHoldsKept(entries: seq<InboxEntry>, flash: Flash, key: Bytes)
    requires InStep(entries, flash) && key in flash
    ensures Readable(flash[key]).Some? && key == Key(Readable(flash[key]).value.id)
    ensures Readable(flash[key]).value in KeptAll(entries)
  {
    hide Key, Readable, Fits;
    KeptAt(entries);
    var e :| e in entries && key == Key(e.id);
    var i :| 0 <= i < |entries| && entries[i] == e;
    assert KeptAll(entries)[i] == Kept(e);
  }

  lemma {:induction false} KeptIsGood(entries: seq<InboxEntry>, flash: Flash, i: nat)
    requires InStep(entries, flash) && i < |entries|
    ensures |KeptAll(entries)| == |entries| && KeptAll(entries)[i] in Good(flash)
  {
    hide Key, Readable, Fits;
    KeptAt(entries);
    assert OnFlash(flash, entries[i]);
  }

  lemma {:induction false} AgreeIsKeyed(entries: seq<InboxEntry>, flash: Flash)
    requires InStep(entries, flash)
    ensures Keyed(flash) && Good(flash) == Members(KeptAll(entries))
  {
    hide InStep, Key, Readable, KeptAll;
    forall key | key in flash ensures Readable(flash[key]).Some? && key == Key(Readable(flash[key]).value.id)
                                      && Readable(flash[key]).value in KeptAll(entries) {
      KeyHoldsKept(entries, flash, key);
    }
    KeptLength(entries);
    forall e | e in KeptAll(entries) ensures e in Good(flash) {
      var i :| 0 <= i < |entries| && KeptAll(entries)[i] == e;
      KeptIsGood(entries, flash, i);
    }
  }

  lemma {:induction false} KeptLength(entries: seq<InboxEntry>)
    ensures |KeptAll(entries)| == |entries|
  {
    KeptAt(entries);
  }

  lemma {:induction false} KeptAllIsSame(entries: seq<InboxEntry>)
    requires forall e :: e in entries ==> Fits(e)
    ensures KeptAll(entries) == entries <==> forall e :: e in entries ==> Short(e)
  {
    KeptAt(entries);
    hide Fits, Kept, Short, KeptAll;
    if forall e :: e in entries ==> Short(e) {
      forall i | 0 <= i < |entries| ensures KeptAll(entries)[i] == entries[i] {
        assert entries[i] in entries;
        FittingTextIsKept(entries[i]);
      }
    } else {
      var i :| 0 <= i < |entries| && !Short(entries[i]);
      FittingTextIsKept(entries[i]);
      assert KeptAll(entries)[i] != entries[i];
    }
  }

  lemma {:induction false} KeptAllRises(entries: seq<InboxEntry>)
    requires Rising(entries)
    ensures Rising(KeptAll(entries))
  {
    KeptAt(entries);
  }

  // Clearing RAM and loading again gives the same list, oldest to newest, with flash unchanged. An
  // entry whose sender or timestamp is past 255 bytes comes back clipped, and only such an entry
  // differs. Holes are gone, and the sequence counter is the newest id that is still listed.
  lemma {:induction false} ReloadKeepsList(d: Device)
    requires Agree(d)
    ensures var after := Reloaded(d.flash);
            && Agree(after) && after.flash == d.flash
            && Entries(after.store) == KeptAll(Entries(d.store))
            && (Entries(after.store) == Entries(d.store) <==> forall e :: e in Entries(d.store) ==> Short(e))
            && after.store.inboxFilled == |Entries(d.store)|
            && after.store.inboxSeq == (if Entries(d.store) == [] then 0 else Entries(d.store)[|Entries(d.store)| - 1].id)
            && after.store.inboxSeq <= d.store.inboxSeq
  {
    hide Agree, Entries, Inv, InStep, Reloaded, ByAge, Good, Newest, KeptAll, Rising, KeysOf, Short, Fits;
    ListShape(d);
    var entries := Entries(d.store);
    AgreeIsKeyed(entries, d.flash);
    ReloadAgrees(d.flash);
    ReloadedList(entries, d.flash);
    ReloadedState(d.flash);
    KeptAllIsSame(entries);
  }

  lemma {:induction false} ListShape(d: Device)
    requires Agree(d)
    ensures Shaped(d.store) && InStep(Entries(d.store), d.flash)
    ensures var entries := Entries(d.store);
            && Rising(entries) && |entries| <= INBOX_CAPACITY
            && (forall e :: e in entries ==> Fits(e))
            && (if entries == [] then 0 else entries[|entries| - 1].id) <= d.store.inboxSeq
  {
    EntriesAscend(d.store);
    LiveBound(Inbox(d.store));
  }

  lemma {:induction false} ReloadedList(entries: seq<InboxEntry>, flash: Flash)
    requires InStep(entries, flash) && Rising(entries) && |entries| <= INBOX_CAPACITY
    ensures Newest(ByAge(Good(flash))) == KeptAll(entries) && |KeptAll(entries)| == |entries|
    ensures KeysOf(flash, KeptAll(entries)) == flash
    ensures entries != [] ==> KeptAll(entries)[|entries| - 1].id == entries[|entries| - 1].id
  {
    hide InStep, ByAge, Good, KeptAll, Rising, KeysOf;
    AgreeIsKeyed(entries, flash);
    KeptAllRises(entries);
    ByAgeIsTheRisingList(KeptAll(entries));
    KeptAt(entries);
    SameKeys(entries, flash);
  }

  lemma {:induction false} ReloadedState(flash: Flash)
    requires Keyed(flash)
    ensures var list := Newest(ByAge(Good(flash)));
            var after := Reloaded(flash);
            && after.flash == KeysOf(flash, list)
            && after.store.inboxFilled == |list|
            && after.store.inboxSeq == if list == [] then 0 else list[|list| - 1].id
  {
    hide ByAge, Good, Newest, RestoreAll, Restorable, Inv, Entries;
    RecoveredIs(flash);
    RestoreLists(Newest(ByAge(Good(flash))));
  }

  lemma {:induction false} SameKeys(entries: seq<InboxEntry>, flash: Flash)
    requires InStep(entries, flash)
    ensures KeysOf(flash, KeptAll(entries)) == flash
  {
    var list := KeptAll(entries);
    hide Key, Fits, OnFlash;
    KeptAt(entries);
    forall key | key in flash ensures HasKey(list, key) {
      var e :| e in entries && key == Key(e.id);
      var i :| 0 <= i < |entries| && entries[i] == e;
      assert list[i] == Kept(e);
    }
  }
}
