// The inbox of the ESP port, working in place: the store in RAM, the blobs in flash
// (ports/esp-idf/components/idf_inbox/idf_inbox.cpp). Flash is ready and its writes succeed.
module IdfInboxes {
  import opened Text
  import opened Store
  import opened Lines
  import opened MessageStores
  import Blob
  import opened Nvs
  import opened Reload

  class IdfInbox {
    const store: MessageStore
    var flash: Flash

    ghost function Repr(): set<object> {
      {this, store, store.inbox, store.sent}
    }

    ghost function Device(): Device
      reads Repr()
    {
      Nvs.Device(store.State(), flash)
    }

    ghost predicate Valid()
      reads Repr()
    {
      store.Valid()
    }

    // Start-up over whatever flash holds, its keys met in some order.
    constructor (flash: Flash)
      ensures Valid() && fresh(Repr())
      ensures exists keys :: Listing(keys, flash.Keys) && Device() == Loaded(flash, keys)
      ensures Keyed(flash) ==> Device() == Reloaded(flash) && Agree(Device())
    {
      store := new MessageStore();
      this.flash := flash;
      new;
      ghost var keys := LoadInbox();
      if Keyed(flash) {
        KeyedLoads(flash, keys);
        ReloadAgrees(flash);
      }
    }

    method PersistEntry(e: InboxEntry)
      modifies this`flash
      ensures flash == Persist(old(flash), e)
    {
      flash := flash[Key(e.id) := Blob.EntryBlob(e)];
    }

    method EraseEntry(id: nat)
      modifies this`flash
      ensures flash == Erase(old(flash), id)
    {
      if id == 0 { return; }
      flash := flash - {Key(id)};
    }

    // Looking an id up in the store.
    method Get(id: nat) returns (r: Option<InboxEntry>)
      requires Valid()
      ensures r == Lookup(store.State(), id)
    {
      var found, entry := store.GetReceivedById(id);
      r := if found then Some(entry) else None;
    }

    method Add(sender: Bytes, text: Bytes, ts: Bytes, recvEpoch: nat) returns (id: nat)
      requires Valid()
      modifies Repr()
      ensures Valid() && Device() == Step(old(Device()), Added(sender, text, ts, recvEpoch))
      ensures id == store.inboxSeq == (old(store.inboxSeq) + 1) % UINT32
    {
      hide Utf8Truncate;
      var result := store.AddReceived(sender, text, ts, recvEpoch);
      if result.evictedId != 0 { EraseEntry(result.evictedId); }
      var entry := Get(result.id);
      if entry.Some? { PersistEntry(entry.value); }
      id := result.id;
    }

    method SetForwardedMark(id: nat, forwarded: bool)
      requires Valid()
      modifies Repr()
      ensures Valid() && Device() == Step(old(Device()), Marked(id, forwarded))
    {
      if id == 0 { return; }
      var before := Get(id);
      if before.None? || before.value.forwarded == forwarded { return; }
      var marked := store.MarkForwarded(id, forwarded);
      if !marked { return; }
      var updated := Get(id);
      if updated.Some? { PersistEntry(updated.value); }
    }

    method Delete(id: nat) returns (ok: bool)
      requires Valid()
      modifies Repr()
      ensures Valid() && Device() == Step(old(Device()), Deleted(id))
      ensures ok <==> id > 0 && exists e :: e in old(Entries(store.State())) && e.id == id
    {
      hide Entries;
      if id == 0 { return false; }
      ghost var k := Find(store.inbox[..], id, store.inboxFilled);
      if k < store.inboxFilled { SlotIsListed(store.State(), k); } else { Store.NotFound(store.State(), id); }
      ok := store.Delete(id);
      if ok { EraseEntry(id); }
    }

    // Clearing RAM aside, what a restart does: read every blob, erase the bad ones, sort by id, erase
    // the oldest past the capacity, and put the rest into the store.
    method LoadInbox() returns (ghost keys: seq<Bytes>)
      requires store.State() == EMPTY
      modifies this`flash, store, store.inbox
      ensures Valid() && Listing(keys, old(flash).Keys) && Device() == Loaded(old(flash), keys)
    {
      hide Found, SortedList, Newest, Dropped, RestoreAll, Bad, Listing;
      var items;
      items, keys := ReadBlobs();
      items := SortById(items);
      items := DropOldest(items);
      RestoreItems(items);
    }

    method ReadBlobs() returns (items: seq<InboxEntry>, ghost keys: seq<Bytes>)
      modifies this`flash
      ensures Listing(keys, old(flash).Keys) && items == Found(old(flash), keys)
      ensures flash == old(flash) - Bad(old(flash))
    {
      hide Reading, Bad;
      var rest, bad: set<Bytes> := flash.Keys, {};
      items, keys := [], [];
      ReadNone(flash);
      while rest != {}
        invariant flash == old(flash) && rest <= flash.Keys && Reading(flash, rest, keys, items, bad)
        decreases |rest|
      {
        var key :| key in rest;
        ReadOne(flash, rest, keys, items, bad, key);
        var entry := None;
        if 0 < |flash[key]| < BLOB_LIMIT { entry := Blob.ParseBlob(flash[key]); }
        if entry.Some? { items := items + [entry.value]; } else { bad := bad + {key}; }
        keys := keys + [key];
        rest := rest - {key};
      }
      ReadAll(flash, keys, items, bad);
      flash := flash - bad;
    }

    method DropOldest(items: seq<InboxEntry>) returns (rest: seq<InboxEntry>)
      modifies this`flash
      ensures rest == Newest(items) && |rest| <= |items|
      ensures flash == Dropped(old(flash), items[..|items| - |rest|])
    {
      hide Dropped;
      rest := items;
      DroppedNone(flash);
      assert items[..0] == [];
      while |rest| > INBOX_CAPACITY
        invariant |rest| <= |items| && rest == items[|items| - |rest|..]
        invariant |items| > INBOX_CAPACITY ==> |rest| >= INBOX_CAPACITY
        invariant |items| <= INBOX_CAPACITY ==> rest == items
        invariant flash == Dropped(old(flash), items[..|items| - |rest|])
      {
        var m := |items| - |rest|;
        DroppedOne(old(flash), items[..m], rest[0]);
        assert items[..m] + [rest[0]] == items[..m + 1];
        EraseEntry(rest[0].id);
        rest := rest[1..];
      }
    }

    method RestoreItems(items: seq<InboxEntry>)
      requires store.State() == EMPTY
      modifies store, store.inbox
      ensures store.State() == RestoreAll(EMPTY, items)
    {
      for i := 0 to |items|
        invariant store.State() == RestoreAll(EMPTY, items[..i])
      {
        assert items[..i + 1][..i] == items[..i];
        var r := store.InsertReceivedEntry(items[i], true);
      }
      assert items[..|items|] == items;
    }
  }

  // ----- loading, whatever order the keys are met in -----

  // The keys of the set, each once.
  ghost predicate Listing(keys: seq<Bytes>, all: set<Bytes>) {
    && (forall i, j :: 0 <= i < j < |keys| ==> keys[i] != keys[j])
    && (forall key :: key in keys <==> key in all)
  }

  lemma {:induction false} ListingOne(keys: seq<Bytes>, all: set<Bytes>, key: Bytes)
    requires Listing(keys, all) && key !in all
    ensures Listing(keys + [key], all + {key})
  {
  }

  // The readable entries under these keys, in their order.
  function Found(flash: Flash, keys: seq<Bytes>): seq<InboxEntry>
    requires forall key :: key in keys ==> key in flash
  {
    if keys == [] then []
    else
      var n := |keys| - 1;
      Found(flash, keys[..n]) + match Readable(flash[keys[n]]) case Some(e) => [e] case None => []
  }

  ghost function Bad(flash: Flash): set<Bytes> {
    set key | key in flash && Readable(flash[key]).None?
  }

  lemma {:induction false} FoundOne(flash: Flash, keys: seq<Bytes>, key: Bytes)
    requires (forall k :: k in keys ==> k in flash) && key in flash
    ensures (forall k :: k in keys + [key] ==> k in flash)
    ensures Found(flash, keys + [key]) ==
            Found(flash, keys) + match Readable(flash[key]) case Some(e) => [e] case None => []
  {
    hide Readable;
    assert (keys + [key])[..|keys|] == keys;
  }

  // With the keys in `rest` still to read: the entries found so far, and the keys of bad blobs.
  ghost predicate Reading(flash: Flash, rest: set<Bytes>, keys: seq<Bytes>, items: seq<InboxEntry>, bad: set<Bytes>) {
    && Listing(keys, flash.Keys - rest) && (forall key :: key in keys ==> key in flash)
    && items == Found(flash, keys)
    && bad == set key | key in flash && key !in rest && Readable(flash[key]).None?
  }

  lemma {:induction false} ReadNone(flash: Flash)
    ensures Reading(flash, flash.Keys, [], [], {})
  {
  }

  lemma {:induction false} ReadOne(flash: Flash, rest: set<Bytes>, keys: seq<Bytes>, items: seq<InboxEntry>, bad: set<Bytes>, key: Bytes)
    requires Reading(flash, rest, keys, items, bad) && key in rest && rest <= flash.Keys
    ensures var entry := Readable(flash[key]);
            Reading(flash, rest - {key}, keys + [key], if entry.Some? then items + [entry.value] else items,
                    if entry.Some? then bad else bad + {key})
  {
    hide Readable, Found, Listing;
    FoundOne(flash, keys, key);
    ListingOne(keys, flash.Keys - rest, key);
    assert flash.Keys - (rest - {key}) == flash.Keys - rest + {key};
    if Readable(flash[key]).None? { assert items + [] == items; }
  }

  lemma {:induction false} ReadAll(flash: Flash, keys: seq<Bytes>, items: seq<InboxEntry>, bad: set<Bytes>)
    requires Reading(flash, {}, keys, items, bad)
    ensures Listing(keys, flash.Keys) && (forall key :: key in keys ==> key in flash)
    ensures items == Found(flash, keys) && bad == Bad(flash)
  {
    hide Readable, Found, Listing;
    assert flash.Keys - {} == flash.Keys;
  }

  // Erasing the entries of a list one after the other.
  function Dropped(flash: Flash, entries: seq<InboxEntry>): Flash {
    if entries == [] then flash else Erase(Dropped(flash, entries[..|entries| - 1]), entries[|entries| - 1].id)
  }

  lemma {:induction false} DroppedNone(flash: Flash)
    ensures Dropped(flash, []) == flash
  {
  }

  lemma {:induction false} DroppedOne(flash: Flash, entries: seq<InboxEntry>, e: InboxEntry)
    ensures Dropped(flash, entries + [e]) == Erase(Dropped(flash, entries), e.id)
  {
    assert (entries + [e])[..|entries|] == entries;
  }

  ghost function Loaded(flash: Flash, keys: seq<Bytes>): Device
    requires Listing(keys, flash.Keys)
  {
    var all := SortedList(Found(flash, keys));
    var list := Newest(all);
    Device(RestoreAll(EMPTY, list), Dropped(flash - Bad(flash), all[..|all| - |list|]))
  }

  // ----- flash whose blobs lie under their own keys: the order does not matter -----

  lemma {:induction false} FoundIs(flash: Flash, keys: seq<Bytes>)
    requires (forall key :: key in keys ==> key in flash)
    ensures forall e :: e in Found(flash, keys) <==> exists key :: key in keys && Readable(flash[key]) == Some(e)
  {
    hide Readable;
    if keys != [] {
      var n := |keys| - 1;
      FoundIs(flash, keys[..n]);
      assert keys == keys[..n] + [keys[n]];
    }
  }

  lemma {:induction false} FoundDistinct(flash: Flash, keys: seq<Bytes>)
    requires Keyed(flash) && (forall key :: key in keys ==> key in flash)
    requires forall i, j :: 0 <= i < j < |keys| ==> keys[i] != keys[j]
    ensures Distinct(Found(flash, keys))
  {
    hide Readable, Key;
    if keys != [] {
      var n := |keys| - 1;
      FoundDistinct(flash, keys[..n]);
      FoundIs(flash, keys[..n]);
      if Readable(flash[keys[n]]).Some? {
        var e := Readable(flash[keys[n]]).value;
        forall x | x in Found(flash, keys[..n]) ensures x.id != e.id {
          var key :| key in keys[..n] && Readable(flash[key]) == Some(x);
          assert key != keys[n];
        }
      }
    }
  }

  lemma {:induction false} FoundIsGood(flash: Flash, keys: seq<Bytes>)
    requires Keyed(flash) && Listing(keys, flash.Keys)
    ensures Distinct(Found(flash, keys)) && Members(Found(flash, keys)) == Good(flash)
    ensures flash - Bad(flash) == KeysOf(flash, Found(flash, keys))
  {
    hide Readable, Key, Found;
    FoundDistinct(flash, keys);
    FoundIs(flash, keys);
    forall key | key in flash && Readable(flash[key]).Some? ensures Readable(flash[key]).value in Found(flash, keys) {
      assert key in keys;
    }
    forall e | e in Found(flash, keys) ensures Key(e.id) in flash && Readable(flash[Key(e.id)]) == Some(e) {
      var key :| key in keys && Readable(flash[key]) == Some(e);
    }
  }

  lemma {:induction false} DroppedKeys(flash: Flash, all: seq<InboxEntry>, m: nat)
    requires Rising(all) && m <= |all| && forall e :: e in all ==> e.id > 0
    ensures Dropped(KeysOf(flash, all), all[..m]) == KeysOf(flash, all[m..])
  {
    hide KeysOf, Erase;
    if m > 0 {
      DroppedKeys(flash, all, m - 1);
      assert all[..m][..m - 1] == all[..m - 1];
      assert all[m - 1..][1..] == all[m..] && all[m - 1] in all;
      DropsFirst(flash, all[m - 1..]);
    } else {
      assert all[0..] == all;
    }
  }

  lemma {:induction false} KeyedLoads(flash: Flash, keys: seq<Bytes>)
    requires Keyed(flash) && Listing(keys, flash.Keys)
    ensures Loaded(flash, keys) == Reloaded(flash)
  {
    hide Found, SortedList, ByAge, Good, Keyed, Listing, Bad, KeysOf, Dropped, RestoreAll, Distinct, Rising;
    ListedKeys(keys, flash);
    var found := Found(flash, keys);
    var all := SortedList(found);
    FoundIsGood(flash, keys);
    SortedListIs(found);
    SortedRises(found, all);
    MembersKeys(flash, found, all);
    forall e | e in all ensures e.id > 0 { GoodIsNumbered(flash, all, e); }
    DroppedKeys(flash, all, |all| - |Newest(all)|);
    assert all[|all| - |Newest(all)|..] == Newest(all);
  }

  // After a start-up flash and RAM agree if every readable blob lay under the key of its own id; while
  // none had to be dropped, only then.
  lemma {:induction false} LoadAgrees(flash: Flash, keys: seq<Bytes>)
    requires Listing(keys, flash.Keys)
    ensures Keyed(flash) ==> Agree(Loaded(flash, keys))
    ensures (forall key :: key in keys ==> key in flash)
    ensures |Found(flash, keys)| <= INBOX_CAPACITY ==> (Agree(Loaded(flash, keys)) <==> Keyed(flash))
  {
    hide Found, SortedList, Keyed, Listing, Dropped, RestoreAll, Inv, InStep, Entries;
    ListedKeys(keys, flash);
    if Keyed(flash) {
      KeyedLoads(flash, keys);
      ReloadAgrees(flash);
    } else if |Found(flash, keys)| <= INBOX_CAPACITY && Agree(Loaded(flash, keys)) {
      SortedListIs(Found(flash, keys));
      assert |SortedList(Found(flash, keys))| == |multiset(SortedList(Found(flash, keys)))| == |multiset(Found(flash, keys))|;
      var after := Loaded(flash, keys);
      DroppedNone(flash - Bad(flash));
      assert SortedList(Found(flash, keys))[..0] == [];
      AgreeIsKeyed(Entries(after.store), after.flash);
      KeyedBelow(flash);
    }
  }

  lemma {:induction false} KeyedBelow(flash: Flash)
    requires Keyed(flash - Bad(flash))
    ensures Keyed(flash)
  {
    hide Readable, Key;
    forall key | key in flash && Readable(flash[key]).Some? ensures key == Key(Readable(flash[key]).value.id) {
      assert key in flash - Bad(flash);
    }
  }

  lemma {:induction false} ListedKeys(keys: seq<Bytes>, flash: Flash)
    requires Listing(keys, flash.Keys)
    ensures forall key :: key in keys ==> key in flash
  {
  }

  lemma {:induction false} GoodIsNumbered(flash: Flash, all: seq<InboxEntry>, e: InboxEntry)
    requires Keyed(flash) && Members(all) == Good(flash) && e in all
    ensures e.id > 0
  {
    hide Good, Keyed;
    assert e in Members(all);
    GoodHasKey(flash, e);
    FitsMeans(e);
  }

  lemma {:induction false} MembersKeys(flash: Flash, a: seq<InboxEntry>, b: seq<InboxEntry>)
    requires Members(a) == Members(b)
    ensures KeysOf(flash, a) == KeysOf(flash, b)
  {
    hide Key;
    assert forall e :: e in a <==> e in Members(a);
    assert forall e :: e in b <==> e in Members(b);
  }

  lemma {:induction false} DropsFirst(was: Flash, list: seq<InboxEntry>)
    requires Rising(list) && list != [] && list[0].id > 0
    ensures Erase(KeysOf(was, list), list[0].id) == KeysOf(was, list[1..])
  {
    hide Key;
    var id := list[0].id;
    forall key | key in was ensures HasKey(list[1..], key) <==> HasKey(list, key) && key != Key(id) {
      if HasKey(list[1..], key) {
        var i :| 0 < i < |list| && key == Key(list[i].id);
        assert list[i] in list;
        if Key(list[i].id) == Key(id) { KeyIsInjective(list[i].id, id); }
      } else if HasKey(list, key) {
        var i :| 0 <= i < |list| && key == Key(list[i].id);
        if i > 0 { assert list[i] in list[1..]; }
      }
    }
  }

  // ----- sorting -----

  predicate Sorted(list: seq<InboxEntry>) {
    forall i, j :: 0 <= i < j < |list| ==> list[i].id <= list[j].id
  }

  // How many entries at the front have a lower id.
  function Below(list: seq<InboxEntry>, id: nat): (k: nat)
    ensures k <= |list| && (forall j :: 0 <= j < k ==> list[j].id < id) && (k < |list| ==> list[k].id >= id)
  {
    if list == [] || list[0].id >= id then 0 else 1 + Below(list[1..], id)
  }

  function Inserted(list: seq<InboxEntry>, e: InboxEntry): seq<InboxEntry> {
    list[..Below(list, e.id)] + [e] + list[Below(list, e.id)..]
  }

  function SortedList(items: seq<InboxEntry>): seq<InboxEntry> {
    if items == [] then [] else Inserted(SortedList(items[..|items| - 1]), items[|items| - 1])
  }

  lemma {:induction false} SortedListIs(items: seq<InboxEntry>)
    ensures multiset(SortedList(items)) == multiset(items) && Sorted(SortedList(items))
  {
    hide Inserted;
    if items != [] {
      var n := |items| - 1;
      assert items == items[..n] + [items[n]];
      SortedListIs(items[..n]);
      InsertedIs(SortedList(items[..n]), items[n]);
    }
  }

  // std::sort with the id order: the entries from the lowest id to the highest.
  method SortById(items: seq<InboxEntry>) returns (sorted: seq<InboxEntry>)
    ensures multiset(sorted) == multiset(items) && Sorted(sorted)
    ensures sorted == SortedList(items)
    ensures Distinct(items) ==> sorted == ByAge(Members(items)) && Rising(sorted)
  {
    hide Inserted, Sorted, Distinct, ByAge;
    SortedListIs(items);
    sorted := [];
    assert items[..0] == [];
    for i := 0 to |items|
      invariant sorted == SortedList(items[..i])
    {
      assert items[..i + 1][..i] == items[..i];
      sorted := InsertById(sorted, items[i]);
    }
    assert items[..|items|] == items;
    if Distinct(items) { SortedRises(items, sorted); }
  }

  // Without a repeated id there is one such order.
  lemma {:induction false} SortedRises(items: seq<InboxEntry>, sorted: seq<InboxEntry>)
    requires multiset(sorted) == multiset(items) && Sorted(sorted) && Distinct(items)
    ensures sorted == ByAge(Members(items)) && Rising(sorted) && Members(sorted) == Members(items)
  {
    forall e ensures e in items <==> e in sorted { assert e in multiset(items) <==> e in multiset(sorted); }
    assert Members(sorted) == Members(items);
    DistinctStays(items, sorted);
    ByAgeIsTheRisingList(sorted);
  }

  lemma {:induction false} DistinctStays(items: seq<InboxEntry>, sorted: seq<InboxEntry>)
    requires multiset(sorted) == multiset(items) && Distinct(items)
    ensures Distinct(sorted)
  {
    forall i, j | 0 <= i < j < |sorted| ensures sorted[i].id != sorted[j].id {
      var a, b := sorted[i], sorted[j];
      assert a in multiset(items) && b in multiset(items);
      var m :| 0 <= m < |items| && items[m] == a;
      var n :| 0 <= n < |items| && items[n] == b;
      if a.id == b.id {
        assert m == n;
        Twice(sorted, i, j);
        Once(items, m);
      }
    }
  }

  lemma {:induction false} Twice(s: seq<InboxEntry>, i: nat, j: nat)
    requires i < j < |s| && s[i] == s[j]
    ensures multiset(s)[s[i]] >= 2
  {
    assert s == s[..j] + [s[j]] + s[j + 1..];
    assert s[..j][i] == s[i];
  }

  lemma {:induction false} Once(s: seq<InboxEntry>, i: nat)
    requires i < |s| && Distinct(s)
    ensures multiset(s)[s[i]] == 1
  {
    var a, b := s[..i], s[i + 1..];
    assert s == a + [s[i]] + b;
    forall x | x in a ensures x != s[i] {}
    forall x | x in b ensures x != s[i] {}
  }

  method InsertById(list: seq<InboxEntry>, e: InboxEntry) returns (r: seq<InboxEntry>)
    ensures r == Inserted(list, e)
  {
    var k := 0;
    while k < |list| && list[k].id < e.id
      invariant 0 <= k <= |list| && forall j :: 0 <= j < k ==> list[j].id < e.id
    {
      k := k + 1;
    }
    r := list[..k] + [e] + list[k..];
  }

  lemma {:induction false} InsertedIs(list: seq<InboxEntry>, e: InboxEntry)
    requires Sorted(list)
    ensures Sorted(Inserted(list, e)) && multiset(Inserted(list, e)) == multiset(list) + multiset{e}
  {
    hide Below;
    var k := Below(list, e.id);
    assert list == list[..k] + list[k..];
  }
}
