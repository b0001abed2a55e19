// Inputs that show where the laws of reassembly end: a part that is lost, and orders of arrival that
// can be told apart (core/src/pdu.cpp:210-279).
module ConcatExamples {
  import opened Text
  import opened Concat
  import opened ConcatRuns
  import opened ConcatOrder
  import opened ConcatDelivery

  // ----- a lost part -----

  // The slot in which a part waits alone.
  function Waiting(a: Sms, nowUs: int): Slot
    requires a.IsPart()
  {
    Offer(Opened(a.KeyOf(), nowUs), a, nowUs)
  }

  lemma {:induction false} FirstWaits(a: Sms, nowUs: int)
    requires a.IsPart()
    ensures Run([Feed(a, nowUs)]) == Outcome(EMPTY[0 := Waiting(a, nowUs)], [Stored(a, 1)])
  {
    assert [Feed(a, nowUs)][..0] == [];
    assert Run([]) == Outcome(EMPTY, []);
    assert EMPTY[0].Reusable(nowUs);
  }

  // Whatever two parts of different messages come, the second more than 30 s behind the first with no
  // expiry between them: the first is gone, and nothing was handed out or said about it.
  lemma {:induction false} LatePartDropsAnother(a: Sms, b: Sms, startUs: int, nowUs: int)
    requires a.IsPart() && b.IsPart() && a.KeyOf() != b.KeyOf() && nowUs - startUs > TIMEOUT_US
    ensures var events := Run([Feed(a, startUs), Feed(b, nowUs)]).events;
            && Lost(events, Record(a.KeyOf(), a.part - 1, a.text)) == 1
            && AllEmissions(events) == []
            && forall e :: e in events && !e.Stored? ==> Notices(e) == []
  {
    hide AllEmissions, Lost, Waiting, FeedStep;
    var inputs := [Feed(a, startUs), Feed(b, nowUs)];
    assert inputs[..1] == [Feed(a, startUs)];
    FirstWaits(a, startUs);
    var slots, slot := EMPTY[0 := Waiting(a, startUs)], Waiting(a, startUs);
    WaitsThere(a, startUs);
    SecondReclaims(slots, slot, b, nowUs);
    assert Run(inputs).events == [Stored(a, 1)] + [Reclaimed(slot), Stored(b, 1)] == [Stored(a, 1), Reclaimed(slot), Stored(b, 1)];
    DropIsSilent(a, slot, b, Record(a.KeyOf(), a.part - 1, a.text));
  }

  lemma {:induction false} WaitsThere(a: Sms, nowUs: int)
    requires a.IsPart()
    ensures var slot := Waiting(a, nowUs);
            && slot.active && slot.KeyOf() == a.KeyOf() && slot.lastUs == nowUs && |slot.parts| == PARTS
            && In(slot, Record(a.KeyOf(), a.part - 1, a.text)) == 1
  {
  }

  lemma {:induction false} DropIsSilent(a: Sms, slot: Slot, b: Sms, x: Record)
    ensures var events := [Stored(a, 1), Reclaimed(slot), Stored(b, 1)];
            && Lost(events, x) == In(slot, x) && AllEmissions(events) == []
            && forall e :: e in events && !e.Stored? ==> Notices(e) == []
  {
    hide In;
    var events := [Stored(a, 1), Reclaimed(slot), Stored(b, 1)];
    assert events[1..] == [Reclaimed(slot), Stored(b, 1)] && events[1..][1..] == [Stored(b, 1)];
    BooksOne(Stored(b, 1), x);
    OnlyOne(Stored(b, 1));
  }

  lemma {:induction false} SecondReclaims(slots: seq<Slot>, slot: Slot, b: Sms, nowUs: int)
    requires slots == EMPTY[0 := slot] && |slot.parts| == PARTS
    requires b.IsPart() && slot.active && slot.KeyOf() != b.KeyOf() && Due(slot, nowUs)
    ensures FeedStep(slots, b, nowUs).events == [Reclaimed(slot), Stored(b, 1)]
  {
    assert FirstHolding(slots, b.KeyOf()) == SLOTS;
    assert FirstReusable(slots, nowUs) == 0;
  }

  // ----- a message in two parts -----

  predicate Pair(a: Sms, b: Sms) {
    a.IsPart() && b.IsPart() && a.KeyOf() == b.KeyOf() && a.total == 2 && a.part == 1 && b.part == 2
  }

  function FeedAll(messages: seq<Sms>, nowUs: int): (r: seq<Input>)
    ensures |r| == |messages| && forall i :: 0 <= i < |r| ==> r[i] == Feed(messages[i], nowUs)
  {
    if messages == [] then [] else FeedAll(messages[..|messages| - 1], nowUs) + [Feed(messages[|messages| - 1], nowUs)]
  }

  lemma {:induction false} AllFed(messages: seq<Sms>, nowUs: int)
    ensures Fed(FeedAll(messages, nowUs)) == messages
  {
    if messages != [] {
      var n := |messages| - 1;
      AllFed(messages[..n], nowUs);
      assert FeedAll(messages, nowUs)[..n] == FeedAll(messages[..n], nowUs);
    }
  }

  // One message at a time is what its collector says.
  lemma {:induction false} OneKey(messages: seq<Sms>, key: Key, nowUs: int)
    requires forall m :: m in messages ==> m.KeyOf() == key
    ensures CompletedFor(key, Run(FeedAll(messages, nowUs)).events) == Collect(key, messages).done
  {
    hide Collect, Run;
    AllFed(messages, nowUs);
    forall n | 0 <= n <= |messages| ensures |OpenKeys(messages[..n])| <= SLOTS {
      OneOpens(messages[..n], key);
    }
    assert FewOpen(messages);
    RunRefinesCollectors(FeedAll(messages, nowUs), nowUs);
  }

  lemma {:induction false} OneOpens(messages: seq<Sms>, key: Key)
    requires forall m :: m in messages ==> m.KeyOf() == key
    ensures |OpenKeys(messages)| <= 1
  {
    hide Collect;
    assert forall i :: 0 <= i < |messages| ==> messages[i] in messages;
    assert OpenKeys(messages) <= {key};
    Subset(OpenKeys(messages), {key});
  }

  // The first of the two parts, in either order, and a copy of it.
  lemma {:induction false} FirstPart(c: Collector, a: Sms, b: Sms, x: Sms)
    requires Pair(a, b) && (x == a || x == b) && c.parts == NO_PARTS && c.timestamp == ""
    ensures var one := CollectOne(a.KeyOf(), c, x);
            && one == Collector(NO_PARTS[x.part - 1 := Present(x.text)], x.timestamp, c.done)
            && CollectOne(a.KeyOf(), one, x) == one
  {
    var parts := NO_PARTS[x.part - 1 := Present(x.text)];
    assert parts[2 - x.part].Missing?;
  }

  lemma {:induction false} SecondPart(c: Collector, a: Sms, b: Sms, x: Sms, y: Sms)
    requires Pair(a, b) && ((x == a && y == b) || (x == b && y == a))
    requires c.parts == NO_PARTS[x.part - 1 := Present(x.text)] && c.timestamp == x.timestamp
    ensures CollectOne(a.KeyOf(), c, y) ==
            Collector(NO_PARTS, "", c.done + [Emission(a.sender, a.text + b.text, if x.timestamp == "" then y.timestamp else x.timestamp)])
  {
    var parts := c.parts[y.part - 1 := Present(y.text)];
    assert parts[..2] == [Present(a.text), Present(b.text)];
    PairJoins(a.text, b.text);
    assert Whole(a.KeyOf(), parts);
  }

  lemma {:induction false} PairJoins(s: Bytes, t: Bytes)
    ensures Join(Pieces([Present(s), Present(t)])) == s + t
  {
    assert Pieces([Present(s), Present(t)]) == [s, t];
    assert [s, t][1..] == [t] && [t][1..] == [];
    assert Join([t]) == t;
  }

  function Both(a: Sms, b: Sms, timestamp: Bytes): Emission {
    Emission(a.sender, a.text + b.text, timestamp)
  }

  // Two timestamps: the message carries that of the part that came first.
  lemma {:induction false} TimestampTellsTheOrder(a: Sms, b: Sms, nowUs: int)
    requires Pair(a, b) && a.timestamp != "" && b.timestamp != ""
    ensures CompletedFor(a.KeyOf(), Run(FeedAll([a, b], nowUs)).events) == [Both(a, b, a.timestamp)]
    ensures CompletedFor(a.KeyOf(), Run(FeedAll([b, a], nowUs)).events) == [Both(a, b, b.timestamp)]
  {
    hide Collect, CollectOne, Run;
    PairCollected(a, b, a, b);
    PairCollected(a, b, b, a);
    OneKey([a, b], a.KeyOf(), nowUs);
    OneKey([b, a], a.KeyOf(), nowUs);
  }

  lemma {:induction false} PairCollected(a: Sms, b: Sms, x: Sms, y: Sms)
    requires Pair(a, b) && ((x == a && y == b) || (x == b && y == a))
    ensures Collect(a.KeyOf(), [x, y]) == Collector(NO_PARTS, "", [Both(a, b, if x.timestamp == "" then y.timestamp else x.timestamp)])
    ensures Collect(a.KeyOf(), [x, x]) == Collector(NO_PARTS[x.part - 1 := Present(x.text)], x.timestamp, [])
  {
    hide CollectOne;
    var key := a.KeyOf();
    NothingCollected(key);
    assert [] + [x] == [x] && [x] + [y] == [x, y] && [x] + [x] == [x, x];
    CollectsOne(key, [], x);
    CollectsOne(key, [x], y);
    CollectsOne(key, [x], x);
    FirstPart(Collect(key, []), a, b, x);
    SecondPart(Collect(key, [x]), a, b, x, y);
  }

  lemma {:induction false} NothingCollected(key: Key)
    ensures Collect(key, []) == Collector(NO_PARTS, "", [])
  {
  }

  // With copies the order matters for more than that: part by part twice gives the message twice,
  // each part twice in a row gives it once.
  lemma {:induction false} CopiesTellTheOrder(a: Sms, b: Sms, nowUs: int)
    requires Pair(a, b)
    ensures multiset([a, b, a, b]) == multiset([a, a, b, b])
    ensures |CompletedFor(a.KeyOf(), Run(FeedAll([a, b, a, b], nowUs)).events)| == 2
    ensures |CompletedFor(a.KeyOf(), Run(FeedAll([a, a, b, b], nowUs)).events)| == 1
  {
    hide CompletedFor, FeedAll, Run;
    PairTwice(a, b);
    EachTwice(a, b);
    OneKey([a, b, a, b], a.KeyOf(), nowUs);
    OneKey([a, a, b, b], a.KeyOf(), nowUs);
  }

  lemma {:induction false} PairTwice(a: Sms, b: Sms)
    requires Pair(a, b)
    ensures |Collect(a.KeyOf(), [a, b, a, b]).done| == 2
  {
    hide Collect, CollectOne;
    var key := a.KeyOf();
    PairCollected(a, b, a, b);
    assert [a, b] + [a] == [a, b, a] && [a, b, a] + [b] == [a, b, a, b];
    CollectsOne(key, [a, b], a);
    CollectsOne(key, [a, b, a], b);
    FirstPart(Collect(key, [a, b]), a, b, a);
    SecondPart(Collect(key, [a, b, a]), a, b, a, b);
  }

  lemma {:induction false} EachTwice(a: Sms, b: Sms)
    requires Pair(a, b)
    ensures |Collect(a.KeyOf(), [a, a, b, b]).done| == 1
  {
    hide Collect, CollectOne;
    var key := a.KeyOf();
    PairCollected(a, b, a, b);
    assert [a, a] + [b] == [a, a, b] && [a, a, b] + [b] == [a, a, b, b];
    CollectsOne(key, [a, a], b);
    CollectsOne(key, [a, a, b], b);
    SecondPart(Collect(key, [a, a]), a, b, a, b);
    FirstPart(Collect(key, [a, a, b]), a, b, b);
  }
}
