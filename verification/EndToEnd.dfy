// From a text to the message that the receiver sees: encode_with, then feeding its parts to a new
// assembler in any order (core/src/pdu.cpp:90-156 and 247-279).
module EndToEnd {
  import opened Text
  import opened Segment
  import opened Concat
  import opened ConcatRuns
  import opened ConcatOrder
  import opened ConcatDelivery
  import opened Assembler

  // A run of calls on a new assembler does what Run says.
  method Replay(inputs: seq<Input>) returns (a: ConcatAssembler)
    ensures a.Valid() && a.slots[..] == Run(inputs).slots
    ensures a.emitted == AllEmissions(Run(inputs).events)
    ensures a.observed == AllNotices(Run(inputs).events)
  {
    hide FeedStep, ExpireStep, AllEmissions, AllNotices;
    NothingLogged();
    a := new ConcatAssembler();
    assert a.slots[..] == EMPTY;
    for i := 0 to |inputs|
      invariant a.Valid() && fresh(a) && fresh(a.slots) && a.slots[..] == Run(inputs[..i]).slots
      invariant a.emitted == AllEmissions(Run(inputs[..i]).events)
      invariant a.observed == AllNotices(Run(inputs[..i]).events)
    {
      assert inputs[..i + 1][..i] == inputs[..i];
      ghost var before := Run(inputs[..i]);
      ghost var step := Step(before.slots, inputs[i]);
      EmissionsAppend(before.events, step.events);
      NoticesAppend(before.events, step.events);
      match inputs[i] {
        case Feed(sms, nowUs) => a.Feed(sms, nowUs);
        case Expire(nowUs) => a.Expire(nowUs);
      }
    }
    assert inputs[..|inputs|] == inputs;
  }

  function Content(sms: Sms): Segment {
    Segment(sms.text, if sms.reference < 0 then 0 else sms.reference,
            if sms.part < 0 then 0 else sms.part, if sms.total < 0 then 0 else sms.total)
  }

  function Contents(messages: seq<Sms>): (r: seq<Segment>)
    ensures |r| == |messages| && forall j :: 0 <= j < |r| ==> r[j] == Content(messages[j])
  {
    if messages == [] then []
    else Contents(messages[..|messages| - 1]) + [Content(messages[|messages| - 1])]
  }

  // The messages carry the given segments from one sender, each once, in any order.
  predicate Carries(messages: seq<Sms>, sender: Bytes, segments: seq<Segment>) {
    && (forall j :: 0 <= j < |messages| ==>
          messages[j].sender == sender && messages[j].reference >= 0 && messages[j].part >= 0 && messages[j].total >= 0)
    && multiset(Contents(messages)) == multiset(segments)
  }

  function CStrings(parts: seq<Bytes>): (r: seq<Bytes>)
    ensures |r| == |parts| && forall i :: 0 <= i < |r| ==> r[i] == CString(parts[i])
  {
    if parts == [] then [] else [CString(parts[0])] + CStrings(parts[1..])
  }

  // What a text turns into when every part is cut at its first NUL.
  function Received(text: Bytes): Bytes {
    Join(CStrings(Cut(text)))
  }

  // ----- only a text without NUL survives -----

  lemma {:induction false} CStringShortens(s: Bytes)
    ensures |CString(s)| <= |s|
    ensures CString(s) == s <==> '\0' !in s
    ensures |CString(s)| == |s| <==> '\0' !in s
  {
    if s != [] {
      CStringShortens(s[1..]);
      assert s == [s[0]] + s[1..];
    }
  }

  lemma {:induction false} JoinShortens(parts: seq<Bytes>)
    ensures |Join(CStrings(parts))| <= |Join(parts)|
    ensures Join(CStrings(parts)) == Join(parts) <==> '\0' !in Join(parts)
    ensures |Join(CStrings(parts))| == |Join(parts)| <==> '\0' !in Join(parts)
  {
    if parts != [] {
      JoinShortens(parts[1..]);
      CStringShortens(parts[0]);
    }
  }

  // ----- the run -----

  lemma {:induction false} Occurrences<T>(s: seq<T>, i: nat, j: nat)
    requires i < j < |s| && s[i] == s[j]
    ensures multiset(s)[s[j]] >= 2
  {
    assert s == s[..i] + [s[i]] + s[i + 1..j] + [s[j]] + s[j + 1..];
  }

  lemma {:induction false} OccursOnce(segments: seq<Segment>, x: Segment)
    requires forall i, j :: 0 <= i < j < |segments| ==> segments[i] != segments[j]
    ensures multiset(segments)[x] <= 1
  {
    if segments != [] {
      var n := |segments| - 1;
      assert segments == segments[..n] + [segments[n]];
      OccursOnce(segments[..n], x);
      forall i | 0 <= i < n ensures segments[..n][i] != segments[n] {
        assert segments[..n][i] == segments[i];
      }
      assert segments[n] !in multiset(segments[..n]);
    }
  }

  // Each message that carries a segment of a long text is the part with that number.
  lemma {:induction false} CarriedPart(messages: seq<Sms>, sender: Bytes, parts: seq<Bytes>, reference: nat, j: nat)
    requires 2 <= |parts| <= PARTS && reference > 0 && j < |messages|
    requires Carries(messages, sender, Numbered(parts, reference))
    ensures var m := messages[j];
            && m.IsPart() && m.KeyOf() == Key(reference, sender, |parts|)
            && m.text == CString(parts[m.part - 1])
  {
    var segments, contents := Numbered(parts, reference), Contents(messages);
    var m := messages[j];
    assert contents[j] == Content(m);
    assert contents[j] in multiset(segments);
    var i :| 0 <= i < |segments| && segments[i] == contents[j];
    assert m.part == i + 1 && m.total == |parts| && m.reference == reference;
  }

  // Every part comes, and the last message is a part that did not come before.
  lemma {:induction false} CarriedCopies(messages: seq<Sms>, sender: Bytes, parts: seq<Bytes>, reference: nat, i: nat)
    requires 2 <= |parts| <= PARTS && reference > 0 && i < |parts|
    requires Carries(messages, sender, Numbered(parts, reference))
    ensures exists j :: 0 <= j < |messages| && IsCopy(messages[j], Key(reference, sender, |parts|), i)
    ensures forall j, k :: 0 <= j < k < |messages| ==> messages[j].part != messages[k].part
  {
    hide Numbered, Contents, CString;
    forall j, k | 0 <= j < k < |messages| ensures messages[j].part != messages[k].part {
      CarriedDiffer(messages, sender, parts, reference, j, k);
    }
    CarriedCopy(messages, sender, parts, reference, i);
  }

  lemma {:induction false} CarriedCopy(messages: seq<Sms>, sender: Bytes, parts: seq<Bytes>, reference: nat, i: nat)
    requires 2 <= |parts| <= PARTS && reference > 0 && i < |parts|
    requires Carries(messages, sender, Numbered(parts, reference))
    ensures exists j :: 0 <= j < |messages| && IsCopy(messages[j], Key(reference, sender, |parts|), i)
  {
    var segments, contents := Numbered(parts, reference), Contents(messages);
    assert segments[i] in multiset(contents);
    var j :| 0 <= j < |contents| && contents[j] == segments[i];
    CarriedPart(messages, sender, parts, reference, j);
    assert IsCopy(messages[j], Key(reference, sender, |parts|), i);
  }

  lemma {:induction false} CarriedDiffer(messages: seq<Sms>, sender: Bytes, parts: seq<Bytes>, reference: nat, j: nat, k: nat)
    requires 2 <= |parts| <= PARTS && reference > 0 && j < k < |messages|
    requires Carries(messages, sender, Numbered(parts, reference))
    ensures messages[j].part != messages[k].part
  {
    var segments, contents := Numbered(parts, reference), Contents(messages);
    CarriedPart(messages, sender, parts, reference, j);
    CarriedPart(messages, sender, parts, reference, k);
    OccursOnce(segments, contents[k]);
    if messages[j].part == messages[k].part { Occurrences(contents, j, k); }
  }

  lemma {:induction false} CarriedTexts(messages: seq<Sms>, sender: Bytes, parts: seq<Bytes>, reference: nat)
    requires 2 <= |parts| <= PARTS && reference > 0
    requires Carries(messages, sender, Numbered(parts, reference))
    ensures TextsMatch(Key(reference, sender, |parts|), CStrings(parts), messages)
    ensures forall j :: 0 <= j < |messages| ==> messages[j].IsPart() && messages[j].KeyOf() == Key(reference, sender, |parts|)
  {
    hide Carries, Contents, Numbered, CString;
    forall j | 0 <= j < |messages|
      ensures messages[j].IsPart() && messages[j].KeyOf() == Key(reference, sender, |parts|)
      ensures messages[j].text == CStrings(parts)[messages[j].part - 1]
    {
      CarriedPart(messages, sender, parts, reference, j);
    }
  }

  lemma {:induction false} CarriedAll(messages: seq<Sms>, sender: Bytes, parts: seq<Bytes>, reference: nat)
    requires 2 <= |parts| <= PARTS && reference > 0
    requires Carries(messages, sender, Numbered(parts, reference))
    ensures messages != [] && AllCome(Key(reference, sender, |parts|), messages, |messages| - 1)
    ensures IsLastNew(Key(reference, sender, |parts|), messages, |messages| - 1)
  {
    hide Carries, Contents, Numbered, CString;
    var key := Key(reference, sender, |parts|);
    var n := |messages| - 1;
    CarriedCopies(messages, sender, parts, reference, 0);
    forall i | 0 <= i < key.total ensures HasCopy(messages, n, key, i) {
      CarriedCopies(messages, sender, parts, reference, i);
    }
    CarriedPart(messages, sender, parts, reference, n);
  }

  // The messages that carry a long text are its parts, complete with the last of them.
  lemma {:induction false} CarriedArrives(messages: seq<Sms>, sender: Bytes, parts: seq<Bytes>, reference: nat)
    requires 2 <= |parts| <= PARTS && reference > 0
    requires Carries(messages, sender, Numbered(parts, reference))
    ensures var key := Key(reference, sender, |parts|);
            messages != [] && Arrives(key, CStrings(parts), messages, |messages| - 1)
            && forall j :: 0 <= j < |messages| ==> messages[j].IsPart() && messages[j].KeyOf() == key
  {
    hide Carries, Contents, Numbered, CString, TextsMatch, AllCome, IsLastNew;
    CarriedTexts(messages, sender, parts, reference);
    CarriedAll(messages, sender, parts, reference);
  }

  // While all parts are of one key, at most that key is open.
  lemma {:induction false} OneKeyFewOpen(messages: seq<Sms>, key: Key)
    requires forall j :: 0 <= j < |messages| ==> messages[j].KeyOf() == key
    ensures FewOpen(messages)
  {
    forall n | 0 <= n <= |messages| ensures |OpenKeys(messages[..n])| <= SLOTS {
      assert OpenKeys(messages[..n]) <= {key};
      Subset(OpenKeys(messages[..n]), {key});
    }
  }

  lemma {:induction false} PartsAreNotLone(inputs: seq<Input>)
    requires forall j :: 0 <= j < |Fed(inputs)| ==> Fed(inputs)[j].IsPart()
    ensures NoLone(Run(inputs).events)
  {
    if inputs != [] {
      var n := |inputs| - 1;
      var before := Fed(inputs[..n]);
      assert forall j :: 0 <= j < |before| ==> before[j] == Fed(inputs)[j];
      PartsAreNotLone(inputs[..n]);
      match inputs[n]
      case Feed(sms, nowUs) =>
        assert Fed(inputs)[|before|] == sms;
        PartIsNotLone(Run(inputs[..n]).slots, sms, nowUs);
      case Expire(nowUs) => ExpireEvents(Run(inputs[..n]).slots, nowUs, SLOTS);
    }
  }

  lemma {:induction false} CompletedIsCounted(events: seq<Event>, i: nat)
    requires i < |events| && events[i].Completed?
    ensures CompletedFor(events[i].slot.KeyOf(), events) != []
  {
    if i < |events| - 1 { CompletedIsCounted(events[..|events| - 1], i); }
  }

  lemma {:induction false} OnlyCompletedEmit(events: seq<Event>, key: Key)
    requires Quiet(events) && NoLone(events)
    requires forall i :: 0 <= i < |events| && events[i].Completed? ==> events[i].slot.KeyOf() == key
    ensures AllEmissions(events) == CompletedFor(key, events)
  {
    hide AllEmissions, TagOf, Emissions, CompletedBy;
    if events == [] {
      NothingEmitted(key);
    } else {
      var n := |events| - 1;
      assert events == events[..n] + [events[n]];
      OnlyCompletedEmit(events[..n], key);
      OneMore(events[..n], events[n]);
      EmitsIfCompleted(events[n], key);
    }
  }

  lemma {:induction false} NothingEmitted(key: Key)
    ensures AllEmissions([]) == [] && CompletedFor(key, []) == []
  {
  }

  lemma {:induction false} EmitsIfCompleted(e: Event, key: Key)
    requires !e.Evicted? && !e.Expired? && !e.Reclaimed? && !TagOf(e).Lone?
    requires e.Completed? ==> e.slot.KeyOf() == key
    ensures Emissions(e) == CompletedBy(key, e)
  {
  }

  lemma {:induction false} OneKeyEmits(inputs: seq<Input>, startUs: int, key: Key)
    requires Prompt(inputs, startUs) && FewOpen(Fed(inputs))
    requires forall j :: 0 <= j < |Fed(inputs)| ==> Fed(inputs)[j].IsPart() && Fed(inputs)[j].KeyOf() == key
    ensures AllEmissions(Run(inputs).events) == CompletedFor(key, Run(inputs).events)
  {
    var events := Run(inputs).events;
    RunRefinesCollectors(inputs, startUs);
    PartsAreNotLone(inputs);
    forall i | 0 <= i < |events| && events[i].Completed? ensures events[i].slot.KeyOf() == key {
      CompletedIsCounted(events, i);
      var other := events[i].slot.KeyOf();
      assert CompletedFor(other, events) == Collect(other, Fed(inputs)).done;
      if other != key { NotFedNotOpen(other, Fed(inputs)); }
    }
    OnlyCompletedEmit(events, key);
  }

  lemma {:induction false} SayOne(events: seq<Event>, sms: Sms)
    requires AllEmissions(events) == []
    ensures AllEmissions(events + [Passed(sms)]) == [Emission(sms.sender, sms.text, sms.timestamp)]
  {
    OneMore(events, Passed(sms));
  }

  // A lone message and any expiries: it is handed out as it is.
  lemma {:induction false} LoneRun(inputs: seq<Input>)
    requires |Fed(inputs)| <= 1 && forall j :: 0 <= j < |Fed(inputs)| ==> !Fed(inputs)[j].IsMultiPart()
    ensures Run(inputs).slots == EMPTY
    ensures AllEmissions(Run(inputs).events) ==
            if Fed(inputs) == [] then []
            else [Emission(Fed(inputs)[0].sender, Fed(inputs)[0].text, Fed(inputs)[0].timestamp)]
  {
    hide AllEmissions;
    if inputs == [] {
      NothingLogged();
    } else {
      var n := |inputs| - 1;
      LoneRun(inputs[..n]);
      var r := Run(inputs[..n]);
      match inputs[n] {
        case Feed(sms, nowUs) =>
          assert Fed(inputs) == Fed(inputs[..n]) + [sms];
          assert Fed(inputs[..n]) == [];
          assert Fed(inputs)[0] == sms;
          SayOne(r.events, sms);
        case Expire(nowUs) =>
          ExpireIdle(EMPTY, nowUs, SLOTS);
          assert r.events + [] == r.events;
      }
    }
  }

  // Any accepted text: its segments, received in any order within the timeout by a new assembler
  // (which may be told to expire in between), come out as one message; that message is the text
  // exactly when the text contains no NUL.
  lemma {:induction false} RoundTrip(text: Bytes, reference: nat, sender: Bytes, inputs: seq<Input>, startUs: int)
    requires 0 < |text| <= 300 && (reference > 0 <==> |Cut(text)| > 1)
    requires Prompt(inputs, startUs) && Carries(Fed(inputs), sender, Numbered(Cut(text), reference))
    ensures var out := AllEmissions(Run(inputs).events);
            && |out| == 1 && out[0].sender == sender && out[0].text == Received(text)
            && (out[0].text == text <==> '\0' !in text)
  {
    var parts, messages := Cut(text), Fed(inputs);
    CutIsWhole(text);
    JoinShortens(parts);
    if |parts| > 1 {
      var key := Key(reference, sender, |parts|);
      CarriedArrives(messages, sender, parts, reference);
      OneKeyFewOpen(messages, key);
      OneKeyEmits(inputs, startUs, key);
      DeliveredOnce(inputs, startUs, key, CStrings(parts), |messages| - 1);
    } else {
      var segments := Numbered(parts, reference);
      assert |multiset(Contents(messages))| == |multiset(segments)| == 1;
      assert Contents(messages)[0] in multiset(segments);
      LoneRun(inputs);
      assert CStrings(parts) == [CString(parts[0])];
      assert Join([CString(parts[0])]) == CString(parts[0]) + Join([CString(parts[0])][1..]);
    }
  }
}
