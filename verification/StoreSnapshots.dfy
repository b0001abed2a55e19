// snapshot() and restore_snapshot() as the source runs them, on the store object.
module StoreSnapshots {
  import opened Text
  import opened Store
  import opened Lines
  import opened Snapshot
  import opened MessageStores
  import Base64

  method WriteReceived(i: nat, slot: InboxSlot) returns (line: Bytes)
    ensures line == ReceivedLine(i, slot)
  {
    var sender := Base64.EncodeBytes(slot.entry.sender);
    var ts := Base64.EncodeBytes(slot.entry.ts);
    var text := Base64.EncodeBytes(slot.entry.text);
    line := JoinOn(["R", Decimal(i), Flag(slot.deleted), Decimal(slot.entry.id), Decimal(slot.entry.recvEpoch),
                    Flag(slot.entry.forwarded), sender, ts, text], '\t');
  }

  method WriteSent(i: nat, entry: SentEntry) returns (line: Bytes)
    ensures line == SentLine(i, entry)
  {
    var target := Base64.EncodeBytes(entry.target);
    var text := Base64.EncodeBytes(entry.text);
    line := JoinOn(["S", Decimal(i), Decimal(entry.id), Decimal(entry.sentEpoch), Flag(entry.ok), target, text], '\t');
  }

  lemma {:induction false} Extend(start: Bytes, lines: seq<Bytes>, line: Bytes)
    ensures start + Unlines(lines) + line + "\n" == start + Unlines(lines + [line])
  {
    UnlinesOne(lines, line);
    Associative(start, Unlines(lines), line);
    Associative(start, Unlines(lines) + line, "\n");
  }

  method WriteInbox(store: MessageStore, start: Bytes) returns (out: Bytes)
    requires store.Valid()
    ensures out == start + Unlines(ReceivedLines(store.inbox[..]))
  {
    out := start;
    assert start + Unlines(ReceivedLines(store.inbox[..0])) == start;
    hide ReceivedLine, ReceivedLines, Unlines;
    for i := 0 to INBOX_CAPACITY
      invariant out == start + Unlines(ReceivedLines(store.inbox[..i]))
    {
      var line := WriteReceived(i, store.inbox[i]);
      ReceivedLinesOne(store.inbox[..i], store.inbox[i]);
      assert store.inbox[..i + 1] == store.inbox[..i] + [store.inbox[i]];
      Extend(start, ReceivedLines(store.inbox[..i]), line);
      out := out + line + "\n";
    }
    assert store.inbox[..INBOX_CAPACITY] == store.inbox[..];
  }

  method WriteSents(store: MessageStore, start: Bytes) returns (out: Bytes)
    requires store.Valid()
    ensures out == start + Unlines(SentLines(store.sent[..]))
  {
    out := start;
    assert start + Unlines(SentLines(store.sent[..0])) == start;
    hide SentLine, SentLines, Unlines;
    for i := 0 to SENT_CAPACITY
      invariant out == start + Unlines(SentLines(store.sent[..i]))
    {
      var line := WriteSent(i, store.sent[i]);
      SentLinesOne(store.sent[..i], store.sent[i]);
      assert store.sent[..i + 1] == store.sent[..i] + [store.sent[i]];
      Extend(start, SentLines(store.sent[..i]), line);
      out := out + line + "\n";
    }
    assert store.sent[..SENT_CAPACITY] == store.sent[..];
  }

  method TakeSnapshot(store: MessageStore) returns (out: Bytes)
    requires store.Valid()
    ensures out == TextOf(store.State())
  {
    hide ReceivedLines, SentLines, MetaLine, Unlines;
    ghost var s := store.State();
    var meta := WriteMeta(store);
    TwoLines(HEADER, meta);
    out := HEADER + "\n" + meta + "\n";
    out := WriteInbox(store, out);
    UnlinesAppends([HEADER, meta], ReceivedLines(s.inbox));
    out := WriteSents(store, out);
    UnlinesAppends([HEADER, meta] + ReceivedLines(s.inbox), SentLines(s.sent));
    UnlinesOne([HEADER, meta] + ReceivedLines(s.inbox) + SentLines(s.sent), "END");
    out := out + "END" + "\n";
  }

  lemma {:induction false} TwoLines(a: Bytes, b: Bytes)
    ensures Unlines([a, b]) == a + "\n" + b + "\n"
  {
    assert [a, b][1..] == [b] && [b][1..] == [];
    assert Unlines([b]) == b + "\n";
  }

  method WriteMeta(store: MessageStore) returns (line: Bytes)
    requires store.Valid()
    ensures line == MetaLine(store.State())
  {
    line := JoinOn(["M", Decimal(store.inboxHead), Decimal(store.inboxFilled), Decimal(store.inboxSeq),
                    Decimal(store.sentHead), Decimal(store.sentFilled), Decimal(store.sentSeq)], '\t');
  }

  // Reads the slots of one box, refusing a repeated id as it goes.
  method ReadInboxLines(lines: seq<Bytes>, filled: nat) returns (r: Option<seq<InboxSlot>>)
    ensures r == ReadInbox(lines, filled)
  {
    hide ReceivedFrom, SplitOn, ReadInbox, NewId;
    NoneToRead(filled);
    assert lines[..0] == [] && lines[..|lines|] == lines;
    var inbox: seq<InboxSlot> := [];
    for i := 0 to |lines|
      invariant ReadInbox(lines[..i], filled) == Some(inbox)
    {
      ReadInboxOne(lines[..i], lines[i], filled);
      assert lines[..i + 1] == lines[..i] + [lines[i]];
      var fields := SplitFields(lines[i]);
      var slot := ReceivedFrom(fields, i, filled);
      if slot.None? || !NewId(inbox, slot.value) {
        InboxStaysRefused(lines, i + 1, filled);
        return None;
      }
      inbox := inbox + [slot.value];
    }
    r := Some(inbox);
  }

  lemma {:induction false} NoneToRead(filled: nat)
    ensures ReadInbox([], filled) == Some([]) && ReadSents([], filled) == Some([])
  {
  }

  lemma {:induction false} InboxStaysRefused(lines: seq<Bytes>, n: nat, filled: nat)
    requires n <= |lines| && ReadInbox(lines[..n], filled).None?
    ensures ReadInbox(lines, filled).None?
    decreases |lines|
  {
    if n == |lines| {
      assert lines[..n] == lines;
    } else {
      assert lines[..|lines| - 1][..n] == lines[..n];
      InboxStaysRefused(lines[..|lines| - 1], n, filled);
    }
  }

  method ReadSentLines(lines: seq<Bytes>, filled: nat) returns (r: Option<seq<SentEntry>>)
    ensures r == ReadSents(lines, filled)
  {
    hide SentFrom, SplitOn, ReadSents, NewSentId;
    NoneToRead(filled);
    assert lines[..0] == [] && lines[..|lines|] == lines;
    var sent: seq<SentEntry> := [];
    for i := 0 to |lines|
      invariant ReadSents(lines[..i], filled) == Some(sent)
    {
      ReadSentsOne(lines[..i], lines[i], filled);
      assert lines[..i + 1] == lines[..i] + [lines[i]];
      var fields := SplitFields(lines[i]);
      var entry := SentFrom(fields, i, filled);
      if entry.None? || !NewSentId(sent, entry.value) {
        SentsStayRefused(lines, i + 1, filled);
        return None;
      }
      sent := sent + [entry.value];
    }
    r := Some(sent);
  }

  lemma {:induction false} SentsStayRefused(lines: seq<Bytes>, n: nat, filled: nat)
    requires n <= |lines| && ReadSents(lines[..n], filled).None?
    ensures ReadSents(lines, filled).None?
    decreases |lines|
  {
    if n == |lines| {
      assert lines[..n] == lines;
    } else {
      assert lines[..|lines| - 1][..n] == lines[..n];
      SentsStayRefused(lines[..|lines| - 1], n, filled);
    }
  }

  // Only blank lines may follow the end marker.
  method RestIsBlank(lines: seq<Bytes>, from: nat) returns (blank: bool)
    requires from <= |lines|
    ensures blank <==> !exists i :: from <= i < |lines| && Trim(lines[i]) != ""
  {
    for i := from to |lines|
      invariant forall j :: from <= j < i ==> Trim(lines[j]) == ""
    {
      var rest := TrimBytes(lines[i]);
      if rest != "" {
        assert Trim(lines[i]) != "";
        return false;
      }
    }
    blank := true;
  }

  // Nothing of the store changes unless the whole text is accepted.
  method RestoreSnapshot(store: MessageStore, data: Bytes) returns (ok: bool)
    requires store.Valid()
    modifies store, store.inbox, store.sent
    ensures ok == Restore(data).Some? && store.Valid()
    ensures store.State() == if ok then Restore(data).value else old(store.State())
  {
    hide ReadInbox, ReadSents, MetaFrom, SplitOn, LinesOf;
    if |data| > CAP { return false; }
    var lines := ReadLines(data);
    var a, b := 2 + INBOX_CAPACITY, 2 + INBOX_CAPACITY + SENT_CAPACITY;
    if |lines| <= b || lines[0] != HEADER { return false; }
    var fields := SplitFields(lines[1]);
    var meta := MetaFrom(fields);
    if meta.None? { return false; }
    var m := meta.value;
    var inbox := ReadInboxLines(lines[2..a], m.inboxFilled);
    if inbox.None? { return false; }
    var sent := ReadSentLines(lines[a..b], m.sentFilled);
    if sent.None? || lines[b] != "END" { return false; }
    var blank := RestIsBlank(lines, b + 1);
    if !blank { return false; }
    if !WithinSequence(inbox.value, sent.value, m) { return false; }
    RestoredIsWellFormed(data);
    forall i | 0 <= i < INBOX_CAPACITY { store.inbox[i] := inbox.value[i]; }
    forall i | 0 <= i < SENT_CAPACITY { store.sent[i] := sent.value[i]; }
    store.inboxHead, store.inboxFilled, store.inboxSeq := m.inboxHead, m.inboxFilled, m.inboxSeq;
    store.sentHead, store.sentFilled, store.sentSeq := m.sentHead, m.sentFilled, m.sentSeq;
    assert store.inbox[..] == inbox.value && store.sent[..] == sent.value;
    ok := true;
  }

  // Writing a snapshot and restoring it into any other store makes that store the same.
  method CopyBySnapshot(from: MessageStore, to: MessageStore) returns (ok: bool)
    requires from.Valid() && to.Valid() && Inv(from.State()) && EpochsFit(from.State())
    requires from != to && from.inbox != to.inbox && from.sent != to.sent
    modifies to, to.inbox, to.sent
    ensures ok == Within(from.State())
    ensures to.State() == if ok then from.State() else old(to.State())
  {
    ReachableIsWellFormed(from.State());
    SnapshotRoundTrip(from.State());
    var data := TakeSnapshot(from);
    ok := RestoreSnapshot(to, data);
  }
}
