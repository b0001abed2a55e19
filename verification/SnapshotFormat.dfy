// The snapshot field by field, and exactly which stores a text can give back
// (core/src/inbox.cpp:186-374).
module SnapshotFormat {
  import opened Text
  import opened Store
  import opened Lines
  import opened Snapshot
  import Base64

  // ----- the text -----

  // A header, a line of numbers, fifty lines for the received messages, ten for the sent ones, an end;
  // the fields of a line stand between tabs.
  lemma {:induction false} SnapshotSays(s: State)
    requires Shaped(s)
    ensures var lines := LinesOf(TextOf(s));
            && TextOf(s) == Unlines(lines)
            && |lines| == 63 && lines[0] == "OMNISMS_MESSAGE_STORE_V1" && lines[62] == "END"
            && SplitOn(lines[1], '\t') == ["M", Decimal(s.inboxHead), Decimal(s.inboxFilled), Decimal(s.inboxSeq),
                                           Decimal(s.sentHead), Decimal(s.sentFilled), Decimal(s.sentSeq)]
            && (forall i :: 0 <= i < 50 ==> SaysReceived(lines[2 + i], i, s.inbox[i]))
            && (forall i :: 0 <= i < 10 ==> SaysSent(lines[52 + i], i, s.sent[i]))
  {
    hide SplitOn, JoinOn, LinesOf, Unlines, Decimal, ReceivedLine, SentLine, MetaLine, SaysReceived, SaysSent;
    AllAreLines(s);
    LinesUnlines(AllLines(s));
    MetaSays(s);
    forall i | 0 <= i < 50 ensures SaysReceived(ReceivedLines(s.inbox)[i], i, s.inbox[i]) {
      ReceivedLineAt(s.inbox, i);
      ReceivedSays(i, s.inbox[i]);
    }
    forall i | 0 <= i < 10 ensures SaysSent(SentLines(s.sent)[i], i, s.sent[i]) {
      SentLineAt(s.sent, i);
      SentSays(i, s.sent[i]);
    }
  }

  predicate SaysReceived(line: Bytes, i: nat, slot: InboxSlot) {
    SplitOn(line, '\t') ==
    ["R", Decimal(i), if slot.deleted then "1" else "0", Decimal(slot.entry.id), Decimal(slot.entry.recvEpoch),
     if slot.entry.forwarded then "1" else "0",
     Base64.Encode(slot.entry.sender), Base64.Encode(slot.entry.ts), Base64.Encode(slot.entry.text)]
  }

  predicate SaysSent(line: Bytes, i: nat, entry: SentEntry) {
    SplitOn(line, '\t') ==
    ["S", Decimal(i), Decimal(entry.id), Decimal(entry.sentEpoch), if entry.ok then "1" else "0",
     Base64.Encode(entry.target), Base64.Encode(entry.text)]
  }

  lemma {:induction false} MetaSays(s: State)
    ensures SplitOn(MetaLine(s), '\t') == ["M", Decimal(s.inboxHead), Decimal(s.inboxFilled), Decimal(s.inboxSeq),
                                           Decimal(s.sentHead), Decimal(s.sentFilled), Decimal(s.sentSeq)]
  {
    hide SplitOn, JoinOn, Decimal;
    MetaFieldsClean(s);
    CleanFields(MetaFields(s));
  }

  lemma {:induction false} ReceivedSays(i: nat, slot: InboxSlot)
    ensures SaysReceived(ReceivedLine(i, slot), i, slot)
  {
    hide SplitOn, JoinOn, Decimal;
    ReceivedFieldsClean(i, slot);
    CleanFields(ReceivedFields(i, slot));
  }

  lemma {:induction false} SentSays(i: nat, entry: SentEntry)
    ensures SaysSent(SentLine(i, entry), i, entry)
  {
    hide SplitOn, JoinOn, Decimal;
    SentFieldsClean(i, entry);
    CleanFields(SentFields(i, entry));
  }

  // ----- what a text can give back -----

  // A ring: filled from its first place until it is full.
  predicate IsRing(head: nat, filled: nat, capacity: nat) {
    head < capacity && filled <= capacity && (filled < capacity ==> head == filled)
  }

  // Places that are not filled yet hold nothing, and so do deleted ones; the others hold a message with
  // an id within the counter and texts of limited size.
  predicate IsReceived(slot: InboxSlot, used: bool, sequence: nat) {
    var e := slot.entry;
    if !used || slot.deleted then slot == InboxSlot(InboxEntry(0, 0, "", "", "", false), true)
    else 0 < e.id <= sequence && e.recvEpoch < 0x1_0000_0000 && |e.sender| <= 1024 && |e.ts| <= 256 && |e.text| <= 323
  }

  predicate IsSent(e: SentEntry, used: bool, sequence: nat) {
    if !used then e == SentEntry(0, 0, "", "", false)
    else 0 < e.id <= sequence && e.sentEpoch < 0x1_0000_0000 && |e.target| <= 1024 && |e.text| <= 323
  }

  predicate IsStore(s: State) {
    && |s.inbox| == 50 && |s.sent| == 10
    && IsRing(s.inboxHead, s.inboxFilled, 50) && IsRing(s.sentHead, s.sentFilled, 10)
    && s.inboxSeq < 0x1_0000_0000 && s.sentSeq < 0x1_0000_0000
    && (forall i :: 0 <= i < 50 ==> IsReceived(s.inbox[i], i < s.inboxFilled, s.inboxSeq))
    && (forall i :: 0 <= i < 10 ==> IsSent(s.sent[i], i < s.sentFilled, s.sentSeq))
    && (forall i, j :: 0 <= i < j < 50 && !s.inbox[i].deleted && !s.inbox[j].deleted ==> s.inbox[i].entry.id != s.inbox[j].entry.id)
    && (forall i, j :: 0 <= i < j < 10 && s.sent[i].id != 0 && s.sent[j].id != 0 ==> s.sent[i].id != s.sent[j].id)
  }

  lemma {:induction false} InboxIs(s: State)
    requires Shaped(s) && s.inboxSeq < UINT32
    ensures InboxOk(s.inbox, s.inboxFilled) && InboxWithin(s.inbox)
            && (forall i :: 0 <= i < 50 && !s.inbox[i].deleted ==> s.inbox[i].entry.id <= s.inboxSeq)
            <==> (forall i :: 0 <= i < 50 ==> IsReceived(s.inbox[i], i < s.inboxFilled, s.inboxSeq))
                 && (forall i, j :: 0 <= i < j < 50 && !s.inbox[i].deleted && !s.inbox[j].deleted ==> s.inbox[i].entry.id != s.inbox[j].entry.id)
  {
    forall j | 0 <= j < 50
      ensures NewId(s.inbox[..j], s.inbox[j]) <==>
              s.inbox[j].deleted || forall i :: 0 <= i < j && !s.inbox[i].deleted ==> s.inbox[i].entry.id != s.inbox[j].entry.id
    {
      assert forall i :: 0 <= i < j ==> s.inbox[..j][i] == s.inbox[i];
    }
  }

  lemma {:induction false} SentsAre(s: State)
    requires Shaped(s) && s.sentSeq < UINT32
    ensures SentsOk(s.sent, s.sentFilled) && SentsWithin(s.sent) && (forall i :: 0 <= i < 10 ==> s.sent[i].id <= s.sentSeq)
            <==> (forall i :: 0 <= i < 10 ==> IsSent(s.sent[i], i < s.sentFilled, s.sentSeq))
                 && (forall i, j :: 0 <= i < j < 10 && s.sent[i].id != 0 && s.sent[j].id != 0 ==> s.sent[i].id != s.sent[j].id)
  {
    forall j | 0 <= j < 10
      ensures NewSentId(s.sent[..j], s.sent[j]) <==>
              s.sent[j].id == 0 || forall i :: 0 <= i < j && s.sent[i].id != 0 ==> s.sent[i].id != s.sent[j].id
    {
      assert forall i :: 0 <= i < j ==> s.sent[..j][i] == s.sent[i];
    }
  }

  lemma {:induction false} WellFormedIs(s: State)
    ensures WellFormed(s) && Within(s) <==> IsStore(s)
  {
    hide InboxOk, SentsOk, InboxWithin, SentsWithin, IsReceived, IsSent;
    if Shaped(s) && s.inboxSeq < UINT32 && s.sentSeq < UINT32 {
      InboxIs(s);
      SentsAre(s);
    }
  }

  // The stores that a text gives back are exactly these, and each of them comes back from its own text.
  lemma {:induction false} RestoreGives(s: State)
    ensures (exists data :: Restore(data) == Some(s)) <==> IsStore(s)
    ensures IsStore(s) ==> Restore(TextOf(s)) == Some(s)
    ensures forall data: Bytes :: |data| > 262_144 ==> Restore(data).None?
  {
    hide WellFormed, Within, IsStore, ReadStore, TextOf;
    WellFormedIs(s);
    forall data | Restore(data) == Some(s) ensures IsStore(s) { RestoredIsWellFormed(data); }
    if IsStore(s) { SnapshotRoundTrip(s); }
  }

  // ----- which texts give it back -----

  // A field that is read as a number: a numeral up to the first NUL, or nothing in front of a NUL.
  ghost predicate IsNumber(field: Bytes, v: nat) {
    field != "" && field[0] != '-' && (IsNumeral(CString(field), v) || (CString(field) == "" && v == 0))
  }

  ghost predicate SpellsMeta(f: seq<Bytes>, s: State) {
    && |f| == 7 && f[0] == "M"
    && IsNumber(f[1], s.inboxHead) && IsNumber(f[2], s.inboxFilled) && IsNumber(f[3], s.inboxSeq)
    && IsNumber(f[4], s.sentHead) && IsNumber(f[5], s.sentFilled) && IsNumber(f[6], s.sentSeq)
  }

  ghost predicate SpellsReceived(f: seq<Bytes>, i: nat, slot: InboxSlot) {
    var e := slot.entry;
    && |f| == 9 && f[0] == "R" && IsNumber(f[1], i) && f[2] == (if slot.deleted then "1" else "0")
    && IsNumber(f[3], e.id) && IsNumber(f[4], e.recvEpoch) && f[5] == (if e.forwarded then "1" else "0")
    && f[6] == Base64.Encode(e.sender) && f[7] == Base64.Encode(e.ts) && f[8] == Base64.Encode(e.text)
  }

  ghost predicate SpellsSent(f: seq<Bytes>, i: nat, e: SentEntry) {
    && |f| == 7 && f[0] == "S" && IsNumber(f[1], i) && IsNumber(f[2], e.id) && IsNumber(f[3], e.sentEpoch)
    && f[4] == (if e.ok then "1" else "0") && f[5] == Base64.Encode(e.target) && f[6] == Base64.Encode(e.text)
  }

  predicate IsBlank(line: Bytes) {
    forall i :: 0 <= i < |line| ==> IsSpace(line[i])
  }

  // The lines of a text that spells the store; behind the end there is nothing but white space.
  ghost predicate Spells(lines: seq<Bytes>, s: State)
    requires |s.inbox| == 50 && |s.sent| == 10
  {
    && |lines| >= 63 && lines[0] == "OMNISMS_MESSAGE_STORE_V1" && lines[62] == "END"
    && (forall i :: 63 <= i < |lines| ==> IsBlank(lines[i]))
    && SpellsMeta(SplitOn(lines[1], '\t'), s)
    && (forall i :: 0 <= i < 50 ==> SpellsReceived(SplitOn(lines[2 + i], '\t'), i, s.inbox[i]))
    && (forall i :: 0 <= i < 10 ==> SpellsSent(SplitOn(lines[52 + i], '\t'), i, s.sent[i]))
  }

  lemma {:induction false} ReadsNumber(field: Bytes, maximum: nat, v: nat)
    ensures ReadNumber(field, maximum) == Some(v) <==> IsNumber(field, v) && v <= maximum
  {
    hide ReadNumber, IsNumeral, CString;
    NumberIsExact(field, maximum, v);
  }

  lemma {:induction false} ReadsText(field: Bytes, maximum: nat, text: Bytes)
    ensures ReadText(field, maximum) == Some(text) <==> field == Base64.Encode(text) && |text| <= maximum
  {
    Base64.Bijection(text, field);
  }

  lemma {:induction false} ReadsFlag(field: Bytes, b: bool)
    ensures ReadFlag(field) == Some(b) <==> field == if b then "1" else "0"
  {
  }

  lemma {:induction false} ReadsMeta(f: seq<Bytes>, s: State)
    ensures MetaFrom(f) == Some(MetaOf(s)) <==>
            && SpellsMeta(f, s) && IsRing(s.inboxHead, s.inboxFilled, 50) && IsRing(s.sentHead, s.sentFilled, 10)
            && s.inboxSeq < 0x1_0000_0000 && s.sentSeq < 0x1_0000_0000
  {
    hide ReadNumber, IsNumber;
    if |f| == 7 {
      ReadsNumber(f[1], 49, s.inboxHead);
      ReadsNumber(f[2], 50, s.inboxFilled);
      ReadsNumber(f[3], 0xFFFF_FFFF, s.inboxSeq);
      ReadsNumber(f[4], 9, s.sentHead);
      ReadsNumber(f[5], 10, s.sentFilled);
      ReadsNumber(f[6], 0xFFFF_FFFF, s.sentSeq);
    }
  }

  lemma {:induction false} ReadsReceived(f: seq<Bytes>, i: nat, filled: nat, slot: InboxSlot)
    requires i < 50 && filled <= 50
    ensures ReceivedFrom(f, i, filled) == Some(slot) <==>
            SpellsReceived(f, i, slot) && SlotOk(i, filled, slot) && SlotWithin(slot)
  {
    hide ReadNumber, IsNumber, ReadText, ReadFlag;
    if |f| == 9 {
      ReadsNumber(f[1], 49, i);
      ReadsNumber(f[3], 0xFFFF_FFFF, slot.entry.id);
      ReadsNumber(f[4], 0xFFFF_FFFF, slot.entry.recvEpoch);
      ReadsFlag(f[2], slot.deleted);
      ReadsFlag(f[5], slot.entry.forwarded);
      ReadsText(f[6], 1024, slot.entry.sender);
      ReadsText(f[7], 256, slot.entry.ts);
      ReadsText(f[8], 323, slot.entry.text);
    }
  }

  lemma {:induction false} ReadsSent(f: seq<Bytes>, i: nat, filled: nat, e: SentEntry)
    requires i < 10 && filled <= 10
    ensures SentFrom(f, i, filled) == Some(e) <==> SpellsSent(f, i, e) && SentOk(i, filled, e) && SentWithin(e)
  {
    hide ReadNumber, IsNumber, ReadText, ReadFlag;
    if |f| == 7 {
      ReadsNumber(f[1], 9, i);
      ReadsNumber(f[2], 0xFFFF_FFFF, e.id);
      ReadsNumber(f[3], 0xFFFF_FFFF, e.sentEpoch);
      ReadsFlag(f[4], e.ok);
      ReadsText(f[5], 1024, e.target);
      ReadsText(f[6], 323, e.text);
    }
  }

  lemma {:induction false} ReadsInbox(lines: seq<Bytes>, filled: nat, inbox: seq<InboxSlot>)
    ensures ReadInbox(lines, filled) == Some(inbox) <==>
            |inbox| == |lines| && forall i :: 0 <= i < |lines| ==>
              ReadReceived(lines[i], i, filled) == Some(inbox[i]) && NewId(inbox[..i], inbox[i])
  {
    hide ReadReceived, NewId;
    if lines != [] && |inbox| == |lines| {
      var n := |lines| - 1;
      ReadsInbox(lines[..n], filled, inbox[..n]);
      assert lines == lines[..n] + [lines[n]] && inbox == inbox[..n] + [inbox[n]];
      assert forall i :: 0 <= i < n ==> inbox[..n][..i] == inbox[..i] && inbox[..n][i] == inbox[i] && lines[..n][i] == lines[i];
    }
  }

  lemma {:induction false} ReadsSents(lines: seq<Bytes>, filled: nat, sent: seq<SentEntry>)
    ensures ReadSents(lines, filled) == Some(sent) <==>
            |sent| == |lines| && forall i :: 0 <= i < |lines| ==>
              ReadSent(lines[i], i, filled) == Some(sent[i]) && NewSentId(sent[..i], sent[i])
  {
    hide ReadSent, NewSentId;
    if lines != [] && |sent| == |lines| {
      var n := |lines| - 1;
      ReadsSents(lines[..n], filled, sent[..n]);
      assert lines == lines[..n] + [lines[n]] && sent == sent[..n] + [sent[n]];
      assert forall i :: 0 <= i < n ==> sent[..n][..i] == sent[..i] && sent[..n][i] == sent[i] && lines[..n][i] == lines[i];
    }
  }

  lemma {:induction false} BlankIs(line: Bytes)
    ensures Trim(line) == "" <==> IsBlank(line)
  {
    var k := TrimLeftOnlyDropsSpaces(line);
    var j := TrimRightOnlyDropsSpaces(TrimLeft(line));
    if TrimLeft(line) != "" { assert !IsSpace(line[k]); }
  }

  lemma {:induction false} InboxSpelled(lines: seq<Bytes>, filled: nat, inbox: seq<InboxSlot>)
    requires |lines| == |inbox| == 50 && filled <= 50
    ensures ReadInbox(lines, filled) == Some(inbox) <==>
            && InboxOk(inbox, filled) && InboxWithin(inbox)
            && forall i :: 0 <= i < 50 ==> SpellsReceived(SplitOn(lines[i], '\t'), i, inbox[i])
  {
    hide ReceivedFrom, NewId, SlotOk, SlotWithin, SpellsReceived, ReadInbox, SplitOn;
    ReadsInbox(lines, filled, inbox);
    forall i | 0 <= i < 50
      ensures ReadReceived(lines[i], i, filled) == Some(inbox[i]) <==>
              SpellsReceived(SplitOn(lines[i], '\t'), i, inbox[i]) && SlotOk(i, filled, inbox[i]) && SlotWithin(inbox[i]) {
      ReadsReceived(SplitOn(lines[i], '\t'), i, filled, inbox[i]);
    }
    hide ReadReceived;
  }

  lemma {:induction false} SentsSpelled(lines: seq<Bytes>, filled: nat, sent: seq<SentEntry>)
    requires |lines| == |sent| == 10 && filled <= 10
    ensures ReadSents(lines, filled) == Some(sent) <==>
            && SentsOk(sent, filled) && SentsWithin(sent)
            && forall i :: 0 <= i < 10 ==> SpellsSent(SplitOn(lines[i], '\t'), i, sent[i])
  {
    hide SentFrom, NewSentId, SentOk, SentWithin, SpellsSent, ReadSents, SplitOn;
    ReadsSents(lines, filled, sent);
    forall i | 0 <= i < 10
      ensures ReadSent(lines[i], i, filled) == Some(sent[i]) <==>
              SpellsSent(SplitOn(lines[i], '\t'), i, sent[i]) && SentOk(i, filled, sent[i]) && SentWithin(sent[i]) {
      ReadsSent(SplitOn(lines[i], '\t'), i, filled, sent[i]);
    }
    hide ReadSent;
  }

  lemma {:induction false} BlanksAre(lines: seq<Bytes>)
    ensures (exists i :: 62 < i < |lines| && Trim(lines[i]) != "") <==> !(forall i :: 63 <= i < |lines| ==> IsBlank(lines[i]))
  {
    hide Trim, IsBlank;
    forall i | 0 <= i < |lines| ensures Trim(lines[i]) == "" <==> IsBlank(lines[i]) { BlankIs(lines[i]); }
  }

  // The two rings of the lines.
  lemma {:induction false} RingsSpelled(lines: seq<Bytes>, s: State)
    requires |lines| >= 63 && |s.inbox| == 50 && |s.sent| == 10 && s.inboxFilled <= 50 && s.sentFilled <= 10
    ensures ReadInbox(lines[2..52], s.inboxFilled) == Some(s.inbox) && ReadSents(lines[52..62], s.sentFilled) == Some(s.sent) <==>
            && InboxOk(s.inbox, s.inboxFilled) && InboxWithin(s.inbox) && SentsOk(s.sent, s.sentFilled) && SentsWithin(s.sent)
            && (forall i :: 0 <= i < 50 ==> SpellsReceived(SplitOn(lines[2 + i], '\t'), i, s.inbox[i]))
            && (forall i :: 0 <= i < 10 ==> SpellsSent(SplitOn(lines[52 + i], '\t'), i, s.sent[i]))
  {
    hide InboxOk, InboxWithin, SentsOk, SentsWithin, SpellsReceived, SpellsSent, SplitOn, ReadInbox, ReadSents;
    var a, b := lines[2..52], lines[52..62];
    assert forall i :: 0 <= i < 50 ==> a[i] == lines[2 + i];
    assert forall i :: 0 <= i < 10 ==> b[i] == lines[52 + i];
    InboxSpelled(a, s.inboxFilled, s.inbox);
    SentsSpelled(b, s.sentFilled, s.sent);
  }

  lemma {:induction false} StoreSpelled(lines: seq<Bytes>, s: State)
    requires |s.inbox| == 50 && |s.sent| == 10
    ensures ReadStore(lines) == Some(s) <==> IsStore(s) && Spells(lines, s)
  {
    hide IsStore, InboxOk, InboxWithin, SentsOk, SentsWithin, SpellsReceived, SpellsSent, SpellsMeta, SplitOn, ReadInbox, ReadSents,
      MetaFrom, Trim, IsBlank, WithinSequence;
    WellFormedIs(s);
    if |lines| >= 63 {
      BlanksAre(lines);
      ReadsMeta(SplitOn(lines[1], '\t'), s);
      if s.inboxFilled <= 50 && s.sentFilled <= 10 { RingsSpelled(lines, s); }
    }
  }

  // A text gives this store back exactly when it has at most 256 KiB and its lines spell the store.
  lemma {:induction false} RestoreIsExact(data: Bytes, s: State)
    ensures Restore(data) == Some(s) <==> |data| <= 262_144 && IsStore(s) && Spells(LinesOf(data), s)
  {
    hide IsStore, Spells, ReadStore, WellFormed;
    if Restore(data) == Some(s) {
      RestoredIsWellFormed(data);
      WellFormedIs(s);
    }
    StoreHasRings(s);
    if IsStore(s) || Restore(data) == Some(s) { StoreSpelled(LinesOf(data), s); }
  }

  lemma {:induction false} StoreHasRings(s: State)
    ensures IsStore(s) ==> |s.inbox| == 50 && |s.sent| == 10
  {
  }
}
