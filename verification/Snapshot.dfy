// The exact snapshot of the message store: snapshot and restore_snapshot of core/src/inbox.cpp.
module Snapshot {
  import opened Text
  import opened Store
  import opened Lines
  import Base64

  const HEADER: Bytes := "OMNISMS_MESSAGE_STORE_V1"
  const CAP := 262_144
  const SENDER_MAX := 1024
  const TS_MAX := 256
  const TEXT_MAX := 323

  // ----- writing -----

  function MetaFields(s: State): seq<Bytes> {
    ["M", Decimal(s.inboxHead), Decimal(s.inboxFilled), Decimal(s.inboxSeq),
     Decimal(s.sentHead), Decimal(s.sentFilled), Decimal(s.sentSeq)]
  }

  function ReceivedFields(i: nat, slot: InboxSlot): seq<Bytes> {
    ["R", Decimal(i), Flag(slot.deleted), Decimal(slot.entry.id), Decimal(slot.entry.recvEpoch),
     Flag(slot.entry.forwarded), Base64.Encode(slot.entry.sender), Base64.Encode(slot.entry.ts), Base64.Encode(slot.entry.text)]
  }

  function SentFields(i: nat, entry: SentEntry): seq<Bytes> {
    ["S", Decimal(i), Decimal(entry.id), Decimal(entry.sentEpoch), Flag(entry.ok),
     Base64.Encode(entry.target), Base64.Encode(entry.text)]
  }

  function MetaLine(s: State): Bytes {
    JoinOn(MetaFields(s), '\t')
  }

  function ReceivedLine(i: nat, slot: InboxSlot): Bytes {
    JoinOn(ReceivedFields(i, slot), '\t')
  }

  function SentLine(i: nat, entry: SentEntry): Bytes {
    JoinOn(SentFields(i, entry), '\t')
  }

  function ReceivedLines(inbox: seq<InboxSlot>): (r: seq<Bytes>)
    ensures |r| == |inbox|
  {
    if inbox == [] then []
    else ReceivedLines(inbox[..|inbox| - 1]) + [ReceivedLine(|inbox| - 1, inbox[|inbox| - 1])]
  }

  function SentLines(sent: seq<SentEntry>): (r: seq<Bytes>)
    ensures |r| == |sent|
  {
    if sent == [] then []
    else SentLines(sent[..|sent| - 1]) + [SentLine(|sent| - 1, sent[|sent| - 1])]
  }

  lemma {:induction false} ReceivedLineAt(inbox: seq<InboxSlot>, i: nat)
    requires i < |inbox|
    ensures ReceivedLines(inbox)[i] == ReceivedLine(i, inbox[i])
  {
    if i < |inbox| - 1 { ReceivedLineAt(inbox[..|inbox| - 1], i); }
  }

  lemma {:induction false} SentLineAt(sent: seq<SentEntry>, i: nat)
    requires i < |sent|
    ensures SentLines(sent)[i] == SentLine(i, sent[i])
  {
    if i < |sent| - 1 { SentLineAt(sent[..|sent| - 1], i); }
  }

  function AllLines(s: State): seq<Bytes> {
    [HEADER, MetaLine(s)] + ReceivedLines(s.inbox) + SentLines(s.sent) + ["END"]
  }

  function TextOf(s: State): Bytes {
    Unlines(AllLines(s))
  }

  // ----- reading -----

  datatype Meta = Meta(inboxHead: nat, inboxFilled: nat, inboxSeq: nat, sentHead: nat, sentFilled: nat, sentSeq: nat)

  function MetaFrom(f: seq<Bytes>): Option<Meta> {
    if |f| != 7 || f[0] != "M" then None
    else
      var a, b, c := ReadNumber(f[1], INBOX_CAPACITY - 1), ReadNumber(f[2], INBOX_CAPACITY), ReadNumber(f[3], UINT32 - 1);
      var d, e, g := ReadNumber(f[4], SENT_CAPACITY - 1), ReadNumber(f[5], SENT_CAPACITY), ReadNumber(f[6], UINT32 - 1);
      if a.None? || b.None? || c.None? || d.None? || e.None? || g.None? then None
      else if b.value < INBOX_CAPACITY && a.value != b.value then None
      else if e.value < SENT_CAPACITY && d.value != e.value then None
      else Some(Meta(a.value, b.value, c.value, d.value, e.value, g.value))
  }

  function ReadText(raw: Bytes, maximum: nat): Option<Bytes> {
    match Base64.Decode(raw)
    case None => None
    case Some(text) => if |text| <= maximum then Some(text) else None
  }

  predicate Outside(i: nat, filled: nat, capacity: nat) {
    i >= filled && filled < capacity
  }

  function ReceivedFrom(f: seq<Bytes>, i: nat, filled: nat): Option<InboxSlot> {
    if |f| != 9 || f[0] != "R" then None
    else
      var index, deleted, id := ReadNumber(f[1], INBOX_CAPACITY - 1), ReadFlag(f[2]), ReadNumber(f[3], UINT32 - 1);
      var epoch, forwarded := ReadNumber(f[4], UINT32 - 1), ReadFlag(f[5]);
      var sender, ts, text := ReadText(f[6], SENDER_MAX), ReadText(f[7], TS_MAX), ReadText(f[8], TEXT_MAX);
      if index != Some(i) || deleted.None? || id.None? || epoch.None? || forwarded.None? then None
      else if sender.None? || ts.None? || text.None? then None
      else
        var slot := InboxSlot(InboxEntry(id.value, epoch.value, sender.value, ts.value, text.value, forwarded.value), deleted.value);
        if Outside(i, filled, INBOX_CAPACITY) || slot.deleted
        then (if slot == HOLE then Some(slot) else None)
        else if slot.entry.id == 0 then None else Some(slot)
  }

  function SentFrom(f: seq<Bytes>, i: nat, filled: nat): Option<SentEntry> {
    if |f| != 7 || f[0] != "S" then None
    else
      var index, id, epoch := ReadNumber(f[1], SENT_CAPACITY - 1), ReadNumber(f[2], UINT32 - 1), ReadNumber(f[3], UINT32 - 1);
      var ok, target, text := ReadFlag(f[4]), ReadText(f[5], SENDER_MAX), ReadText(f[6], TEXT_MAX);
      if index != Some(i) || id.None? || epoch.None? || ok.None? then None
      else if target.None? || text.None? then None
      else
        var entry := SentEntry(id.value, epoch.value, target.value, text.value, ok.value);
        if Outside(i, filled, SENT_CAPACITY)
        then (if entry == NO_SENT then Some(entry) else None)
        else if entry.id == 0 then None else Some(entry)
  }

  function ReadMeta(line: Bytes): Option<Meta> {
    MetaFrom(SplitOn(line, '\t'))
  }

  function ReadReceived(line: Bytes, i: nat, filled: nat): Option<InboxSlot> {
    ReceivedFrom(SplitOn(line, '\t'), i, filled)
  }

  function ReadSent(line: Bytes, i: nat, filled: nat): Option<SentEntry> {
    SentFrom(SplitOn(line, '\t'), i, filled)
  }

  // A live slot may not repeat the id of an earlier live one.
  predicate NewId(inbox: seq<InboxSlot>, slot: InboxSlot) {
    slot.deleted || forall j :: 0 <= j < |inbox| && !inbox[j].deleted ==> inbox[j].entry.id != slot.entry.id
  }

  predicate NewSentId(sent: seq<SentEntry>, entry: SentEntry) {
    entry.id == 0 || forall j :: 0 <= j < |sent| && sent[j].id != 0 ==> sent[j].id != entry.id
  }

  function ReadInbox(lines: seq<Bytes>, filled: nat): (r: Option<seq<InboxSlot>>)
    ensures r.Some? ==> |r.value| == |lines|
  {
    if lines == [] then Some([])
    else
      var n := |lines| - 1;
      match ReadInbox(lines[..n], filled)
      case None => None
      case Some(inbox) =>
        match ReadReceived(lines[n], n, filled)
        case None => None
        case Some(slot) => if NewId(inbox, slot) then Some(inbox + [slot]) else None
  }

  function ReadSents(lines: seq<Bytes>, filled: nat): (r: Option<seq<SentEntry>>)
    ensures r.Some? ==> |r.value| == |lines|
  {
    if lines == [] then Some([])
    else
      var n := |lines| - 1;
      match ReadSents(lines[..n], filled)
      case None => None
      case Some(sent) =>
        match ReadSent(lines[n], n, filled)
        case None => None
        case Some(entry) => if NewSentId(sent, entry) then Some(sent + [entry]) else None
  }

  predicate WithinSequence(inbox: seq<InboxSlot>, sent: seq<SentEntry>, m: Meta) {
    && (forall i :: 0 <= i < |inbox| && !inbox[i].deleted ==> inbox[i].entry.id <= m.inboxSeq)
    && (forall i :: 0 <= i < |sent| ==> sent[i].id <= m.sentSeq)
  }

  function ReadStore(lines: seq<Bytes>): Option<State> {
    var a, b := 2 + INBOX_CAPACITY, 2 + INBOX_CAPACITY + SENT_CAPACITY;
    if |lines| <= b || lines[0] != HEADER || lines[b] != "END" then None
    else if exists i :: b < i < |lines| && Trim(lines[i]) != "" then None
    else match ReadMeta(lines[1])
      case None => None
      case Some(m) =>
        match ReadInbox(lines[2..a], m.inboxFilled)
        case None => None
        case Some(inbox) =>
          match ReadSents(lines[a..b], m.sentFilled)
          case None => None
          case Some(sent) =>
            if WithinSequence(inbox, sent, m)
            then Some(State(inbox, sent, m.inboxHead, m.inboxFilled, m.inboxSeq, m.sentHead, m.sentFilled, m.sentSeq))
            else None
  }

  function Restore(data: Bytes): Option<State> {
    if |data| > CAP then None else ReadStore(LinesOf(data))
  }

  // ----- what a restored store satisfies -----

  // What restore_snapshot checks. It is weaker than the invariant of a store that was filled by its
  // own operations in one respect: the order of the ids in the rings is not looked at.
  predicate WellFormed(s: State) {
    && Shaped(s) && s.inboxSeq < UINT32 && s.sentSeq < UINT32
    && InboxOk(s.inbox, s.inboxFilled) && SentsOk(s.sent, s.sentFilled)
    && WithinSequence(s.inbox, s.sent, MetaOf(s))
  }

  function MetaOf(s: State): Meta {
    Meta(s.inboxHead, s.inboxFilled, s.inboxSeq, s.sentHead, s.sentFilled, s.sentSeq)
  }

  predicate SlotWithin(slot: InboxSlot) {
    |slot.entry.sender| <= SENDER_MAX && |slot.entry.ts| <= TS_MAX && |slot.entry.text| <= TEXT_MAX
  }

  predicate SentWithin(entry: SentEntry) {
    |entry.target| <= SENDER_MAX && |entry.text| <= TEXT_MAX
  }

  predicate InboxWithin(inbox: seq<InboxSlot>) {
    forall i :: 0 <= i < |inbox| ==> SlotWithin(inbox[i])
  }

  predicate SentsWithin(sent: seq<SentEntry>) {
    forall i :: 0 <= i < |sent| ==> SentWithin(sent[i])
  }

  // Every field within the limits of the format.
  predicate Within(s: State) {
    InboxWithin(s.inbox) && SentsWithin(s.sent)
  }

  // ----- one field, one line -----

  lemma {:induction false} TextRoundTrip(text: Bytes, maximum: nat)
    ensures ReadText(Base64.Encode(text), maximum) == if |text| <= maximum then Some(text) else None
  {
    Base64.DecodeEncode(text);
  }

  predicate Clean(s: Bytes) {
    forall i :: 0 <= i < |s| ==> s[i] as int > 32
  }

  lemma {:induction false} DecimalIsClean(n: nat)
    ensures Clean(Decimal(n))
  {
    DecimalIsNumber(n);
  }

  lemma {:induction false} CleanLacks(s: Bytes)
    requires Clean(s)
    ensures Lacks(s, '\t') && Lacks(s, '\n') && Lacks(s, '\r')
  {
  }

  lemma {:induction false} ReceivedFieldsClean(i: nat, slot: InboxSlot)
    ensures forall k :: 0 <= k < 9 ==> Clean(ReceivedFields(i, slot)[k])
  {
    DecimalIsClean(i);
    DecimalIsClean(slot.entry.id);
    DecimalIsClean(slot.entry.recvEpoch);
    Base64.EncodeShape(slot.entry.sender);
    Base64.EncodeShape(slot.entry.ts);
    Base64.EncodeShape(slot.entry.text);
  }

  lemma {:induction false} SentFieldsClean(i: nat, entry: SentEntry)
    ensures forall k :: 0 <= k < 7 ==> Clean(SentFields(i, entry)[k])
  {
    DecimalIsClean(i);
    DecimalIsClean(entry.id);
    DecimalIsClean(entry.sentEpoch);
    Base64.EncodeShape(entry.target);
    Base64.EncodeShape(entry.text);
  }

  lemma {:induction false} MetaFieldsClean(s: State)
    ensures forall k :: 0 <= k < 7 ==> Clean(MetaFields(s)[k])
  {
    DecimalIsClean(s.inboxHead);
    DecimalIsClean(s.inboxFilled);
    DecimalIsClean(s.inboxSeq);
    DecimalIsClean(s.sentHead);
    DecimalIsClean(s.sentFilled);
    DecimalIsClean(s.sentSeq);
  }

  // Clean fields split again, and their line is a line.
  lemma {:induction false} CleanFields(fields: seq<Bytes>)
    requires fields != [] && forall k :: 0 <= k < |fields| ==> Clean(fields[k])
    ensures SplitOn(JoinOn(fields, '\t'), '\t') == fields
    ensures IsLine(JoinOn(fields, '\t'))
  {
    forall k | 0 <= k < |fields| ensures Lacks(fields[k], '\t') { CleanLacks(fields[k]); }
    SplitJoin(fields, '\t');
    JoinedLine(fields);
  }

  lemma {:induction false} JoinedLine(fields: seq<Bytes>)
    requires forall k :: 0 <= k < |fields| ==> Clean(fields[k])
    ensures forall i :: 0 <= i < |JoinOn(fields, '\t')| ==> JoinOn(fields, '\t')[i] != '\n' && JoinOn(fields, '\t')[i] != '\r'
  {
    if |fields| == 1 {
      CleanLacks(fields[0]);
    } else if |fields| > 1 {
      CleanLacks(fields[0]);
      JoinedLine(fields[1..]);
    }
  }

  lemma {:induction false} MetaRoundTrip(s: State)
    requires WellFormed(s)
    ensures ReadMeta(MetaLine(s)) ==
            Some(MetaOf(s))
  {
    MetaFieldsClean(s);
    CleanFields(MetaFields(s));
    NumberRoundTrip(s.inboxHead, INBOX_CAPACITY - 1);
    NumberRoundTrip(s.inboxFilled, INBOX_CAPACITY);
    NumberRoundTrip(s.inboxSeq, UINT32 - 1);
    NumberRoundTrip(s.sentHead, SENT_CAPACITY - 1);
    NumberRoundTrip(s.sentFilled, SENT_CAPACITY);
    NumberRoundTrip(s.sentSeq, UINT32 - 1);
  }

  // A slot that the store can hold is read back when its fields are within the limits, and refused
  // otherwise.
  predicate SlotOk(i: nat, filled: nat, slot: InboxSlot) {
    if Outside(i, filled, INBOX_CAPACITY) || slot.deleted then slot == HOLE
    else 0 < slot.entry.id < UINT32 && slot.entry.recvEpoch < UINT32
  }

  lemma {:induction false} ReceivedRoundTrip(i: nat, filled: nat, slot: InboxSlot)
    requires i < INBOX_CAPACITY && SlotOk(i, filled, slot)
    ensures ReadReceived(ReceivedLine(i, slot), i, filled) == if SlotWithin(slot) then Some(slot) else None
  {
    hide JoinOn, SplitOn, ReadNumber, ReadText, Decimal;
    ReceivedFieldsClean(i, slot);
    CleanFields(ReceivedFields(i, slot));
    NumberRoundTrip(i, INBOX_CAPACITY - 1);
    NumberRoundTrip(slot.entry.id, UINT32 - 1);
    NumberRoundTrip(slot.entry.recvEpoch, UINT32 - 1);
    TextRoundTrip(slot.entry.sender, SENDER_MAX);
    TextRoundTrip(slot.entry.ts, TS_MAX);
    TextRoundTrip(slot.entry.text, TEXT_MAX);
  }

  predicate SentOk(i: nat, filled: nat, entry: SentEntry) {
    if Outside(i, filled, SENT_CAPACITY) then entry == NO_SENT
    else 0 < entry.id < UINT32 && entry.sentEpoch < UINT32
  }

  lemma {:induction false} SentRoundTrip(i: nat, filled: nat, entry: SentEntry)
    requires i < SENT_CAPACITY && SentOk(i, filled, entry)
    ensures ReadSent(SentLine(i, entry), i, filled) == if SentWithin(entry) then Some(entry) else None
  {
    hide JoinOn, SplitOn, ReadNumber, ReadText, Decimal;
    SentFieldsClean(i, entry);
    CleanFields(SentFields(i, entry));
    NumberRoundTrip(i, SENT_CAPACITY - 1);
    NumberRoundTrip(entry.id, UINT32 - 1);
    NumberRoundTrip(entry.sentEpoch, UINT32 - 1);
    TextRoundTrip(entry.target, SENDER_MAX);
    TextRoundTrip(entry.text, TEXT_MAX);
  }

  // ----- all lines -----

  // Slots that may stand in one box: each right for its place, and with no id used before.
  predicate InboxOk(inbox: seq<InboxSlot>, filled: nat) {
    forall i :: 0 <= i < |inbox| ==> SlotOk(i, filled, inbox[i]) && NewId(inbox[..i], inbox[i])
  }

  predicate SentsOk(sent: seq<SentEntry>, filled: nat) {
    forall i :: 0 <= i < |sent| ==> SentOk(i, filled, sent[i]) && NewSentId(sent[..i], sent[i])
  }

  lemma {:induction false} InboxShrinks(inbox: seq<InboxSlot>, slot: InboxSlot, filled: nat)
    requires InboxOk(inbox + [slot], filled)
    ensures InboxOk(inbox, filled) && SlotOk(|inbox|, filled, slot) && NewId(inbox, slot)
  {
    hide SlotOk, NewId;
    var all := inbox + [slot];
    forall i | 0 <= i < |inbox| ensures SlotOk(i, filled, inbox[i]) && NewId(inbox[..i], inbox[i]) {
      assert SlotOk(i, filled, all[i]) && NewId(all[..i], all[i]);
      assert all[..i] == inbox[..i];
    }
    assert SlotOk(|inbox|, filled, all[|inbox|]) && NewId(all[..|inbox|], all[|inbox|]);
    assert all[..|inbox|] == inbox;
  }

  lemma {:induction false} InboxWithinOne(inbox: seq<InboxSlot>, slot: InboxSlot)
    ensures InboxWithin(inbox + [slot]) <==> InboxWithin(inbox) && SlotWithin(slot)
  {
    hide SlotWithin;
    var all := inbox + [slot];
    assert all[|inbox|] == slot;
    assert forall i :: 0 <= i < |inbox| ==> all[i] == inbox[i];
  }

  lemma {:induction false} ReceivedLinesOne(inbox: seq<InboxSlot>, slot: InboxSlot)
    ensures ReceivedLines(inbox + [slot]) == ReceivedLines(inbox) + [ReceivedLine(|inbox|, slot)]
  {
    hide ReceivedLine;
    assert (inbox + [slot])[..|inbox|] == inbox;
  }

  lemma {:induction false} ReadInboxOne(lines: seq<Bytes>, line: Bytes, filled: nat)
    ensures var earlier, last := ReadInbox(lines, filled), ReadReceived(line, |lines|, filled);
            ReadInbox(lines + [line], filled) ==
            if earlier.Some? && last.Some? && NewId(earlier.value, last.value) then Some(earlier.value + [last.value]) else None
  {
    hide ReadReceived, NewId;
    assert (lines + [line])[..|lines|] == lines;
  }

  lemma {:induction false} InboxRoundTrip(inbox: seq<InboxSlot>, filled: nat)
    requires |inbox| <= INBOX_CAPACITY && InboxOk(inbox, filled)
    ensures ReadInbox(ReceivedLines(inbox), filled) == if InboxWithin(inbox) then Some(inbox) else None
  {
    assert InboxWithin([]) && ReceivedLines([]) == [] && ReadInbox([], filled) == Some([]);
    hide ReceivedLine, ReadReceived, NewId, SlotWithin, InboxOk, InboxWithin, ReceivedLines, ReadInbox;
    if inbox != [] {
      var n := |inbox| - 1;
      var earlier, last := inbox[..n], inbox[n];
      assert inbox == earlier + [last];
      InboxShrinks(earlier, last, filled);
      InboxWithinOne(earlier, last);
      InboxRoundTrip(earlier, filled);
      ReceivedRoundTrip(n, filled, last);
      ReceivedLinesOne(earlier, last);
      ReadInboxOne(ReceivedLines(earlier), ReceivedLine(n, last), filled);
    }
  }

  lemma {:induction false} SentsShrink(sent: seq<SentEntry>, entry: SentEntry, filled: nat)
    requires SentsOk(sent + [entry], filled)
    ensures SentsOk(sent, filled) && SentOk(|sent|, filled, entry) && NewSentId(sent, entry)
  {
    hide SentOk, NewSentId;
    var all := sent + [entry];
    forall i | 0 <= i < |sent| ensures SentOk(i, filled, sent[i]) && NewSentId(sent[..i], sent[i]) {
      assert SentOk(i, filled, all[i]) && NewSentId(all[..i], all[i]);
      assert all[..i] == sent[..i];
    }
    assert SentOk(|sent|, filled, all[|sent|]) && NewSentId(all[..|sent|], all[|sent|]);
    assert all[..|sent|] == sent;
  }

  lemma {:induction false} SentsWithinOne(sent: seq<SentEntry>, entry: SentEntry)
    ensures SentsWithin(sent + [entry]) <==> SentsWithin(sent) && SentWithin(entry)
  {
    hide SentWithin;
    var all := sent + [entry];
    assert all[|sent|] == entry;
    assert forall i :: 0 <= i < |sent| ==> all[i] == sent[i];
  }

  lemma {:induction false} SentLinesOne(sent: seq<SentEntry>, entry: SentEntry)
    ensures SentLines(sent + [entry]) == SentLines(sent) + [SentLine(|sent|, entry)]
  {
    hide SentLine;
    assert (sent + [entry])[..|sent|] == sent;
  }

  lemma {:induction false} ReadSentsOne(lines: seq<Bytes>, line: Bytes, filled: nat)
    ensures var earlier, last := ReadSents(lines, filled), ReadSent(line, |lines|, filled);
            ReadSents(lines + [line], filled) ==
            if earlier.Some? && last.Some? && NewSentId(earlier.value, last.value) then Some(earlier.value + [last.value]) else None
  {
    hide ReadSent, NewSentId;
    assert (lines + [line])[..|lines|] == lines;
  }

  lemma {:induction false} SentsRoundTrip(sent: seq<SentEntry>, filled: nat)
    requires |sent| <= SENT_CAPACITY && SentsOk(sent, filled)
    ensures ReadSents(SentLines(sent), filled) == if SentsWithin(sent) then Some(sent) else None
  {
    assert SentsWithin([]) && SentLines([]) == [] && ReadSents([], filled) == Some([]);
    hide SentLine, ReadSent, NewSentId, SentWithin, SentsOk, SentsWithin, SentLines, ReadSents;
    if sent != [] {
      var n := |sent| - 1;
      var earlier, last := sent[..n], sent[n];
      assert sent == earlier + [last];
      SentsShrink(earlier, last, filled);
      SentsWithinOne(earlier, last);
      SentsRoundTrip(earlier, filled);
      SentRoundTrip(n, filled, last);
      SentLinesOne(earlier, last);
      ReadSentsOne(SentLines(earlier), SentLine(n, last), filled);
    }
  }

  lemma {:induction false} ReceivedIsLine(i: nat, slot: InboxSlot)
    ensures IsLine(ReceivedLine(i, slot))
  {
    ReceivedFieldsClean(i, slot);
    CleanFields(ReceivedFields(i, slot));
  }

  lemma {:induction false} SentIsLine(i: nat, entry: SentEntry)
    ensures IsLine(SentLine(i, entry))
  {
    SentFieldsClean(i, entry);
    CleanFields(SentFields(i, entry));
  }

  lemma {:induction false} AllAreLines(s: State)
    ensures forall i :: 0 <= i < |AllLines(s)| ==> IsLine(AllLines(s)[i])
  {
    hide ReceivedLine, SentLine, MetaFields, JoinOn;
    MetaIsLine(s);
    assert IsLine(HEADER) && IsLine("END");
    var r, t := ReceivedLines(s.inbox), SentLines(s.sent);
    forall i | 0 <= i < |r| ensures IsLine(r[i]) { ReceivedLineAt(s.inbox, i); ReceivedIsLine(i, s.inbox[i]); }
    forall i | 0 <= i < |t| ensures IsLine(t[i]) { SentLineAt(s.sent, i); SentIsLine(i, s.sent[i]); }
    LinesOfAll([HEADER, MetaLine(s)], r, t, ["END"]);
  }

  lemma {:induction false} MetaIsLine(s: State)
    ensures IsLine(MetaLine(s))
  {
    MetaFieldsClean(s);
    CleanFields(MetaFields(s));
  }

  lemma {:induction false} LinesOfAll(a: seq<Bytes>, b: seq<Bytes>, c: seq<Bytes>, d: seq<Bytes>)
    requires forall i :: 0 <= i < |a| ==> IsLine(a[i])
    requires forall i :: 0 <= i < |b| ==> IsLine(b[i])
    requires forall i :: 0 <= i < |c| ==> IsLine(c[i])
    requires forall i :: 0 <= i < |d| ==> IsLine(d[i])
    ensures forall i :: 0 <= i < |a + b + c + d| ==> IsLine((a + b + c + d)[i])
  {
    hide IsLine;
  }

  lemma {:induction false} LinesRoundTrip(s: State)
    requires WellFormed(s)
    ensures ReadStore(AllLines(s)) == if Within(s) then Some(s) else None
  {
    hide ReadInbox, ReadSents, ReadMeta, MetaLine, ReceivedLines, SentLines, InboxOk, SentsOk, InboxWithin, SentsWithin, WithinSequence;
    var lines := AllLines(s);
    var a, b := 2 + INBOX_CAPACITY, 2 + INBOX_CAPACITY + SENT_CAPACITY;
    assert lines[2..a] == ReceivedLines(s.inbox) && lines[a..b] == SentLines(s.sent);
    assert lines[1] == MetaLine(s) && lines[b] == "END" && |lines| == b + 1;
    MetaRoundTrip(s);
    InboxRoundTrip(s.inbox, s.inboxFilled);
    SentsRoundTrip(s.sent, s.sentFilled);
  }

  // ----- the size of the text -----

  lemma {:induction false} JoinOnLength(fields: seq<Bytes>, bounds: seq<nat>)
    requires |fields| == |bounds| && forall k :: 0 <= k < |fields| ==> |fields[k]| <= bounds[k]
    ensures |JoinOn(fields, '\t')| <= Sum(bounds) + |fields|
  {
    if |fields| > 1 { JoinOnLength(fields[1..], bounds[1..]); }
  }

  function Sum(bounds: seq<nat>): nat {
    if bounds == [] then 0 else bounds[0] + Sum(bounds[1..])
  }

  lemma {:induction false} UnlinesLength(lines: seq<Bytes>, bound: nat)
    requires forall i :: 0 <= i < |lines| ==> |lines[i]| < bound
    ensures |Unlines(lines)| <= |lines| * bound
  {
    if lines != [] { UnlinesLength(lines[1..], bound); }
  }

  lemma {:induction false} SumNine(b: seq<nat>)
    requires |b| == 9
    ensures Sum(b) == b[0] + b[1] + b[2] + b[3] + b[4] + b[5] + b[6] + b[7] + b[8]
  {
    var c := b[2..];
    SumSeven(c);
    assert b[1..][1..] == c;
    assert c[0] == b[2] && c[1] == b[3] && c[2] == b[4] && c[3] == b[5] && c[4] == b[6] && c[5] == b[7] && c[6] == b[8];
    assert Sum(b) == b[0] + Sum(b[1..]);
    assert Sum(b[1..]) == b[1..][0] + Sum(c);
  }

  lemma {:induction false} SumSeven(b: seq<nat>)
    requires |b| == 7
    ensures Sum(b) == b[0] + b[1] + b[2] + b[3] + b[4] + b[5] + b[6]
  {
    forall k: nat | k < 7 ensures Sum(b[k..]) == b[k] + Sum(b[k + 1..]) {
      assert b[k..][1..] == b[k + 1..];
    }
    assert b[0..] == b && b[7..] == [];
    assert Sum(b[0..]) == b[0] + Sum(b[1..]) && Sum(b[1..]) == b[1] + Sum(b[2..]);
    assert Sum(b[2..]) == b[2] + Sum(b[3..]) && Sum(b[3..]) == b[3] + Sum(b[4..]);
    assert Sum(b[4..]) == b[4] + Sum(b[5..]) && Sum(b[5..]) == b[5] + Sum(b[6..]);
    assert Sum(b[6..]) == b[6] + Sum(b[7..]);
  }

  lemma {:induction false} EncodedLength(text: Bytes, maximum: nat, bound: nat)
    requires |text| <= maximum && (maximum + 2) / 3 * 4 <= bound
    ensures |Base64.Encode(text)| <= bound
  {
    Base64.EncodeShape(text);
  }

  lemma {:induction false} ReceivedLineLength(i: nat, filled: nat, slot: InboxSlot)
    requires i < INBOX_CAPACITY && SlotOk(i, filled, slot) && SlotWithin(slot)
    ensures |ReceivedLine(i, slot)| < 2300
  {
    hide Base64.Encode, Decimal, JoinOn, Sum;
    DecimalLength(i, 2);
    DecimalLength(slot.entry.id, 10);
    DecimalLength(slot.entry.recvEpoch, 10);
    EncodedLength(slot.entry.sender, SENDER_MAX, 1368);
    EncodedLength(slot.entry.ts, TS_MAX, 344);
    EncodedLength(slot.entry.text, TEXT_MAX, 436);
    var bounds: seq<nat> := [1, 2, 1, 10, 10, 1, 1368, 344, 436];
    SumNine(bounds);
    var fields := ReceivedFields(i, slot);
    assert forall k :: 0 <= k < 9 ==> |fields[k]| <= bounds[k];
    JoinOnLength(fields, bounds);
  }

  lemma {:induction false} SentLineLength(i: nat, filled: nat, entry: SentEntry)
    requires i < SENT_CAPACITY && SentOk(i, filled, entry) && SentWithin(entry)
    ensures |SentLine(i, entry)| < 2300
  {
    hide Base64.Encode, Decimal, JoinOn, Sum;
    DecimalLength(i, 2);
    DecimalLength(entry.id, 10);
    DecimalLength(entry.sentEpoch, 10);
    EncodedLength(entry.target, SENDER_MAX, 1368);
    EncodedLength(entry.text, TEXT_MAX, 436);
    var bounds: seq<nat> := [1, 2, 10, 10, 1, 1368, 436];
    SumSeven(bounds);
    var fields := SentFields(i, entry);
    assert forall k :: 0 <= k < 7 ==> |fields[k]| <= bounds[k];
    JoinOnLength(fields, bounds);
  }

  lemma {:induction false} MetaLineLength(s: State)
    requires WellFormed(s)
    ensures |MetaLine(s)| < 2300
  {
    DecimalLength(s.inboxHead, 2);
    DecimalLength(s.inboxFilled, 2);
    DecimalLength(s.inboxSeq, 10);
    DecimalLength(s.sentHead, 2);
    DecimalLength(s.sentFilled, 2);
    DecimalLength(s.sentSeq, 10);
    var bounds: seq<nat> := [1, 2, 2, 10, 2, 2, 10];
    SumSeven(bounds);
    JoinOnLength(MetaFields(s), bounds);
  }

  // Within the field limits the text never comes near the cap of 256 KiB.
  lemma {:induction false} SnapshotFits(s: State)
    requires WellFormed(s) && Within(s)
    ensures |TextOf(s)| <= 63 * 2300 < CAP
  {
    hide ReceivedLine, SentLine, MetaLine;
    var lines := AllLines(s);
    MetaLineLength(s);
    forall i | 0 <= i < INBOX_CAPACITY ensures |ReceivedLines(s.inbox)[i]| < 2300 {
      ReceivedLineAt(s.inbox, i);
      ReceivedLineLength(i, s.inboxFilled, s.inbox[i]);
    }
    forall i | 0 <= i < SENT_CAPACITY ensures |SentLines(s.sent)[i]| < 2300 {
      SentLineAt(s.sent, i);
      SentLineLength(i, s.sentFilled, s.sent[i]);
    }
    UnlinesLength(lines, 2300);
  }

  // ----- the round trip -----

  // A store survives its snapshot exactly when all its fields are within the limits of the format:
  // otherwise restoring fails. Slots, holes, heads, filled counts and sequences come back as they were.
  lemma {:induction false} SnapshotRoundTrip(s: State)
    requires WellFormed(s)
    ensures Restore(TextOf(s)) == if Within(s) then Some(s) else None
  {
    AllAreLines(s);
    LinesUnlines(AllLines(s));
    LinesRoundTrip(s);
    if Within(s) { SnapshotFits(s); }
  }

  predicate EpochsFit(s: State) {
    && (forall i :: 0 <= i < |s.inbox| ==> s.inbox[i].entry.recvEpoch < UINT32)
    && (forall i :: 0 <= i < |s.sent| ==> s.sent[i].sentEpoch < UINT32)
  }

  // Every store that its own operations can reach is well-formed.
  lemma {:induction false} ReachableIsWellFormed(s: State)
    requires Inv(s) && EpochsFit(s)
    ensures WellFormed(s)
  {
    InboxIds(s);
    InboxDiffers(s);
    SentIds(s);
    SentDiffers(s);
  }

  lemma {:induction false} InboxIds(s: State)
    requires Inv(s)
    ensures forall i :: 0 <= i < s.inboxFilled && !s.inbox[i].deleted ==> 0 < s.inbox[i].entry.id <= s.inboxSeq
  {
    hide Ring, SentAscending;
    forall i | 0 <= i < s.inboxFilled && !s.inbox[i].deleted ensures 0 < s.inbox[i].entry.id <= s.inboxSeq {
      RingUpdates(s.inbox, s.inboxHead, s.inboxFilled, i, HOLE);
    }
  }

  lemma {:induction false} SentIds(s: State)
    requires Inv(s)
    ensures forall i :: 0 <= i < s.sentFilled ==> 0 < s.sent[i].id <= s.sentSeq
  {
    hide Ring, Ascending;
    forall i | 0 <= i < s.sentFilled ensures 0 < s.sent[i].id <= s.sentSeq {
      RingUpdates(s.sent, s.sentHead, s.sentFilled, i, NO_SENT);
    }
  }

  lemma {:induction false} PlacesDiffer(n: nat, head: nat, filled: nat, i: nat, j: nat)
    requires RingShape(n, head, filled) && j < i < filled <= n
    ensures RingIndex(n, head, filled, i) != RingIndex(n, head, filled, j)
  {
  }

  lemma {:induction false} InboxDiffers(s: State)
    requires Inv(s)
    ensures forall i, j :: 0 <= j < i < INBOX_CAPACITY && !s.inbox[i].deleted && !s.inbox[j].deleted ==>
              s.inbox[j].entry.id != s.inbox[i].entry.id
  {
    hide Ring, RingIndex, SentAscending;
    forall i, j | 0 <= j < i < INBOX_CAPACITY && !s.inbox[i].deleted && !s.inbox[j].deleted
      ensures s.inbox[j].entry.id != s.inbox[i].entry.id
    {
      RingUpdates(s.inbox, s.inboxHead, s.inboxFilled, i, HOLE);
      RingUpdates(s.inbox, s.inboxHead, s.inboxFilled, j, HOLE);
      PlacesDiffer(INBOX_CAPACITY, s.inboxHead, s.inboxFilled, i, j);
    }
  }

  lemma {:induction false} SentDiffers(s: State)
    requires Inv(s)
    ensures forall i, j :: 0 <= j < i < SENT_CAPACITY && s.sent[i].id != 0 && s.sent[j].id != 0 ==> s.sent[j].id != s.sent[i].id
  {
    hide Ring, RingIndex, Ascending;
    forall i, j | 0 <= j < i < SENT_CAPACITY && s.sent[i].id != 0 && s.sent[j].id != 0
      ensures s.sent[j].id != s.sent[i].id
    {
      RingUpdates(s.sent, s.sentHead, s.sentFilled, i, NO_SENT);
      RingUpdates(s.sent, s.sentHead, s.sentFilled, j, NO_SENT);
      PlacesDiffer(SENT_CAPACITY, s.sentHead, s.sentFilled, i, j);
    }
  }

  // Conversely, whatever text is accepted, the store it gives is well-formed and within the limits.
  lemma {:induction false} RestoredIsWellFormed(data: Bytes)
    requires Restore(data).Some?
    ensures WellFormed(Restore(data).value) && Within(Restore(data).value)
  {
    hide ReadInbox, ReadSents, InboxOk, SentsOk, InboxWithin, SentsWithin, WithinSequence, LinesOf;
    var lines := LinesOf(data);
    var s := Restore(data).value;
    var a, b := 2 + INBOX_CAPACITY, 2 + INBOX_CAPACITY + SENT_CAPACITY;
    InboxIsRead(lines[2..a], s.inboxFilled);
    SentsAreRead(lines[a..b], s.sentFilled);
  }

  // Two messages whose ids fall from the older to the newer, as no store of its own operations has.
  function Falling(): State {
    EMPTY.(inbox := EMPTY.inbox[0 := Live(2)][1 := Live(1)], inboxHead := 2, inboxFilled := 2, inboxSeq := 2)
  }

  function Live(id: nat): InboxSlot {
    InboxSlot(NO_ENTRY.(id := id), false)
  }

  // Restoring looks at each id but not at their order: there is a text that it takes and that gives
  // such a store.
  lemma FallingIdsAreTaken()
    ensures Restore(TextOf(Falling())) == Some(Falling())
    ensures Shaped(Falling()) && Entries(Falling()) == [Live(2).entry, Live(1).entry] && !Inv(Falling())
  {
    FallingIsWellFormed();
    FallingList();
    SnapshotRoundTrip(Falling());
    if Inv(Falling()) { EntriesAscend(Falling()); }
  }

  lemma FallingIsWellFormed()
    ensures WellFormed(Falling()) && Within(Falling())
  {
    hide InboxOk, SentsOk, InboxWithin, SentsWithin, WithinSequence;
    FallingInbox();
    NoneSent();
    FallingSequence();
  }

  lemma FallingInbox()
    ensures InboxOk(Falling().inbox, 2) && InboxWithin(Falling().inbox)
  {
    var inbox := Falling().inbox;
    assert forall i :: 2 <= i < INBOX_CAPACITY ==> inbox[i] == HOLE;
    forall i | 0 <= i < INBOX_CAPACITY ensures SlotOk(i, 2, inbox[i]) && NewId(inbox[..i], inbox[i]) {
      if i == 1 { assert inbox[..1] == [Live(2)]; }
    }
  }

  lemma NoneSent()
    ensures SentsOk(Falling().sent, 0) && SentsWithin(Falling().sent)
  {
    assert forall i :: 0 <= i < SENT_CAPACITY ==> Falling().sent[i] == NO_SENT;
  }

  lemma FallingSequence()
    ensures WithinSequence(Falling().inbox, Falling().sent, MetaOf(Falling()))
  {
    assert forall i :: 2 <= i < INBOX_CAPACITY ==> Falling().inbox[i] == HOLE;
  }

  lemma FallingList()
    ensures Shaped(Falling()) && Entries(Falling()) == [Live(2).entry, Live(1).entry]
  {
    var s := Falling();
    assert s.inbox[..2] == [] + [Live(2)] + [Live(1)];
    assert Store.Live([]) == [];
    LiveOne([], Live(2));
    LiveOne([Live(2)], Live(1));
    assert [] + [Live(2)] == [Live(2)];
  }

  lemma {:induction false} InboxGrows(inbox: seq<InboxSlot>, slot: InboxSlot, filled: nat)
    requires InboxOk(inbox, filled) && InboxWithin(inbox)
    requires SlotOk(|inbox|, filled, slot) && NewId(inbox, slot) && SlotWithin(slot)
    ensures InboxOk(inbox + [slot], filled) && InboxWithin(inbox + [slot])
  {
    hide SlotOk, NewId, SlotWithin;
    var all := inbox + [slot];
    assert forall i :: 0 <= i < |inbox| ==> all[i] == inbox[i] && all[..i] == inbox[..i];
    assert all[..|inbox|] == inbox;
  }

  lemma {:induction false} InboxIsRead(lines: seq<Bytes>, filled: nat)
    requires ReadInbox(lines, filled).Some?
    ensures InboxOk(ReadInbox(lines, filled).value, filled) && InboxWithin(ReadInbox(lines, filled).value)
  {
    if lines != [] {
      var n := |lines| - 1;
      InboxIsRead(lines[..n], filled);
      InboxGrows(ReadInbox(lines[..n], filled).value, ReadReceived(lines[n], n, filled).value, filled);
    }
  }

  lemma {:induction false} SentsGrow(sent: seq<SentEntry>, entry: SentEntry, filled: nat)
    requires SentsOk(sent, filled) && SentsWithin(sent)
    requires SentOk(|sent|, filled, entry) && NewSentId(sent, entry) && SentWithin(entry)
    ensures SentsOk(sent + [entry], filled) && SentsWithin(sent + [entry])
  {
    hide SentOk, NewSentId, SentWithin;
    var all := sent + [entry];
    assert forall i :: 0 <= i < |sent| ==> all[i] == sent[i] && all[..i] == sent[..i];
    assert all[..|sent|] == sent;
  }

  lemma {:induction false} SentsAreRead(lines: seq<Bytes>, filled: nat)
    requires ReadSents(lines, filled).Some?
    ensures SentsOk(ReadSents(lines, filled).value, filled) && SentsWithin(ReadSents(lines, filled).value)
  {
    if lines != [] {
      var n := |lines| - 1;
      SentsAreRead(lines[..n], filled);
      SentsGrow(ReadSents(lines[..n], filled).value, ReadSent(lines[n], n, filled).value, filled);
    }
  }
}
