// The log of ports/esp-idf/components/idf_logbuf/idf_log.cpp: a byte ring in memory that survives a
// reset, and a ring of lines that web clients poll.
module LogRing {
  import opened Text

  const RING_BYTES := 8192
  const RING_LINES := 120
  const LINE_MAX := 192

  // The last n of a sequence, or all of it.
  function Last<T>(s: seq<T>, n: nat): (r: seq<T>)
    ensures |r| == if |s| <= n then |s| else n
  {
    if |s| <= n then s else s[|s| - n..]
  }

  lemma {:induction false} LastOfLast<T>(s: seq<T>, t: seq<T>, n: nat)
    ensures Last(Last(s, n) + t, n) == Last(s + t, n)
  {
    if |s| > n {
      var cut := |s| - n;
      assert Last(s, n) + t == (s + t)[cut..];
      LastOfTail(s + t, cut, n);
    }
  }

  lemma {:induction false} LastOfTail<T>(s: seq<T>, cut: nat, n: nat)
    requires cut + n <= |s|
    ensures Last(s[cut..], n) == Last(s, n)
  {
  }

  // ----- the byte ring -----

  predicate Metadata(head: nat, used: nat) {
    head < RING_BYTES && used <= RING_BYTES
  }

  // The bytes held, oldest first: byte i is at the i-th place behind the start.
  function Place(head: nat, used: nat, i: nat): (p: nat)
    requires Metadata(head, used)
    ensures p < RING_BYTES
  {
    (head + RING_BYTES - used + i) % RING_BYTES
  }

  function Contents(buf: Bytes, head: nat, used: nat): (r: Bytes)
    requires |buf| == RING_BYTES && Metadata(head, used)
    ensures |r| == used
    ensures forall i :: 0 <= i < used ==> r[i] == buf[Place(head, used, i)]
  {
    ContentsUpTo(buf, head, used, used)
  }

  function ContentsUpTo(buf: Bytes, head: nat, used: nat, n: nat): (r: Bytes)
    requires |buf| == RING_BYTES && Metadata(head, used) && n <= used
    ensures |r| == n
    ensures forall i :: 0 <= i < n ==> r[i] == buf[Place(head, used, i)]
  {
    if n == 0 then "" else ContentsUpTo(buf, head, used, n - 1) + [buf[Place(head, used, n - 1)]]
  }

  // Where the j-th byte of a copy goes.
  function Target(head: nat, j: nat): (p: nat)
    ensures p < RING_BYTES
  {
    (head + j) % RING_BYTES
  }

  predicate IsTarget(head: nat, len: nat, p: nat) {
    exists j :: 0 <= j < len && p == Target(head, j)
  }

  // The first n bytes of the data are in the ring, and nothing but targets has changed.
  predicate CopiedUpTo(before: Bytes, after: Bytes, head: nat, data: Bytes, n: nat)
    requires n <= |data|
  {
    && |before| == |after| == RING_BYTES
    && (forall j :: 0 <= j < n ==> after[Target(head, j)] == data[j])
    && Untouched(before, after, head, |data|)
  }

  predicate Copied(before: Bytes, after: Bytes, head: nat, data: Bytes) {
    CopiedUpTo(before, after, head, data, |data|)
  }

  lemma {:induction false} CopyOne(before: Bytes, after: Bytes, head: nat, data: Bytes, n: nat)
    requires n < |data| <= RING_BYTES && CopiedUpTo(before, after, head, data, n)
    ensures CopiedUpTo(before, after[Target(head, n) := data[n]], head, data, n + 1)
  {
    forall j | 0 <= j < n ensures Target(head, j) != Target(head, n) { Apart(head + j, head + n); }
    assert IsTarget(head, |data|, Target(head, n));
  }

  // Nothing but targets has changed: what holds at any moment of the copy.
  predicate Untouched(before: Bytes, after: Bytes, head: nat, len: nat) {
    && |before| == |after| == RING_BYTES
    && forall p :: 0 <= p < RING_BYTES && !IsTarget(head, len, p) ==> after[p] == before[p]
  }

  function HeadAfter(head: nat, len: nat): nat {
    (head + len) % RING_BYTES
  }

  function UsedAfter(used: nat, len: nat): nat {
    if used + len > RING_BYTES then RING_BYTES else used + len
  }

  // An old byte that stays is not a target.
  lemma {:induction false} StaysPut(head: nat, used: nat, len: nat, i: nat)
    requires Metadata(head, used) && len <= RING_BYTES && i < used && used + len - RING_BYTES <= i
    ensures !IsTarget(head, len, Place(head, used, i))
  {
    var q := head + RING_BYTES - used + i;
    forall j | 0 <= j < len ensures Target(head, j) != q % RING_BYTES {
      assert 0 < head + RING_BYTES + j - q < RING_BYTES;
      Apart(q, head + RING_BYTES + j);
      assert (head + RING_BYTES + j) % RING_BYTES == (head + j) % RING_BYTES;
    }
  }

  lemma {:induction false} Apart(a: nat, b: nat)
    requires a < b < a + RING_BYTES
    ensures a % RING_BYTES != b % RING_BYTES
  {
  }

  // A completed append: the ring holds the last 8192 bytes of what it held and the data.
  lemma {:induction false} AppendHolds(before: Bytes, after: Bytes, head: nat, used: nat, data: Bytes)
    requires Metadata(head, used) && |data| <= 8192 && Copied(before, after, head, data)
    ensures Contents(after, HeadAfter(head, |data|), UsedAfter(used, |data|)) == Last(Contents(before, head, used) + data, 8192)
  {
    var len := |data|;
    var head1, used1 := HeadAfter(head, len), UsedAfter(used, len);
    var was := Contents(before, head, used);
    var expected := Last(was + data, RING_BYTES);
    forall i | 0 <= i < used1 ensures after[Place(head1, used1, i)] == expected[i] {
      var k := i + used + len - used1;
      assert expected[i] == (was + data)[k];
      if k < used {
        SamePlace(head, used, len, i);
        StaysPut(head, used, len, k);
      } else {
        DataPlace(head, used, len, i);
      }
    }
  }

  lemma {:induction false} SamePlace(head: nat, used: nat, len: nat, i: nat)
    requires Metadata(head, used) && len <= RING_BYTES && i < UsedAfter(used, len)
    requires i + used + len - UsedAfter(used, len) < used
    ensures Place(HeadAfter(head, len), UsedAfter(used, len), i) == Place(head, used, i + used + len - UsedAfter(used, len))
  {
  }

  lemma {:induction false} DataPlace(head: nat, used: nat, len: nat, i: nat)
    requires Metadata(head, used) && len <= RING_BYTES && i < UsedAfter(used, len)
    requires i + used + len - UsedAfter(used, len) >= used
    ensures Place(HeadAfter(head, len), UsedAfter(used, len), i) == Target(head, i + len - UsedAfter(used, len))
  {
  }

  // A copy that stopped anywhere, read with the old head and used: the ring still has its old bytes,
  // but for the oldest max(0, used + len - 8192).
  lemma {:induction false} TornCopyKeepsTheRest(before: Bytes, after: Bytes, head: nat, used: nat, len: nat)
    requires Metadata(head, used) && len <= RING_BYTES && Untouched(before, after, head, len)
    ensures Contents(after, head, used)[Lost(used, len)..] == Contents(before, head, used)[Lost(used, len)..]
  {
    forall i | Lost(used, len) <= i < used ensures Contents(after, head, used)[i] == Contents(before, head, used)[i] {
      StaysPut(head, used, len, i);
    }
  }

  // How many of the old bytes an append of so many may overwrite.
  function Lost(used: nat, len: nat): (n: nat)
    requires used <= RING_BYTES && len <= RING_BYTES
    ensures n <= used
  {
    if used + len > RING_BYTES then used + len - RING_BYTES else 0
  }

  // ----- what a start-up reads out of it -----

  // Control characters other than the line feed become blanks.
  function Readable(c: Byte): Byte {
    if c != '\n' && c as int < 0x20 then ' ' else c
  }

  function AllReadable(s: Bytes): (r: Bytes)
    ensures |r| == |s| && forall i :: 0 <= i < |s| ==> r[i] == Readable(s[i])
  {
    if s == [] then "" else AllReadable(s[..|s| - 1]) + [Readable(s[|s| - 1])]
  }

  // A start-up log shows a blank in place of each control character, save the line feed.
  lemma {:induction false} AllReadableIs(s: Bytes)
    ensures forall i :: 0 <= i < |s| ==>
              AllReadable(s)[i] == if s[i] as int < 0x20 && s[i] as int != 0x0A then ' ' else s[i]
  {
  }

  // The place of the first line feed, or the length.
  function FirstLine(s: Bytes): (n: nat)
    ensures n <= |s| && (n < |s| ==> s[n] == '\n') && forall i :: 0 <= i < n ==> s[i] != '\n'
  {
    if s == [] || s[0] == '\n' then 0 else 1 + FirstLine(s[1..])
  }

  function AfterFirstLine(s: Bytes): Bytes {
    if FirstLine(s) < |s| then s[FirstLine(s) + 1..] else s
  }

  // A full ring may start inside a line: its first piece goes.
  function Captured(contents: Bytes): Bytes {
    if |contents| == RING_BYTES then AfterFirstLine(AllReadable(contents)) else AllReadable(contents)
  }

  // ----- the checksum -----

  // The exclusive or of two words, bit by bit.
  function Xor(a: nat, b: nat): nat {
    if a == 0 && b == 0 then 0 else (a + b) % 2 + 2 * Xor(a / 2, b / 2)
  }

  const MAGIC := 0x4C4F4752
  const WORD := 0x1_0000_0000

  // prev_ring_checksum; the shift is one of 32-bit words.
  function Checksum(head: nat, used: nat): nat {
    Xor(Xor(Xor(MAGIC, head), used * 256 % WORD), 0xA5A5A5A5)
  }

  lemma {:induction false} XorCommutes(a: nat, b: nat)
    ensures Xor(a, b) == Xor(b, a)
  {
    if a != 0 || b != 0 { XorCommutes(a / 2, b / 2); }
  }

  lemma {:induction false} XorBits(a: nat, b: nat)
    ensures Xor(a, b) / 2 == Xor(a / 2, b / 2) && Xor(a, b) % 2 == (a + b) % 2
  {
  }

  lemma {:induction false} SameParity(a: nat, b: nat, c: nat)
    requires (a + c) % 2 == (b + c) % 2
    ensures a % 2 == b % 2
  {
  }

  lemma {:induction false} XorCancels(a: nat, b: nat, c: nat)
    requires Xor(a, c) == Xor(b, c)
    ensures a == b
    decreases a + b + c
  {
    hide Xor;
    XorBits(a, c);
    XorBits(b, c);
    SameParity(a, b, c);
    if a + b + c > 0 { XorCancels(a / 2, b / 2, c / 2); }
  }

  lemma {:induction false} XorCancelsLeft(a: nat, b: nat, c: nat)
    requires Xor(c, a) == Xor(c, b)
    ensures a == b
  {
    hide Xor;
    XorCommutes(a, c);
    XorCommutes(b, c);
    XorCancels(a, b, c);
  }

  lemma {:induction false} Halvings(x: nat)
    ensures x / 2 / 2 == x / 4 && x / 4 / 2 == x / 8 && x / 8 / 2 == x / 16 && x / 16 / 2 == x / 32
    ensures x / 32 / 2 == x / 64 && x / 64 / 2 == x / 128 && x / 128 / 2 == x / 256
  {
  }

  // Bits above the fifth, and above the eighth, are those of the operands.
  lemma {:induction false} XorShifts(a: nat, b: nat)
    ensures Xor(a, b) / 32 == Xor(a / 32, b / 32) && Xor(a, b) / 256 == Xor(a / 256, b / 256)
  {
    hide Xor;
    XorBits(a, b);
    XorBits(a / 2, b / 2);
    XorBits(a / 4, b / 4);
    XorBits(a / 8, b / 8);
    XorBits(a / 16, b / 16);
    XorBits(a / 32, b / 32);
    XorBits(a / 64, b / 64);
    XorBits(a / 128, b / 128);
    Halvings(a);
    Halvings(b);
    Halvings(Xor(a, b));
  }

  // Bit k of a number, the lowest being bit 0.
  function Bit(x: nat, k: nat): nat {
    if k == 0 then x % 2 else Bit(x / 2, k - 1)
  }

  lemma {:induction false} XorIs(a: nat, b: nat, k: nat)
    ensures Bit(Xor(a, b), k) == (Bit(a, k) + Bit(b, k)) % 2
    decreases k
  {
    hide Xor;
    XorBits(a, b);
    if k > 0 { XorIs(a / 2, b / 2, k - 1); }
  }

  // Each bit of the checksum is the parity of four: of the magic number, of the head, of the number of
  // bytes shifted by eight, and of a constant.
  lemma {:induction false} ChecksumBits(head: nat, used: nat, k: nat)
    requires used <= 8192
    ensures Bit(Checksum(head, used), k) == (Bit(0x4C4F4752, k) + Bit(head, k) + Bit(used * 256, k) + Bit(0xA5A5A5A5, k)) % 2
  {
    hide Xor, Bit;
    ChecksumIs(head, used);
    XorIs(0x4C4F4752, head, k);
    XorIs(Xor(0x4C4F4752, head), used * 256, k);
    XorIs(Xor(Xor(0x4C4F4752, head), used * 256), 0xA5A5A5A5, k);
  }

  // The head and the number of bytes of a ring that is filled from its start: equal until it is full.
  predicate Steady(head: nat, used: nat) {
    Metadata(head, used) && (used < RING_BYTES ==> head == used)
  }

  lemma {:induction false} ChecksumIs(head: nat, used: nat)
    requires used <= RING_BYTES
    ensures Checksum(head, used) == Xor(Xor(Xor(MAGIC, head), used * 256), 0xA5A5A5A5)
  {
    hide Xor;
  }

  // Among those the checksum tells any two apart.
  lemma {:induction false} ChecksumTells(h1: nat, u1: nat, h2: nat, u2: nat)
    requires Steady(h1, u1) && Steady(h2, u2) && Checksum(h1, u1) == Checksum(h2, u2)
    ensures h1 == h2 && u1 == u2
  {
    hide Xor, Checksum;
    ChecksumIs(h1, u1);
    ChecksumIs(h2, u2);
    XorCancels(Xor(Xor(MAGIC, h1), u1 * 256), Xor(Xor(MAGIC, h2), u2 * 256), 0xA5A5A5A5);
    SumTellsUsed(h1, u1, h2, u2);
    XorCancels(Xor(MAGIC, h1), Xor(MAGIC, h2), u1 * 256);
    XorCancelsLeft(h1, h2, MAGIC);
  }

  lemma {:induction false} SumTellsUsed(h1: nat, u1: nat, h2: nat, u2: nat)
    requires Steady(h1, u1) && Steady(h2, u2)
    requires Xor(Xor(MAGIC, h1), u1 * 256) == Xor(Xor(MAGIC, h2), u2 * 256)
    ensures u1 == u2
  {
    hide Xor;
    UpperBits(h1, u1);
    UpperBits(h2, u2);
    XorCancelsLeft(u1 / 32, u2 / 32, Xor(MAGIC / 256 / 32, 0));
    SameUpperBits(h1, u1, h2, u2);
    if u1 < RING_BYTES { XorCancelsLeft(u1, u2, Xor(MAGIC / 256, h1 / 256)); }
  }

  lemma {:induction false} SameUpperBits(h1: nat, u1: nat, h2: nat, u2: nat)
    requires Steady(h1, u1) && Steady(h2, u2) && u1 / 32 == u2 / 32
    ensures u1 == RING_BYTES <==> u2 == RING_BYTES
    ensures u1 < RING_BYTES ==> h1 / 256 == h2 / 256
  {
    assert u1 / 256 == u1 / 32 / 8 && u2 / 256 == u2 / 32 / 8;
  }

  // Above its lowest byte the sum is that of used with a few bits of the head, above the fifth bit of
  // these that of used alone.
  lemma {:induction false} UpperBits(head: nat, used: nat)
    requires Steady(head, used)
    ensures Xor(Xor(MAGIC, head), used * 256) / 256 == Xor(Xor(MAGIC / 256, head / 256), used)
    ensures Xor(Xor(MAGIC, head), used * 256) / 256 / 32 == Xor(Xor(MAGIC / 256 / 32, 0), used / 32)
  {
    hide Xor;
    XorShifts(Xor(MAGIC, head), used * 256);
    XorShifts(MAGIC, head);
    XorShifts(Xor(MAGIC / 256, head / 256), used);
    XorShifts(MAGIC / 256, head / 256);
    assert head / 256 / 32 == 0;
  }

  lemma {:induction false} ChecksumTellsHeads(h1: nat, h2: nat, used: nat)
    requires Checksum(h1, used) == Checksum(h2, used)
    ensures h1 == h2
  {
    hide Xor;
    var u := used * 256 % WORD;
    XorCancels(Xor(Xor(MAGIC, h1), u), Xor(Xor(MAGIC, h2), u), 0xA5A5A5A5);
    XorCancels(Xor(MAGIC, h1), Xor(MAGIC, h2), u);
    XorCancelsLeft(h1, h2, MAGIC);
  }

  // ----- the memory that a reset leaves as it is -----

  // NoinitLogRing: four words and the bytes, anything at all after a loss of power.
  datatype Memory = Memory(magic: nat, head: nat, used: nat, check: nat, buf: Bytes)

  // prev_ring_valid.
  predicate Accepted(m: Memory) {
    m.magic == MAGIC && Metadata(m.head, m.used) && m.check == Checksum(m.head, m.used)
  }

  lemma {:induction false} AcceptedIs(m: Memory)
    ensures Accepted(m) <==> m.magic == 0x4C4F4752 && m.head < 8192 && m.used <= 8192 && m.check == Checksum(m.head, m.used)
  {
    hide Checksum;
  }

  // What prev_log_capture gets out of it.
  function Extracted(m: Memory): Bytes
    requires |m.buf| == RING_BYTES
  {
    if Accepted(m) && m.used > 0 then Captured(Contents(m.buf, m.head, m.used)) else ""
  }

  // prev_ring_reset.
  function Cleared(m: Memory): Memory {
    Memory(MAGIC, 0, 0, Checksum(0, 0), m.buf)
  }

  // The memory whenever no append is under way.
  predicate AtRest(m: Memory) {
    |m.buf| == RING_BYTES && Accepted(m) && Steady(m.head, m.used)
  }

  // An append of `data` stores, one after the other: its bytes, the head, the number of bytes, that
  // number again if it was too large, and the checksum. After a store of one of these kinds the
  // memory m has become `now`.
  datatype Stage = Copying | HeadStored | UsedAdded | UsedCapped | CheckStored

  predicate During(m: Memory, now: Memory, data: Bytes, stage: Stage)
    requires AtRest(m)
  {
    if stage.Copying? then
      now == m.(buf := now.buf) && Untouched(m.buf, now.buf, m.head, |data|)
    else
      && Copied(m.buf, now.buf, m.head, data)
      && now == m.(buf := now.buf,
                   head := HeadAfter(m.head, |data|),
                   used := match stage
                     case HeadStored => m.used
                     case UsedAdded => m.used + |data|
                     case _ => UsedAfter(m.used, |data|),
                   check := if stage.CheckStored? then Checksum(HeadAfter(m.head, |data|), UsedAfter(m.used, |data|)) else m.check)
  }

  lemma {:induction false} Stored(m: Memory, now: Memory, data: Bytes, stage: Stage)
    requires AtRest(m) && Copied(m.buf, now.buf, m.head, data) && !stage.Copying? && now.magic == m.magic
    requires now.head == HeadAfter(m.head, |data|)
    requires now.used == match stage case HeadStored => m.used case UsedAdded => m.used + |data| case _ => UsedAfter(m.used, |data|)
    requires now.check == if stage.CheckStored? then Checksum(now.head, now.used) else m.check
    ensures During(m, now, data, stage)
  {
    hide Checksum, Copied, AtRest;
  }

  // One of the moments of an append.
  predicate Passes(m: Memory, now: Memory, data: Bytes)
    requires AtRest(m)
  {
    exists stage :: During(m, now, data, stage)
  }

  predicate AllPass(m: Memory, moments: seq<Memory>, data: Bytes)
    requires AtRest(m)
  {
    forall k :: 0 <= k < |moments| ==> Passes(m, moments[k], data)
  }

  lemma {:induction false} OneMorePasses(m: Memory, moments: seq<Memory>, now: Memory, data: Bytes, stage: Stage)
    requires AtRest(m) && AllPass(m, moments, data) && During(m, now, data, stage)
    ensures AllPass(m, moments + [now], data)
  {
    hide During;
    assert Passes(m, now, data);
  }

  // A reset at one of these moments: exactly when the ring is accepted at the next start. While the
  // bytes are copied and when the checksum is stored it is; between these it is not, unless the append
  // fills the whole ring, so that the head comes back to where it was.
  lemma {:induction false} AcceptedExactly(m: Memory, now: Memory, data: Bytes, stage: Stage)
    requires AtRest(m) && 0 < |data| <= 8192 && During(m, now, data, stage)
    ensures Accepted(now) <==>
            || stage.Copying? || stage.CheckStored?
            || (stage.HeadStored? && |data| == 8192)
            || (stage.UsedCapped? && |data| == 8192 && m.used == 8192)
  {
    hide Checksum, Copied, Untouched;
    var head, used := HeadAfter(m.head, |data|), UsedAfter(m.used, |data|);
    HeadReturns(m.head, |data|);
    if Checksum(head, m.used) == Checksum(m.head, m.used) { ChecksumTellsHeads(head, m.head, m.used); }
    if Checksum(head, used) == Checksum(m.head, m.used) { ChecksumTells(head, used, m.head, m.used); }
  }

  lemma {:induction false} HeadReturns(head: nat, len: nat)
    requires head < RING_BYTES && 0 < len <= RING_BYTES
    ensures HeadAfter(head, len) == head <==> len == RING_BYTES
  {
  }

  // What an accepted ring gives at the next start: when the checksum is stored, the last 8192 bytes
  // with the new data; before that, some bytes in place of the oldest ones that the append may
  // overwrite, and behind them all the others as they were.
  lemma {:induction false} StoppedAppendKeeps(m: Memory, now: Memory, data: Bytes, stage: Stage)
    requires AtRest(m) && 0 < |data| <= 8192 && During(m, now, data, stage) && Accepted(now)
    ensures stage.CheckStored? ==>
              AtRest(now) && Extracted(now) == Captured(Last(Contents(m.buf, m.head, m.used) + data, 8192))
    ensures !stage.CheckStored? ==>
              var lost := Lost(m.used, |data|);
              var torn, kept := AllReadable(Contents(now.buf, m.head, m.used)[..lost]), AllReadable(Contents(m.buf, m.head, m.used)[lost..]);
              && Extracted(now) == WithTorn(torn, Contents(m.buf, m.head, m.used))
              && EndsWith(Extracted(now), if m.used == 8192 then AfterFirstLine(kept) else kept)
  {
    hide Checksum, Contents, Last, AllReadable, Captured, FirstLine, Place;
    AcceptedExactly(m, now, data, stage);
    if stage.CheckStored? {
      AppendHolds(m.buf, now.buf, m.head, m.used, data);
      HeadFollows(m.head, m.used, |data|);
    } else {
      assert now.head == m.head && now.used == m.used by { HeadReturns(m.head, |data|); }
      var lost := Lost(m.used, |data|);
      TornCopyKeepsTheRest(m.buf, now.buf, m.head, m.used, |data|);
      CapturedPieces(Contents(now.buf, m.head, m.used), lost);
    }
  }

  // Whatever moment of an append the reset strikes, the next start gets nothing, or all with the new
  // data, or some bytes in place of the oldest and behind them all the others as they were.
  lemma {:induction false} AnyMomentKeeps(m: Memory, moments: seq<Memory>, data: Bytes, k: nat)
    requires AtRest(m) && 0 < |data| <= 8192 && AllPass(m, moments, data) && k < |moments|
    ensures |moments[k].buf| == 8192
    ensures var got, contents := Extracted(moments[k]), Contents(m.buf, m.head, m.used);
            || (got == "" && !Accepted(moments[k]))
            || got == Captured(Last(contents + data, 8192))
            || exists torn: Bytes :: |torn| == Lost(m.used, |data|) && got == WithTorn(torn, contents)
  {
    hide Checksum, Contents, Last, AllReadable, Captured, AfterFirstLine, Place, Copied, Untouched;
    var now := moments[k];
    assert Passes(m, now, data);
    var stage :| During(m, now, data, stage);
    assert |now.buf| == RING_BYTES by { DuringIsWhole(m, now, data, stage); }
    if Accepted(now) {
      StoppedAppendKeeps(m, now, data, stage);
      var torn := AllReadable(Contents(now.buf, m.head, m.used)[..Lost(m.used, |data|)]);
      assert !stage.CheckStored? ==> Extracted(now) == WithTorn(torn, Contents(m.buf, m.head, m.used));
    }
  }

  lemma {:induction false} DuringIsWhole(m: Memory, now: Memory, data: Bytes, stage: Stage)
    requires AtRest(m) && During(m, now, data, stage)
    ensures |now.buf| == RING_BYTES
  {
  }

  // What is read from a ring of so many bytes whose oldest ones are torn.
  function WithTorn(torn: Bytes, contents: Bytes): Bytes
    requires |torn| <= |contents|
  {
    var body := torn + AllReadable(contents[|torn|..]);
    if |contents| == RING_BYTES then AfterFirstLine(body) else body
  }

  lemma {:induction false} HeadFollows(head: nat, used: nat, len: nat)
    requires Steady(head, used) && 0 < len <= RING_BYTES
    ensures Steady(HeadAfter(head, len), UsedAfter(used, len))
  {
  }

  predicate EndsWith(s: Bytes, t: Bytes) {
    |t| <= |s| && s[|s| - |t|..] == t
  }

  lemma {:induction false} CapturedPieces(contents: Bytes, n: nat)
    requires n <= |contents|
    ensures var torn, kept := AllReadable(contents[..n]), AllReadable(contents[n..]);
            && Captured(contents) == (if |contents| == RING_BYTES then AfterFirstLine(torn + kept) else torn + kept)
            && EndsWith(Captured(contents), if |contents| == RING_BYTES then AfterFirstLine(kept) else kept)
  {
    hide FirstLine;
    var torn, kept := AllReadable(contents[..n]), AllReadable(contents[n..]);
    assert AllReadable(contents) == torn + kept;
    FirstLineOfTwo(torn, kept);
  }

  lemma {:induction false} FirstLineOfTwo(a: Bytes, b: Bytes)
    ensures EndsWith(AfterFirstLine(a + b), AfterFirstLine(b))
  {
    hide FirstLine, EndsWith;
    if FirstLine(a) < |a| {
      FirstLineInFirst(a, b);
      Suffix(a[FirstLine(a) + 1..], b, if FirstLine(b) < |b| then FirstLine(b) + 1 else 0);
    } else {
      FirstLineBehind(a, b);
    }
  }

  lemma {:induction false} FirstLineInFirst(a: Bytes, b: Bytes)
    requires FirstLine(a) < |a|
    ensures AfterFirstLine(a + b) == a[FirstLine(a) + 1..] + b
  {
    hide FirstLine;
    FirstLineIs(a + b, FirstLine(a));
    assert (a + b)[FirstLine(a) + 1..] == a[FirstLine(a) + 1..] + b;
  }

  lemma {:induction false} FirstLineBehind(a: Bytes, b: Bytes)
    requires FirstLine(a) == |a|
    ensures EndsWith(AfterFirstLine(a + b), AfterFirstLine(b))
  {
    hide FirstLine;
    if FirstLine(b) < |b| {
      FirstLineIs(a + b, |a| + FirstLine(b));
      assert (a + b)[|a| + FirstLine(b) + 1..] == b[FirstLine(b) + 1..];
    } else {
      assert FirstLine(a + b) == |a + b|;
    }
  }

  lemma {:induction false} Suffix(a: Bytes, b: Bytes, n: nat)
    requires n <= |b|
    ensures EndsWith(a + b, b[n..])
  {
  }

  lemma {:induction false} FirstLineIs(s: Bytes, n: nat)
    requires n < |s| && s[n] == '\n' && forall i :: 0 <= i < n ==> s[i] != '\n'
    ensures FirstLine(s) == n
  {
  }
  // ----- the line ring -----

  function Clipped(line: Bytes): (r: Bytes)
    ensures |r| <= 192 && (|line| <= 192 ==> r == line)
    ensures |line| > 192 ==> CutAtBoundary(line, 189, |r| - 3) && r == line[..|r| - 3] + "..."
  {
    if |line| > LINE_MAX then line[..CutPoint(line, LINE_MAX - 3)] + "..." else line
  }

  // What a poll answers, with these lines logged so far and a reader that knows the first `since`.
  function Missing(lines: seq<Bytes>, since: nat): seq<Bytes> {
    var from := if since > |lines| then 0 else since;
    var oldest := if |lines| > RING_LINES then |lines| - RING_LINES else 0;
    lines[if from > oldest then from else oldest..]
  }

  // Lines logged and polls made, in order; each poll passes the number that the last one answered.
  // Either may fail to get the lock in time: the line is lost then, and the poll answers the number
  // of lines without any line.
  datatype Event = Logged(line: Bytes, locked: bool) | Polled(locked: bool)

  datatype Session = Session(lines: seq<Bytes>, since: nat, received: seq<Bytes>)

  function Next(s: Session, e: Event): Session {
    match e
    case Logged(line, locked) => if locked then s.(lines := s.lines + [Clipped(line)]) else s
    case Polled(locked) => Session(s.lines, |s.lines|, s.received + if locked then Missing(s.lines, s.since) else [])
  }

  function Run(s: Session, events: seq<Event>): Session {
    if events == [] then s else Next(Run(s, events[..|events| - 1]), events[|events| - 1])
  }

  // Whenever the reader polls, nothing is new, or it gets the lock and is at most 120 lines behind.
  predicate KeepsUp(s: Session, events: seq<Event>) {
    events == [] ||
    (KeepsUp(s, events[..|events| - 1]) &&
     var before, e := Run(s, events[..|events| - 1]), events[|events| - 1];
     e.Polled? ==> |before.lines| <= before.since || (e.locked && |before.lines| <= before.since + 120))
  }

  // The reader has every line logged up to its last poll, once and in order, if and only if it kept up;
  // a line that it missed once it never gets.
  lemma {:induction false} PollingIsExact(s: Session, events: seq<Event>)
    requires s.since <= |s.lines| && s.received == s.lines[..s.since]
    ensures var r := Run(s, events);
            && r.since <= |r.lines| && s.lines <= r.lines
            && (r.received == r.lines[..r.since] <==> KeepsUp(s, events))
            && (!KeepsUp(s, events) ==> |r.received| < r.since)
  {
    if events != [] {
      var n := |events| - 1;
      PollingIsExact(s, events[..n]);
      var before := Run(s, events[..n]);
      if events[n].Polled? {
        assert before.lines[..|before.lines|] == before.lines[..before.since] + before.lines[before.since..];
      } else {
        assert (before.lines + [Clipped(events[n].line)])[..before.since] == before.lines[..before.since];
      }
    }
  }

  // A reader that is further behind gets exactly the last 120 lines.
  lemma {:induction false} LateReaderGetsTheLast(s: Session)
    requires s.since <= |s.lines| && |s.lines| > s.since + 120
    ensures Next(s, Polled(true)).received == s.received + Last(s.lines, 120)
    ensures Next(s, Polled(true)).since == |s.lines|
  {
  }
}
