// The log of idf_log.cpp, working in place: two memcpy calls into the byte ring, one slot of the line
// ring for each line.
module LogBuffers {
  import opened Text
  import opened LogRing

  class LogBuffer {
    // s_prev_ring, which a reset leaves as it is.
    var magic: nat
    var head: nat
    var used: nat
    var check: nat
    const buf: array<Byte>

    var ready: bool
    const slots: array<Bytes>
    var next: nat
    var count: nat
    var seq_: nat
    var mirror: nat

    // Every line since the start, every byte since the ring was cleared, and what the memory was after
    // each store of an append.
    ghost var lines: seq<Bytes>
    ghost var written: Bytes
    ghost var history: seq<Memory>

    function Image(): (m: Memory)
      reads this, buf
      ensures m.buf == buf[..] && m.head == head && m.used == used
    {
      Memory(magic, head, used, check, buf[..])
    }

    ghost predicate BytesOk()
      reads this, buf
    {
      && buf.Length == RING_BYTES
      && (ready ==> AtRest(Image()) && Contents(buf[..], head, used) == Last(written, RING_BYTES))
    }

    // The slot of line k is k modulo 120, and the last `count` lines are there.
    ghost predicate LinesOk()
      reads this, slots
    {
      && slots.Length == RING_LINES && mirror == seq_ == |lines| && next == |lines| % RING_LINES
      && count == (if |lines| < RING_LINES then |lines| else RING_LINES)
      && forall k :: |lines| - count <= k < |lines| ==> slots[k % RING_LINES] == lines[k]
    }

    ghost predicate Valid()
      reads this, buf, slots
    {
      BytesOk() && LinesOk()
    }

    // A start with this left in the memory.
    constructor (m: Memory)
      requires |m.buf| == RING_BYTES
      ensures Valid() && Image() == m && !ready && lines == [] && fresh(buf) && fresh(slots)
    {
      magic, head, used, check := m.magic, m.head, m.used, m.check;
      buf := new Byte[RING_BYTES](i requires 0 <= i < RING_BYTES => m.buf[i]);
      slots := new Bytes[RING_LINES];
      ready, next, count, seq_, mirror := false, 0, 0, 0, 0;
      lines, written, history := [], [], [];
    }

    // One byte of a copy.
    method StoreByte(i: nat, c: Byte)
      requires i < buf.Length
      modifies buf, this`history
      ensures Image() == old(Image()).(buf := old(buf[..])[i := c])
      ensures history == old(history) + [Image()]
    {
      buf[i] := c;
      history := history + [Image()];
    }

    // prev_ring_append. Once the bytes, the head, the number of bytes and the checksum are stored, in
    // this order, the ring holds the last 8192 bytes of all; what the memory was in between is in the
    // history, store by store.
    method Append(data: Bytes)
      requires BytesOk()
      modifies this`head, this`used, this`check, this`written, this`history, buf
      ensures BytesOk()
      ensures if !ready || data == [] then Image() == old(Image()) && history == old(history)
              else
                && old(AtRest(Image())) && old(history) <= history
                && |history| == |old(history)| + |Last(data, 8192)| + (if old(used) + |Last(data, 8192)| > 8192 then 4 else 3)
                && AllPass(old(Image()), history[|old(history)|..], Last(data, 8192))
      ensures written == if ready then old(written) + data else old(written)
    {
      hide Contents, Last, AllPass, AtRest, Place;
      if !ready || |data| == 0 {
        NothingAppended(written, data);
        return;
      }
      var d := data;
      if |d| > RING_BYTES { d := d[|d| - RING_BYTES..]; }
      LastCovers(Last(written, RING_BYTES), data, d);
      LastOfLast(written, data, RING_BYTES);
      written := written + data;
      AppendBytes(d);
    }

    // The rest of it, with the data cut to the size of the ring.
    method AppendBytes(data: Bytes)
      requires buf.Length == RING_BYTES && AtRest(Image()) && 0 < |data| <= RING_BYTES
      modifies this`head, this`used, this`check, this`history, buf
      ensures magic == old(magic) && AtRest(Image())
      ensures Contents(buf[..], head, used) == Last(old(Contents(buf[..], head, used)) + data, RING_BYTES)
      ensures old(history) <= history
      ensures |history| == |old(history)| + |data| + (if old(used) + |data| > RING_BYTES then 4 else 3)
      ensures AllPass(old(Image()), history[|old(history)|..], data)
    {
      hide Contents, Last, AllPass, Copied, Place, Checksum;
      ghost var m, h := Image(), history;
      CopyBytes(data);
      ghost var steps := history[|h|..];
      steps := StoreMetadata(m, steps, data);
      assert history[|h|..] == steps;
      AcceptedExactly(m, Image(), data, CheckStored);
      StoppedAppendKeeps(m, Image(), data, CheckStored);
      AppendHolds(m.buf, buf[..], m.head, m.used, data);
    }

    // The stores behind the copies.
    method StoreMetadata(ghost m: Memory, ghost steps: seq<Memory>, data: Bytes) returns (ghost more: seq<Memory>)
      requires buf.Length == RING_BYTES && AtRest(m) && 0 < |data| <= RING_BYTES
      requires Image() == m.(buf := buf[..]) && Copied(m.buf, buf[..], m.head, data) && AllPass(m, steps, data)
      modifies this`head, this`used, this`check, this`history
      ensures During(m, Image(), data, CheckStored)
      ensures steps <= more && history == old(history) + more[|steps|..] && AllPass(m, more, data)
      ensures |more| == |steps| + (if m.used + |data| > RING_BYTES then 4 else 3)
    {
      hide AllPass, Copied, Checksum, During, AtRest;
      head := (head + |data|) % RING_BYTES;
      Stored(m, Image(), data, HeadStored);
      more := Record(m, steps, data, HeadStored);
      more := StoreUsed(m, more, data);
      check := Checksum(head, used);
      Stored(m, Image(), data, CheckStored);
      more := Record(m, more, data, CheckStored);
    }

    // The number of bytes, and once more if it was too large.
    method StoreUsed(ghost m: Memory, ghost steps: seq<Memory>, data: Bytes) returns (ghost more: seq<Memory>)
      requires buf.Length == RING_BYTES && AtRest(m) && 0 < |data| <= RING_BYTES
      requires Image() == m.(buf := buf[..], head := HeadAfter(m.head, |data|))
      requires Copied(m.buf, buf[..], m.head, data) && AllPass(m, steps, data)
      modifies this`used, this`history
      ensures Image() == old(Image()).(used := UsedAfter(m.used, |data|))
      ensures steps <= more && history == old(history) + more[|steps|..] && AllPass(m, more, data)
      ensures |more| == |steps| + (if m.used + |data| > RING_BYTES then 2 else 1)
    {
      hide AllPass, Copied, Checksum, During, AtRest, HeadAfter;
      used := used + |data|;
      Stored(m, Image(), data, UsedAdded);
      more := Record(m, steps, data, UsedAdded);
      if used > RING_BYTES {
        used := RING_BYTES;
        Stored(m, Image(), data, UsedCapped);
        more := Record(m, more, data, UsedCapped);
      }
    }

    // A store of an append has just been made.
    ghost method Record(m: Memory, steps: seq<Memory>, data: Bytes, stage: Stage) returns (more: seq<Memory>)
      requires AtRest(m) && AllPass(m, steps, data) && During(m, Image(), data, stage)
      modifies this`history
      ensures Image() == old(Image()) && history == old(history) + [Image()]
      ensures more == steps + [Image()] && AllPass(m, more, data)
    {
      hide AllPass, During;
      history := history + [Image()];
      more := steps + [Image()];
      OneMorePasses(m, steps, Image(), data, stage);
    }

    // Both copies: up to the end of the buffer, then from its start.
    method CopyBytes(data: Bytes)
      requires buf.Length == RING_BYTES && AtRest(Image()) && |data| <= RING_BYTES
      modifies buf, this`history
      ensures Image() == old(Image()).(buf := buf[..]) && Copied(old(buf[..]), buf[..], head, data)
      ensures old(history) <= history && |history| == |old(history)| + |data|
      ensures AllPass(old(Image()), history[|old(history)|..], data)
    {
      hide CopiedUpTo, Untouched, AllPass, AtRest;
      RestIsBounded(Image());
      ghost var m, h, steps: seq<Memory> := Image(), history, [];
      NothingCopied(m, data);
      var first := RING_BYTES - head;
      if first > |data| { first := |data|; }
      for i := 0 to first
        invariant Image() == m.(buf := buf[..]) && CopiedUpTo(m.buf, buf[..], m.head, data, i)
        invariant history == h + steps && |steps| == i && AllPass(m, steps, data)
      {
        assert head + i == Target(head, i);
        steps := CopyByte(m, steps, data, head + i, i);
      }
      if |data| > first {
        for i := 0 to |data| - first
          invariant Image() == m.(buf := buf[..]) && CopiedUpTo(m.buf, buf[..], m.head, data, first + i)
          invariant history == h + steps && |steps| == first + i && AllPass(m, steps, data)
        {
          assert i == Target(head, first + i);
          steps := CopyByte(m, steps, data, i, first + i);
        }
      }
      assert history[|h|..] == steps;
    }

    // Byte j of the data goes to its place.
    method CopyByte(ghost m: Memory, ghost steps: seq<Memory>, data: Bytes, place: nat, j: nat) returns (ghost more: seq<Memory>)
      requires buf.Length == RING_BYTES && AtRest(m) && Image() == m.(buf := buf[..])
      requires j < |data| <= RING_BYTES && CopiedUpTo(m.buf, buf[..], m.head, data, j) && place == Target(m.head, j)
      requires AllPass(m, steps, data)
      modifies buf, this`history
      ensures Image() == m.(buf := buf[..]) && CopiedUpTo(m.buf, buf[..], m.head, data, j + 1)
      ensures history == old(history) + [Image()] && more == steps + [Image()] && AllPass(m, more, data)
    {
      hide AllPass, AtRest;
      CopyOne(m.buf, buf[..], m.head, data, j);
      StoreByte(place, data[j]);
      more := steps + [Image()];
      OneMorePasses(m, steps, Image(), data, Copying);
    }

    // idf_log_line: the line goes to the byte ring with a line feed, and to the line ring; without the
    // lock it is dropped.
    method LogLine(line: Bytes, locked: bool)
      requires Valid()
      modifies this, buf, slots
      ensures Valid() && ready == old(ready)
      ensures lines == if locked then old(lines) + [Clipped(line)] else old(lines)
      ensures forall s: Session :: s.lines == old(lines) ==> Next(s, Logged(line, locked)) == s.(lines := lines)
      ensures written == if locked && ready then old(written) + Clipped(line) + "\n" else old(written)
    {
      hide Contents, Last, Place, Clipped, AllPass, AtRest;
      var item := ClipLine(line);
      if !locked { return; }
      Append(item);
      Append("\n");
      PushLine(item);
    }

    method PushLine(item: Bytes)
      requires LinesOk()
      modifies this`lines, this`next, this`count, this`seq_, this`mirror, slots
      ensures LinesOk() && lines == old(lines) + [item]
    {
      SlotsApart(|lines|);
      slots[next] := item;
      lines := lines + [item];
      next := (next + 1) % RING_LINES;
      if count < RING_LINES { count := count + 1; }
      seq_ := seq_ + 1;
      mirror := seq_;
    }

    // idf_log_json_since, as the number and the lines that it prints; without the lock the number is
    // all it has.
    method LinesSince(since: nat, locked: bool) returns (seqNow: nat, out: seq<Bytes>)
      requires Valid()
      ensures seqNow == |lines| && out == if locked then Missing(lines, since) else []
      ensures forall s: Session :: s.lines == lines && s.since == since ==>
                Next(s, Polled(locked)) == Session(lines, seqNow, s.received + out)
    {
      hide BytesOk, LinesOk, Missing, Wrapped, Behind;
      CountIs();
      BehindNone(lines, if since > seq_ then 0 else since, |lines| - count);
      if !locked { return mirror, []; }
      seqNow := seq_;
      var start := Wrapped(next + RING_LINES - count);
      var oldest := if seq_ >= count then seq_ - count + 1 else 1;
      var from := if since > seq_ then 0 else since;
      out := [];
      for i := 0 to count
        invariant out == Behind(lines, from, |lines| - count, i)
      {
        SlotHolds(i);
        BehindOne(lines, from, |lines| - count, i);
        if oldest + i > from {
          out := out + [slots[Wrapped(start + i)]];
        }
      }
      BehindAll(lines, since, count);
    }

    lemma CountIs()
      requires LinesOk()
      ensures mirror == seq_ == |lines| && slots.Length == RING_LINES && next < RING_LINES
      ensures count == if |lines| < RING_LINES then |lines| else RING_LINES
    {
    }

    lemma {:induction false} SlotHolds(i: nat)
      requires LinesOk() && i < count
      ensures count <= |lines| && slots.Length == RING_LINES && next < RING_LINES
      ensures slots[Wrapped(Wrapped(next + RING_LINES - count) + i)] == lines[|lines| - count + i]
    {
      SlotOf(|lines|, count, i);
    }

    // prev_ring_valid.
    method RingValid() returns (ok: bool)
      ensures ok == Accepted(Image())
    {
      ok := magic == MAGIC && head < RING_BYTES && used <= RING_BYTES && check == Checksum(head, used);
    }

    // prev_log_capture, up to the header that it puts in front: whatever the memory holds, the bytes are
    // read if the ring is accepted, and the ring is cleared and put in use.
    method Capture() returns (body: Bytes)
      requires buf.Length == RING_BYTES
      modifies this`magic, this`head, this`used, this`check, this`ready, this`written
      ensures body == Extracted(old(Image()))
      ensures Image() == Cleared(old(Image())) && ready && written == [] && BytesOk()
    {
      hide Contents, Last, Place, Checksum, Captured;
      body := "";
      var valid := RingValid();
      if valid && used > 0 { body := ReadRing(); }
      magic, head, used, check := MAGIC, 0, 0, Checksum(0, 0);
      ready, written := true, [];
    }

    method ReadRing() returns (body: Bytes)
      requires buf.Length == RING_BYTES && Metadata(head, used)
      ensures body == Captured(Contents(buf[..], head, used))
    {
      hide Contents, Last, Place;
      ghost var all := Contents(buf[..], head, used);
      var start := (head + RING_BYTES - used) % RING_BYTES;
      body := "";
      assert all[..0] == "";
      for i := 0 to used
        invariant body == AllReadable(all[..i])
      {
        PlaceIs(head, used, i);
        assert all[..i + 1][..i] == all[..i];
        body := body + [Readable(buf[(start + i) % RING_BYTES])];
      }
      assert all[..used] == all;
      if used == RING_BYTES {
        var nl := FindLineFeed(body);
        if nl < |body| { body := body[nl + 1..]; }
      }
    }
  }

  // idf_log_init after a reset that left this in the memory.
  method StartUp(m: Memory) returns (log: LogBuffer, body: Bytes)
    requires |m.buf| == RING_BYTES
    ensures body == Extracted(m)
    ensures fresh(log) && log.Valid() && log.ready && log.lines == [] && log.written == []
  {
    log := new LogBuffer(m);
    body := log.Capture();
  }

  // A place in the line ring.
  function Wrapped(i: nat): (p: nat)
    ensures p < RING_LINES
  {
    i % RING_LINES
  }

  method FindLineFeed(s: Bytes) returns (n: nat)
    ensures n == FirstLine(s)
  {
    n := 0;
    assert s[0..] == s;
    while n < |s| && s[n] != '\n'
      invariant n <= |s| && n + FirstLine(s[n..]) == FirstLine(s)
    {
      assert s[n..][1..] == s[n + 1..];
      n := n + 1;
    }
  }

  method ClipLine(line: Bytes) returns (r: Bytes)
    ensures r == Clipped(line)
    ensures |line| > 192 ==> CutAtBoundary(line, 189, |r| - 3) && r == line[..|r| - 3] + "..."
  {
    if |line| <= LINE_MAX { return line; }
    var end := LINE_MAX - 3;
    while end > 0 && IsContinuation(line[end])
      invariant 0 <= end <= LINE_MAX - 3
      invariant CutPoint(line, end) == CutPoint(line, LINE_MAX - 3)
    {
      end := end - 1;
    }
    r := line[..end] + "...";
  }

  lemma {:induction false} RestIsBounded(m: Memory)
    requires AtRest(m)
    ensures |m.buf| == RING_BYTES && Metadata(m.head, m.used)
  {
  }

  lemma {:induction false} NothingAppended(s: Bytes, data: Bytes)
    ensures data == [] ==> s + data == s
  {
  }

  lemma {:induction false} NothingCopied(m: Memory, data: Bytes)
    requires AtRest(m)
    ensures CopiedUpTo(m.buf, m.buf, m.head, data, 0) && AllPass(m, [], data)
  {
  }

  lemma {:induction false} PlaceIs(head: nat, used: nat, i: nat)
    requires Metadata(head, used)
    ensures ((head + RING_BYTES - used) % RING_BYTES + i) % RING_BYTES == Place(head, used, i)
  {
  }

  // Only the last 8192 bytes of a long piece of data matter.
  lemma {:induction false} LastCovers(s: Bytes, data: Bytes, d: Bytes)
    requires d == if |data| > RING_BYTES then data[|data| - RING_BYTES..] else data
    ensures d == Last(data, RING_BYTES)
    ensures Last(s + data, RING_BYTES) == Last(s + d, RING_BYTES)
  {
    if |data| > RING_BYTES { assert Last(s + data, RING_BYTES) == data[|data| - RING_BYTES..]; }
  }

  // The slot written next is none of the last 119 lines.
  lemma {:induction false} SlotsApart(n: nat)
    ensures forall k :: n - RING_LINES < k < n && k >= 0 ==> k % RING_LINES != n % RING_LINES
  {
  }

  // The first n of the lines from `oldest` on that are behind line `from`.
  ghost function Behind(lines: seq<Bytes>, from: nat, oldest: nat, n: nat): seq<Bytes>
    requires oldest + n <= |lines|
  {
    var first := if from > oldest then from else oldest;
    if oldest + n <= first then [] else lines[first..oldest + n]
  }

  lemma {:induction false} BehindNone(lines: seq<Bytes>, from: nat, oldest: nat)
    requires oldest <= |lines|
    ensures Behind(lines, from, oldest, 0) == []
  {
    assert lines[oldest..oldest] == [];
  }

  lemma {:induction false} BehindOne(lines: seq<Bytes>, from: nat, oldest: nat, n: nat)
    requires oldest + n < |lines|
    ensures Behind(lines, from, oldest, n + 1) == Behind(lines, from, oldest, n) + if oldest + n >= from then [lines[oldest + n]] else []
  {
  }

  lemma {:induction false} BehindAll(lines: seq<Bytes>, since: nat, count: nat)
    requires count == if |lines| < RING_LINES then |lines| else RING_LINES
    ensures Behind(lines, if since > |lines| then 0 else since, |lines| - count, count) == Missing(lines, since)
  {
    var from := if since > |lines| then 0 else since;
    var first := if from > |lines| - count then from else |lines| - count;
    assert lines[first..|lines|] == lines[first..];
    if first == |lines| { assert lines[first..] == []; }
  }

  lemma {:induction false} SlotOf(n: nat, count: nat, i: nat)
    requires count == (if n < RING_LINES then n else RING_LINES) && i < count
    ensures ((n % RING_LINES + RING_LINES - count) % RING_LINES + i) % RING_LINES == (n - count + i) % RING_LINES
  {
  }
}
