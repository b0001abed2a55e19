// The per-message blob of the ESP port: blob_put_*, BlobReader and the entry format of
// ports/esp-idf/components/idf_inbox/idf_inbox.cpp.
module Blob {
  import opened Text
  import opened Store

  const BLOB_VERSION := 1

  // ----- writing -----

  function U8(v: nat): Bytes {
    [ByteOf(v % 256)]
  }

  function U16(v: nat): Bytes {
    [ByteOf(v % 256), ByteOf(v / 256 % 256)]
  }

  function U32(v: nat): Bytes {
    [ByteOf(v % 256), ByteOf(v / 0x100 % 256), ByteOf(v / 0x1_0000 % 256), ByteOf(v / 0x100_0000 % 256)]
  }

  function Clipped(s: Bytes, maximum: nat): (r: Bytes)
    ensures |r| <= maximum && (|s| <= maximum ==> r == s)
  {
    if |s| <= maximum then s else s[..maximum]
  }

  function ShortText(s: Bytes): Bytes {
    U8(|Clipped(s, 0xFF)|) + Clipped(s, 0xFF)
  }

  function LongText(s: Bytes): Bytes {
    U16(|Clipped(s, 0xFFFF)|) + Clipped(s, 0xFFFF)
  }

  function EntryBlob(e: InboxEntry): Bytes {
    U8(BLOB_VERSION) + U8(if e.forwarded then 1 else 0) + U32(e.id) + U32(e.recvEpoch) +
    ShortText(e.sender) + ShortText(e.ts) + LongText(e.text)
  }

  // ----- reading -----

  // BlobReader: a position and a flag that stays down once a read ran past the end.
  datatype Reader = Reader(data: Bytes, i: nat, ok: bool)

  function GetU8(r: Reader): (nat, Reader) {
    if r.i + 1 > |r.data| then (0, r.(ok := false)) else (r.data[r.i] as int, r.(i := r.i + 1))
  }

  function GetU16(r: Reader): (nat, Reader) {
    var (a, r1) := GetU8(r);
    var (b, r2) := GetU8(r1);
    (a + b * 256, r2)
  }

  function GetU32(r: Reader): (nat, Reader) {
    var (a, r1) := GetU16(r);
    var (b, r2) := GetU16(r1);
    (a + b * 0x1_0000, r2)
  }

  function GetBytes(r: Reader, n: nat): (Bytes, Reader) {
    if !r.ok || r.i + n > |r.data| then ("", r.(ok := false)) else (r.data[r.i..r.i + n], r.(i := r.i + n))
  }

  function GetShort(r: Reader): (Bytes, Reader) {
    var (n, r1) := GetU8(r);
    GetBytes(r1, n)
  }

  function GetLong(r: Reader): (Bytes, Reader) {
    var (n, r1) := GetU16(r);
    GetBytes(r1, n)
  }

  function ReadEntry(blob: Bytes): Option<InboxEntry> {
    var (version, r1) := GetU8(Reader(blob, 0, true));
    var (forwarded, r2) := GetU8(r1);
    var (id, r3) := GetU32(r2);
    var (epoch, r4) := GetU32(r3);
    var (sender, r5) := GetShort(r4);
    var (ts, r6) := GetShort(r5);
    var (text, r7) := GetLong(r6);
    if version != BLOB_VERSION || !r7.ok || id == 0 then None
    else Some(InboxEntry(id, epoch, sender, ts, text, forwarded != 0))
  }

  // The reader of the source, with its position moved by each read.
  class BlobReader {
    const p: Bytes
    var i: nat
    var ok: bool

    ghost function State(): Reader
      reads this
    {
      Reader(p, i, ok)
    }

    constructor (data: Bytes)
      ensures State() == Reader(data, 0, true)
    {
      p := data;
      i := 0;
      ok := true;
    }

    method ReadU8() returns (v: nat)
      modifies this
      ensures (v, State()) == GetU8(old(State()))
    {
      if i + 1 > |p| {
        ok := false;
        return 0;
      }
      v := p[i] as int;
      i := i + 1;
    }

    method ReadU16() returns (v: nat)
      modifies this
      ensures (v, State()) == GetU16(old(State()))
    {
      var a := ReadU8();
      var b := ReadU8();
      v := a + b * 256;
    }

    method ReadU32() returns (v: nat)
      modifies this
      ensures (v, State()) == GetU32(old(State()))
    {
      v := 0;
      var a := ReadU8();
      var b := ReadU8();
      var c := ReadU8();
      var d := ReadU8();
      v := a + b * 0x100 + c * 0x1_0000 + d * 0x100_0000;
    }

    method ReadText(u16len: bool) returns (s: Bytes)
      modifies this
      ensures (s, State()) == if u16len then GetLong(old(State())) else GetShort(old(State()))
    {
      var n;
      if u16len { n := ReadU16(); } else { n := ReadU8(); }
      if !ok || i + n > |p| {
        ok := false;
        return "";
      }
      s := p[i..i + n];
      i := i + n;
    }
  }

  method ParseBlob(blob: Bytes) returns (entry: Option<InboxEntry>)
    ensures entry == ReadEntry(blob)
  {
    hide GetU8, GetU32, GetShort, GetLong;
    var r := new BlobReader(blob);
    var version := r.ReadU8();
    var forwarded := r.ReadU8();
    var id := r.ReadU32();
    var epoch := r.ReadU32();
    var sender := r.ReadText(false);
    var ts := r.ReadText(false);
    var text := r.ReadText(true);
    if version != BLOB_VERSION || !r.ok || id == 0 { return None; }
    entry := Some(InboxEntry(id, epoch, sender, ts, text, forwarded != 0));
  }

  // ----- reading what was written -----

  // The reader is in order and has `rest` still to come.
  predicate At(r: Reader, rest: Bytes) {
    r.ok && r.i <= |r.data| && r.data[r.i..] == rest
  }

  function Past(r: Reader, n: nat): Reader {
    r.(i := r.i + n)
  }

  lemma {:induction false} StepsOver(r: Reader, x: Bytes, rest: Bytes)
    requires At(r, x + rest)
    ensures At(Past(r, |x|), rest) && r.i + |x| <= |r.data|
    ensures r.data[r.i..r.i + |x|] == x
    ensures forall k :: 0 <= k < |x| ==> r.data[r.i + k] == x[k]
  {
    assert |r.data[r.i..]| == |r.data| - r.i;
    forall k | 0 <= k < |x| ensures r.data[r.i + k] == x[k] {
      assert r.data[r.i..][k] == (x + rest)[k];
    }
    assert r.data[r.i + |x|..] == r.data[r.i..][|x|..];
  }

  lemma {:induction false} ReadsU8(r: Reader, v: nat, rest: Bytes)
    requires At(r, U8(v) + rest) && v < 256
    ensures GetU8(r) == (v, Past(r, 1)) && At(Past(r, 1), rest)
  {
    StepsOver(r, U8(v), rest);
  }

  lemma {:induction false} ReadsU16(r: Reader, v: nat, rest: Bytes)
    requires At(r, U16(v) + rest) && v < 0x1_0000
    ensures GetU16(r) == (v, Past(r, 2)) && At(Past(r, 2), rest)
  {
    StepsOver(r, U16(v), rest);
  }

  lemma {:induction false} FourBytes(v: nat)
    requires v < UINT32
    ensures v % 256 + v / 0x100 % 256 * 0x100 + (v / 0x1_0000 % 256 + v / 0x100_0000 % 256 * 0x100) * 0x1_0000 == v
  {
    var b := v / 0x100;
    var c := b / 0x100;
    Quarters(v);
    Together(v, v % 256, b, b % 256, c, c % 256, c / 0x100);
  }

  lemma {:induction false} Together(v: nat, v0: nat, b: nat, b0: nat, c: nat, c0: nat, d: nat)
    requires v == b * 0x100 + v0 && b == c * 0x100 + b0 && c == d * 0x100 + c0
    ensures v0 + b0 * 0x100 + (c0 + d * 0x100) * 0x1_0000 == v
  {
  }

  lemma {:induction false} Quarters(v: nat)
    requires v < UINT32
    ensures v / 0x1_0000 == v / 0x100 / 0x100 && v / 0x100_0000 == v / 0x100 / 0x100 / 0x100 < 256
  {
  }

  lemma {:induction false} ReadsU32(r: Reader, v: nat, rest: Bytes)
    requires At(r, U32(v) + rest) && v < UINT32
    ensures GetU32(r) == (v, Past(r, 4)) && At(Past(r, 4), rest)
  {
    StepsOver(r, U32(v), rest);
    FourBytes(v);
  }

  lemma {:induction false} ReadsShort(r: Reader, s: Bytes, rest: Bytes)
    requires At(r, ShortText(s) + rest)
    ensures GetShort(r).0 == Clipped(s, 0xFF) && At(GetShort(r).1, rest)
  {
    var t := Clipped(s, 0xFF);
    Associative(U8(|t|), t, rest);
    ReadsU8(r, |t|, t + rest);
    StepsOver(Past(r, 1), t, rest);
  }

  lemma {:induction false} ReadsLong(r: Reader, s: Bytes, rest: Bytes)
    requires At(r, LongText(s) + rest)
    ensures GetLong(r).0 == Clipped(s, 0xFFFF) && At(GetLong(r).1, rest)
  {
    var t := Clipped(s, 0xFFFF);
    Associative(U16(|t|), t, rest);
    ReadsU16(r, |t|, t + rest);
    StepsOver(Past(r, 2), t, rest);
  }

  // What a stored entry comes back as: the sender and the timestamp lose what is past 255 bytes, the
  // text what is past 65535.
  function Kept(e: InboxEntry): InboxEntry {
    e.(sender := Clipped(e.sender, 0xFF), ts := Clipped(e.ts, 0xFF), text := Clipped(e.text, 0xFFFF))
  }

  // The blob as its first piece and the rest, piece by piece.
  lemma {:induction false} Nested<T>(a: seq<T>, b: seq<T>, c: seq<T>, d: seq<T>, e: seq<T>, f: seq<T>, g: seq<T>)
    ensures a + b + c + d + e + f + g == a + (b + (c + (d + (e + (f + (g + []))))))
  {
  }

  lemma {:induction false} EntryRoundTrip(e: InboxEntry)
    requires 0 < e.id < UINT32 && e.recvEpoch < UINT32
    ensures ReadEntry(EntryBlob(e)) == Some(Kept(e))
  {
    var r0, flag := Reader(EntryBlob(e), 0, true), if e.forwarded then 1 else 0;
    var t7 := LongText(e.text) + [];
    var t6 := ShortText(e.ts) + t7;
    var t5 := ShortText(e.sender) + t6;
    var t4 := U32(e.recvEpoch) + t5;
    var t3 := U32(e.id) + t4;
    var t2 := U8(flag) + t3;
    assert At(r0, U8(BLOB_VERSION) + t2) by {
      Nested(U8(BLOB_VERSION), U8(flag), U32(e.id), U32(e.recvEpoch), ShortText(e.sender), ShortText(e.ts), LongText(e.text));
      assert EntryBlob(e)[0..] == EntryBlob(e);
    }
    hide At, EntryBlob, GetU8, GetU32, GetShort, GetLong, U8, U32, ShortText, LongText, Clipped;
    ReadsU8(r0, BLOB_VERSION, t2);
    var r1 := GetU8(r0).1;
    ReadsU8(r1, flag, t3);
    var r2 := GetU8(r1).1;
    ReadsU32(r2, e.id, t4);
    var r3 := GetU32(r2).1;
    ReadsU32(r3, e.recvEpoch, t5);
    var r4 := GetU32(r3).1;
    ReadsShort(r4, e.sender, t6);
    var r5 := GetShort(r4).1;
    ReadsShort(r5, e.ts, t7);
    ReadsLong(GetShort(r5).1, e.text, []);
    StillOk(GetLong(GetShort(r5).1).1, []);
  }

  lemma {:induction false} StillOk(r: Reader, rest: Bytes)
    requires At(r, rest)
    ensures r.ok
  {
  }

  lemma {:induction false} BlobLength(e: InboxEntry)
    ensures |EntryBlob(e)| == 14 + |Clipped(e.sender, 0xFF)| + |Clipped(e.ts, 0xFF)| + |Clipped(e.text, 0xFFFF)|
  {
  }

  // ----- the layout -----

  // Four bytes from i on, the lowest first.
  function LittleEndian(b: Bytes, i: nat): int
    requires i + 4 <= |b|
  {
    b[i] as int + b[i + 1] as int * 0x100 + b[i + 2] as int * 0x1_0000 + b[i + 3] as int * 0x100_0000
  }

  // The blob begins with this entry: a version, a mark, the id, the time, two texts of at most 255 bytes
  // and one of at most 65535, each behind its length.
  predicate IsBlob(b: Bytes, e: InboxEntry) {
    var n, m := |e.sender|, |e.ts|;
    && 14 + n + m + |e.text| <= |b|
    && b[0] as int == 1 && (e.forwarded <==> b[1] as int != 0)
    && LittleEndian(b, 2) == e.id > 0 && LittleEndian(b, 6) == e.recvEpoch
    && b[10] as int == n && b[11..11 + n] == e.sender
    && b[11 + n] as int == m && b[12 + n..12 + n + m] == e.ts
    && b[12 + n + m] as int + b[13 + n + m] as int * 0x100 == |e.text| && b[14 + n + m..14 + n + m + |e.text|] == e.text
  }

  lemma {:induction false} NumbersAt(b: Bytes, i: nat)
    ensures i + 1 <= |b| ==> GetU8(Reader(b, i, true)) == (b[i] as int, Reader(b, i + 1, true))
    ensures i + 2 <= |b| ==> GetU16(Reader(b, i, true)) == (b[i] as int + b[i + 1] as int * 0x100, Reader(b, i + 2, true))
    ensures i + 4 <= |b| ==> GetU32(Reader(b, i, true)) == (LittleEndian(b, i), Reader(b, i + 4, true))
    ensures i + 1 > |b| ==> !GetU8(Reader(b, i, true)).1.ok
    ensures i + 2 > |b| ==> !GetU16(Reader(b, i, true)).1.ok
    ensures i + 4 > |b| ==> !GetU32(Reader(b, i, true)).1.ok
  {
  }

  lemma {:induction false} StaysDown(r: Reader, n: nat)
    requires !r.ok
    ensures !GetU8(r).1.ok && !GetU16(r).1.ok && !GetU32(r).1.ok && !GetBytes(r, n).1.ok && !GetShort(r).1.ok && !GetLong(r).1.ok
  {
  }

  lemma {:induction false} TextsAt(b: Bytes, i: nat)
    ensures var r := Reader(b, i, true);
            if i + 1 <= |b| && i + 1 + b[i] as int <= |b|
            then GetShort(r) == (b[i + 1..i + 1 + b[i] as int], Reader(b, i + 1 + b[i] as int, true))
            else !GetShort(r).1.ok
    ensures var r := Reader(b, i, true);
            if i + 2 <= |b| && i + 2 + b[i] as int + b[i + 1] as int * 0x100 <= |b|
            then var n := b[i] as int + b[i + 1] as int * 0x100;
                 GetLong(r) == (b[i + 2..i + 2 + n], Reader(b, i + 2 + n, true))
            else !GetLong(r).1.ok
  {
    NumbersAt(b, i);
  }

  // Read is exactly an entry that the blob begins with; whatever stands behind it does not matter.
  lemma {:induction false} ReadIsExact(b: Bytes, e: InboxEntry)
    ensures ReadEntry(b) == Some(e) <==> IsBlob(b, e)
  {
    hide GetU8, GetU32, GetShort, GetLong, IsBlob;
    if |b| >= 10 {
      NumbersAt(b, 0);
      NumbersAt(b, 1);
      NumbersAt(b, 2);
      NumbersAt(b, 6);
      TextsAreRead(b, e);
    } else {
      ShortIsRefused(b);
      ShortIsNone(b, e);
    }
  }

  lemma {:induction false} ShortIsNone(b: Bytes, e: InboxEntry)
    requires |b| < 10
    ensures !IsBlob(b, e)
  {
  }

  lemma {:induction false} ShortIsRefused(b: Bytes)
    requires |b| < 10
    ensures ReadEntry(b).None?
  {
    hide GetU8, GetU32, GetShort, GetLong;
    var r0 := Reader(b, 0, true);
    NumbersAt(b, 0);
    NumbersAt(b, 1);
    NumbersAt(b, 2);
    NumbersAt(b, 6);
    var r1 := GetU8(r0).1;
    var r2 := GetU8(r1).1;
    var r3 := GetU32(r2).1;
    var r4 := GetU32(r3).1;
    var r5 := GetShort(r4).1;
    var r6 := GetShort(r5).1;
    if !r1.ok { StaysDown(r1, 0); }
    if !r2.ok { StaysDown(r2, 0); }
    if !r3.ok { StaysDown(r3, 0); }
    StaysDown(r4, 0);
    StaysDown(r5, 0);
    StaysDown(r6, 0);
  }

  // Behind the numbers.
  lemma {:induction false} TextsAreRead(b: Bytes, e: InboxEntry)
    requires |b| >= 10
    ensures var (sender, r5) := GetShort(Reader(b, 10, true));
            var (ts, r6) := GetShort(r5);
            var (text, r7) := GetLong(r6);
            var read := InboxEntry(LittleEndian(b, 2), LittleEndian(b, 6), sender, ts, text, b[1] as int != 0);
            b[0] as int == 1 && r7.ok && LittleEndian(b, 2) != 0 && read == e <==> IsBlob(b, e)
  {
    hide GetU8, GetU32, GetShort, GetLong, LittleEndian;
    TextsAt(b, 10);
    var (sender, r5) := GetShort(Reader(b, 10, true));
    if !r5.ok {
      StaysDown(r5, 0);
      StaysDown(GetShort(r5).1, 0);
    } else {
      TextsAt(b, r5.i);
      var (ts, r6) := GetShort(r5);
      if !r6.ok { StaysDown(r6, 0); } else { TextsAt(b, r6.i); }
    }
  }

  // What is written begins with the entry, cut where it must be, and has nothing behind it.
  lemma {:induction false} WrittenIs(e: InboxEntry)
    requires 0 < e.id < 0x1_0000_0000 && e.recvEpoch < 0x1_0000_0000
    ensures IsBlob(EntryBlob(e), Kept(e)) && |EntryBlob(e)| == 14 + |Kept(e).sender| + |Kept(e).ts| + |Kept(e).text|
    ensures Kept(e).sender == (if |e.sender| <= 255 then e.sender else e.sender[..255])
    ensures Kept(e).ts == (if |e.ts| <= 255 then e.ts else e.ts[..255])
    ensures Kept(e).text == (if |e.text| <= 65535 then e.text else e.text[..65535])
  {
    hide IsBlob, ReadEntry, EntryBlob;
    EntryRoundTrip(e);
    ReadIsExact(EntryBlob(e), Kept(e));
    BlobLength(e);
  }
}
