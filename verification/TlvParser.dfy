// parse_tlv_one of ports/esp-idf/components/idf_esim/idf_esim.cpp with its moving position, and the
// digit strings gsm_bcd_encode and gsm_bcd_decode.
module TlvParser {
  import opened Text
  import opened Tlvs

  function Behind(done: seq<Tlv>, r: Option<seq<Tlv>>): Option<seq<Tlv>> {
    match r case None => None case Some(ts) => Some(done + ts)
  }

  method TagEnd(data: Bytes, end: nat, pos: nat) returns (p: nat, ok: bool)
    requires pos < end <= |data|
    ensures pos < p <= end
    ensures match TagLength(data[pos..end]) case None => !ok || p == end case Some(n) => ok && p == pos + n
  {
    ghost var s := data[pos..end];
    p := pos + 1;
    ok := true;
    if !HasMoreTag(data[pos]) { return; }
    var high := true;
    while p < end && high
      invariant pos < p <= end
      invariant high ==> forall k :: pos + 1 <= k < p ==> data[k] as int >= 128
      invariant !high ==> TagLength(s) == Some(p - pos)
      decreases end - p
    {
      high := data[p] as int >= 128;
      if !high {
        forall i | 0 <= i < p - pos - 1 ensures s[1..][i] as int >= 128 { assert data[pos + 1 + i] as int >= 128; }
        RunIs(s[1..], p - pos - 1);
      }
      p := p + 1;
    }
    if high {
      AllHigh(s[1..]);
      ok := data[p - 1] as int < 128;
    } else {
      Terminated(data, end, pos, p);
    }
  }

  lemma {:induction false} AllHigh(s: Bytes)
    requires forall i :: 0 <= i < |s| ==> s[i] as int >= 128
    ensures HighRun(s) == |s|
  {
    if s != [] { AllHigh(s[1..]); }
  }

  // The last byte of a tag of several bytes is low.
  lemma {:induction false} Terminated(data: Bytes, end: nat, pos: nat, p: nat)
    requires pos < p <= end <= |data| && HasMoreTag(data[pos]) && TagLength(data[pos..end]) == Some(p - pos)
    ensures data[p - 1] as int < 128
  {
    var s := data[pos..end];
    assert s[1..][HighRun(s[1..])] == data[p - 1];
  }

  method LengthEnd(data: Bytes, end: nat, pos: nat) returns (ok: bool, p: nat, len: nat)
    requires pos < end <= |data|
    ensures match LengthField(data[pos..end]) case None => !ok case Some(f) => ok && p == pos + f.used && len == f.len
  {
    ghost var s := data[pos..end];
    p, len := pos + 1, data[pos] as int;
    if len < 128 { return true, p, len; }
    var count := data[pos] as int - 128;
    if count == 0 || count > 3 || p + count > end { return false, p, len; }
    len := 0;
    ghost var field := s[1..1 + count];
    assert field[..0] == [];
    for i := 0 to count
      invariant p == pos + 1 + i && len == BigEndian(field[..i])
    {
      assert field[i] == s[1 + i] == data[p];
      assert field[..i + 1][..i] == field[..i];
      len := len * 256 + data[p] as int;
      p := p + 1;
    }
    assert field[..count] == field;
    ok := true;
  }

  method ParseTlvOne(data: Bytes, end: nat, pos: nat, depth: nat) returns (ok: bool, after: nat, out: Tlv)
    requires pos <= end <= |data|
    ensures match ParseOne(data[pos..end], depth)
            case None => !ok
            case Some(p) => ok && after == pos + p.used && out == p.tlv
    decreases end - pos, 0
  {
    hide TagLength, LengthField, ParseAll;
    ghost var s := data[pos..end];
    after, out := pos, Tlv([], false, [], []);
    if depth > MAX_DEPTH { return false, after, out; }
    if pos >= end {
      NoTag();
      return false, after, out;
    }
    var constructed := IsConstructed(data[pos]);
    var p, complete := TagEnd(data, end, pos);
    if !complete { return false, after, out; }
    var tag := data[pos..p];
    if p >= end {
      assert TagLength(s).Some? ==> s[TagLength(s).value..] == [];
      NoLength();
      return false, after, out;
    }
    assert s[p - pos..] == data[p..end] && s[..p - pos] == tag;
    var q, len;
    ok, q, len := LengthEnd(data, end, p);
    if !ok || q + len > end { return false, after, out; }
    var value := data[q..q + len];
    SliceOfSlice(data, pos, end, q, q + len);
    var children: seq<Tlv> := [];
    if constructed {
      ok, children := ParseChildren(data, q + len, q, depth + 1);
      if !ok { return false, after, out; }
    }
    return true, q + len, Tlv(tag, constructed, value, children);
  }

  method ParseChildren(data: Bytes, end: nat, pos: nat, depth: nat) returns (ok: bool, children: seq<Tlv>)
    requires 0 < pos <= end <= |data|
    ensures match ParseAll(data[pos..end], depth) case None => !ok case Some(ts) => ok && children == ts
    decreases end - pos, 1
  {
    hide ParseOne;
    var p := pos;
    children := [];
    ghost var all := ParseAll(data[pos..end], depth);
    assert Behind([], all) == all by { if all.Some? { assert [] + all.value == all.value; } }
    while p < end
      invariant pos <= p <= end && all == Behind(children, ParseAll(data[p..end], depth))
      decreases end - p
    {
      var s := data[p..end];
      var child, next;
      ok, next, child := ParseTlvOne(data, end, p, depth);
      if !ok { return; }
      assert s[next - p..] == data[next..end];
      BehindTwice(children, child, ParseAll(data[next..end], depth));
      children := children + [child];
      p := next;
    }
    assert children + [] == children;
    ok := true;
  }

  lemma {:induction false} SliceOfSlice(data: Bytes, pos: nat, end: nat, a: nat, b: nat)
    requires pos <= a <= b <= end <= |data|
    ensures data[pos..end][a - pos..b - pos] == data[a..b]
  {
    var s, t := data[pos..end][a - pos..b - pos], data[a..b];
    assert forall i :: 0 <= i < |t| ==> s[i] == data[a + i];
  }

  lemma {:induction false} BehindTwice(done: seq<Tlv>, child: Tlv, r: Option<seq<Tlv>>)
    ensures Behind(done, Behind([child], r)) == Behind(done + [child], r)
  {
    if r.Some? { Associative(done, [child], r.value); }
  }

  lemma NoTag()
    ensures TagLength([]).None?
  {
  }

  lemma NoLength()
    ensures LengthField([]).None?
  {
  }

  method ParseTlv(data: Bytes) returns (ok: bool, out: Tlv)
    ensures match Parse(data) case None => !ok case Some(t) => ok && out == t
  {
    hide ParseOne;
    assert data[0..|data|] == data;
    var after;
    ok, after, out := ParseTlvOne(data, |data|, 0, 0);
    ok := ok && after == |data|;
  }

  // ----- digits in swapped nibbles -----

  function Digit(c: Byte): nat
    requires IsDigit(c)
  {
    c as int - 48
  }

  // The first digit of a pair is in the low half; a lonely last digit has 15 above it.
  function Pairs(digits: Bytes): Bytes
    requires AllDigits(digits)
  {
    if digits == [] then []
    else if |digits| == 1 then [ByteOf(15 * 16 + Digit(digits[0]))]
    else [ByteOf(Digit(digits[1]) * 16 + Digit(digits[0]))] + Pairs(digits[2..])
  }

  function Filler(n: nat): (r: Bytes)
    ensures |r| == n
  {
    if n == 0 then [] else [ByteOf(0xFF)] + Filler(n - 1)
  }

  const ICCID_BYTES := 10

  // gsm_bcd_encode: refused for anything but digits; filled up to ten bytes.
  function BcdEncode(digits: Bytes): Option<Bytes> {
    if digits == [] || !AllDigits(digits) then None
    else Some(Pairs(digits) + Filler(if |Pairs(digits)| < ICCID_BYTES then ICCID_BYTES - |Pairs(digits)| else 0))
  }

  function HexChar(n: nat): Byte
    requires n < 16
  {
    if n < 10 then (n + 48) as char else (n + 87) as char
  }

  // A nibble of 15 stands for nothing.
  function Nibble(n: nat): Bytes
    requires n < 16
  {
    if n == 15 then [] else [HexChar(n)]
  }

  function BcdDecode(s: Bytes): Bytes {
    if s == [] then [] else Nibble(s[0] as int % 16) + Nibble(s[0] as int / 16) + BcdDecode(s[1..])
  }

  lemma {:induction false} FillerDecodes(n: nat)
    ensures BcdDecode(Filler(n)) == []
  {
    if n > 0 { FillerDecodes(n - 1); }
  }

  lemma {:induction false} DecodeAppends(a: Bytes, b: Bytes)
    ensures BcdDecode(a + b) == BcdDecode(a) + BcdDecode(b)
  {
    if a == [] {
      assert a + b == b;
    } else {
      hide Nibble;
      assert (a + b)[1..] == a[1..] + b;
      DecodeAppends(a[1..], b);
      Associative(Nibble(a[0] as int % 16) + Nibble(a[0] as int / 16), BcdDecode(a[1..]), BcdDecode(b));
    }
  }

  lemma {:induction false} PairsDecode(digits: Bytes)
    requires AllDigits(digits)
    ensures BcdDecode(Pairs(digits)) == digits
  {
    if |digits| == 1 {
      OneDigitDecodes(digits);
    } else if digits != [] {
      PairsDecode(digits[2..]);
      TwoDigitsDecode(digits[0], digits[1], Pairs(digits[2..]));
      assert digits == [digits[0]] + [digits[1]] + digits[2..];
    }
  }

  lemma {:induction false} OneDigitDecodes(digits: Bytes)
    requires |digits| == 1 && AllDigits(digits)
    ensures BcdDecode(Pairs(digits)) == digits
  {
    assert Pairs(digits)[1..] == [];
    assert BcdDecode([]) == [];
  }

  lemma {:induction false} TwoDigitsDecode(x: Byte, y: Byte, rest: Bytes)
    requires IsDigit(x) && IsDigit(y)
    ensures var b := Digit(y) * 16 + Digit(x);
            0 <= b < 256 && BcdDecode([ByteOf(b)] + rest) == [x] + [y] + BcdDecode(rest)
  {
    var b := Digit(y) * 16 + Digit(x);
    assert b % 16 == Digit(x) && b / 16 == Digit(y);
    assert ([ByteOf(b)] + rest)[1..] == rest;
  }

  // Any string of digits comes back, of even or odd length, short or long.
  lemma {:induction false} BcdRoundTrip(digits: Bytes)
    requires digits != [] && AllDigits(digits)
    ensures BcdEncode(digits).Some? && BcdDecode(BcdEncode(digits).value) == digits
    ensures |BcdEncode(digits).value| >= 10
  {
    var n := if |Pairs(digits)| < ICCID_BYTES then ICCID_BYTES - |Pairs(digits)| else 0;
    DecodeAppends(Pairs(digits), Filler(n));
    PairsDecode(digits);
    FillerDecodes(n);
  }

  // Digit 2k is in the low half of byte k and digit 2k + 1 in the high half; where there is none the
  // half is 15, up to at least ten bytes.
  lemma {:induction false} BcdEncodeIs(digits: Bytes)
    requires digits != [] && AllDigits(digits)
    ensures BcdEncode(digits).Some?
    ensures var b := BcdEncode(digits).value;
            && |b| == (if |digits| <= 20 then 10 else (|digits| + 1) / 2)
            && forall k :: 0 <= k < |b| ==>
                 && b[k] as int % 16 == (if 2 * k < |digits| then digits[2 * k] as int - 0x30 else 15)
                 && b[k] as int / 16 == (if 2 * k + 1 < |digits| then digits[2 * k + 1] as int - 0x30 else 15)
  {
    hide Pairs, Filler;
    PairsAre(digits);
    var n := if |Pairs(digits)| < ICCID_BYTES then ICCID_BYTES - |Pairs(digits)| else 0;
    FillerIs(n);
  }

  lemma {:induction false} PairsAre(digits: Bytes)
    requires AllDigits(digits)
    ensures |Pairs(digits)| == (|digits| + 1) / 2
    ensures forall k :: 0 <= k < |Pairs(digits)| ==>
              && Pairs(digits)[k] as int % 16 == digits[2 * k] as int - 0x30
              && Pairs(digits)[k] as int / 16 == (if 2 * k + 1 < |digits| then digits[2 * k + 1] as int - 0x30 else 15)
  {
    if |digits| >= 2 {
      PairsAre(digits[2..]);
      forall k | 0 < k < |Pairs(digits)|
        ensures Pairs(digits)[k] == Pairs(digits[2..])[k - 1] && digits[2 * k] == digits[2..][2 * (k - 1)]
        ensures 2 * k + 1 < |digits| ==> digits[2 * k + 1] == digits[2..][2 * (k - 1) + 1]
      {
      }
    }
  }

  lemma {:induction false} FillerIs(n: nat)
    ensures forall k :: 0 <= k < n ==> Filler(n)[k] as int == 0xFF
  {
    if n > 0 { FillerIs(n - 1); }
  }

  // A half reads as a digit of lower-case hex, but 15 as nothing; the low half comes first.
  lemma {:induction false} ByteDecodes(c: Byte)
    ensures BcdDecode([c]) == Nibble(c as int % 16) + Nibble(c as int / 16)
    ensures forall n: nat :: n < 15 ==> Nibble(n) == ["0123456789abcde"[n]]
    ensures Nibble(15) == ""
  {
    hide Nibble;
    forall n: nat | n < 15 ensures Nibble(n) == ["0123456789abcde"[n]] { NibbleIs(n); }
    NibbleIs(15);
    assert [c][1..] == [] && BcdDecode([]) == [];
  }

  lemma {:induction false} NibbleIs(n: nat)
    requires n < 16
    ensures Nibble(n) == if n == 15 then "" else ["0123456789abcde"[n]]
  {
    match n
    case 0 => case 1 => case 2 => case 3 => case 4 => case 5 => case 6 => case 7 =>
    case 8 => case 9 => case 10 => case 11 => case 12 => case 13 => case 14 => case 15 =>
  }
}
