// BER-TLV as ports/esp-idf/components/idf_esim/idf_esim.cpp reads and writes it (sections 8.1.2 to
// 8.1.4 of ITU-T X.690), and its decimal digits in swapped nibbles.
module Tlvs {
  import opened Text

  datatype Tlv = Tlv(tag: Bytes, constructed: bool, value: Bytes, children: seq<Tlv>)

  datatype Parsed = Parsed(tlv: Tlv, used: nat)

  const MAX_DEPTH := 8

  // ----- tags and lengths -----

  predicate HasMoreTag(c: Byte) {
    c as int % 32 == 31
  }

  predicate IsConstructed(c: Byte) {
    c as int / 32 % 2 == 1
  }

  // Leading bytes with the high bit set.
  function HighRun(s: Bytes): (n: nat)
    ensures n <= |s|
    ensures forall i :: 0 <= i < n ==> s[i] as int >= 128
    ensures n < |s| ==> s[n] as int < 128
  {
    if s == [] || s[0] as int < 128 then 0 else 1 + HighRun(s[1..])
  }

  // How many bytes the tag takes, if it is complete.
  function TagLength(s: Bytes): (r: Option<nat>)
    ensures r.Some? ==> 0 < r.value <= |s|
  {
    if s == [] then None
    else if !HasMoreTag(s[0]) then Some(1)
    else
      var n := HighRun(s[1..]);
      if 1 + n < |s| then Some(2 + n) else None
  }

  datatype Length = Length(len: nat, used: nat)

  function BigEndian(s: Bytes): nat {
    if s == [] then 0 else BigEndian(s[..|s| - 1]) * 256 + s[|s| - 1] as int
  }

  // The short form, or one to three bytes of length.
  function LengthField(s: Bytes): (r: Option<Length>)
    ensures r.Some? ==> 0 < r.value.used <= |s|
  {
    if s == [] then None
    else if s[0] as int < 128 then Some(Length(s[0] as int, 1))
    else
      var count := s[0] as int - 128;
      if count == 0 || count > 3 || 1 + count > |s| then None
      else Some(Length(BigEndian(s[1..1 + count]), 1 + count))
  }

  // Section 8.1.2 of X.690: five bits set mean that the tag goes on, the sixth that the value is made of
  // elements.
  lemma {:induction false} TagBits(c: Byte)
    ensures HasMoreTag(c) <==> c as int in {0x1F, 0x3F, 0x5F, 0x7F, 0x9F, 0xBF, 0xDF, 0xFF}
    ensures IsConstructed(c) <==>
            0x20 <= c as int < 0x40 || 0x60 <= c as int < 0x80 || 0xA0 <= c as int < 0xC0 || 0xE0 <= c as int
  {
  }

  // ----- parsing -----

  // parse_tlv_one on the bytes from the position to the end it was given.
  function ParseOne(s: Bytes, depth: nat): (r: Option<Parsed>)
    ensures r.Some? ==> 0 < r.value.used <= |s|
    decreases |s|, 0
  {
    if depth > MAX_DEPTH then None
    else
      var tag := TagLength(s);
      if tag.None? then None
      else
        var length := LengthField(s[tag.value..]);
        if length.None? || tag.value + length.value.used + length.value.len > |s| then None
        else
          var start := tag.value + length.value.used;
          var value := s[start..start + length.value.len];
          var constructed := IsConstructed(s[0]);
          var children := if constructed then ParseAll(value, depth + 1) else Some([]);
          if children.None? then None
          else Some(Parsed(Tlv(s[..tag.value], constructed, value, children.value), start + length.value.len))
  }

  function ParseAll(s: Bytes, depth: nat): Option<seq<Tlv>>
    decreases |s|, 1
  {
    if s == [] then Some([])
    else
      var first := ParseOne(s, depth);
      if first.None? then None
      else
        var rest := ParseAll(s[first.value.used..], depth);
        if rest.None? then None else Some([first.value.tlv] + rest.value)
  }

  // parse_tlv: one element and nothing behind it.
  function Parse(s: Bytes): Option<Tlv> {
    var r := ParseOne(s, 0);
    if r.None? || r.value.used != |s| then None else Some(r.value.tlv)
  }

  // ----- what an encoding is -----

  // A complete tag and nothing behind it.
  predicate IsTag(tag: Bytes) {
    TagLength(tag) == Some(|tag|)
  }

  predicate IsLength(field: Bytes, len: nat) {
    LengthField(field) == Some(Length(len, |field|))
  }

  // One byte, or a first byte that says there are more, then bytes with the high bit set, then one
  // without.
  lemma {:induction false} TagIs(tag: Bytes)
    ensures IsTag(tag) <==>
            || (|tag| == 1 && !HasMoreTag(tag[0]))
            || (|tag| >= 2 && HasMoreTag(tag[0]) && (forall i :: 1 <= i < |tag| - 1 ==> tag[i] as int >= 0x80) && tag[|tag| - 1] as int < 0x80)
  {
    hide HasMoreTag;
    if |tag| >= 2 {
      var n := HighRun(tag[1..]);
      assert forall i :: 1 <= i < |tag| ==> tag[i] == tag[1..][i - 1];
    }
  }

  // Section 8.1.3 of X.690: the length itself below 128, or a byte that counts up to three others, the
  // highest first.
  lemma {:induction false} LengthIs(field: Bytes, len: nat)
    ensures IsLength(field, len) <==>
            || (|field| == 1 && field[0] as int == len < 0x80)
            || (|field| == 2 && field[0] as int == 0x81 && len == field[1] as int)
            || (|field| == 3 && field[0] as int == 0x82 && len == field[1] as int * 0x100 + field[2] as int)
            || (|field| == 4 && field[0] as int == 0x83
                && len == field[1] as int * 0x1_0000 + field[2] as int * 0x100 + field[3] as int)
  {
    hide BigEndian;
    if field != [] && 0x80 < field[0] as int <= 0x83 && |field| == 1 + field[0] as int - 0x80 {
      var rest := field[1..];
      ShortNumbers(rest);
      assert field[1..1 + |rest|] == rest;
    }
  }

  lemma {:induction false} ShortNumbers(s: Bytes)
    requires 1 <= |s| <= 3
    ensures BigEndian(s) == if |s| == 1 then s[0] as int
                            else if |s| == 2 then s[0] as int * 0x100 + s[1] as int
                            else s[0] as int * 0x1_0000 + s[1] as int * 0x100 + s[2] as int
  {
    if |s| > 1 { ShortNumbers(s[..|s| - 1]); }
  }

  // The bytes are an encoding of the element: its tag, some form of its length, its value; and the
  // value of a constructed element is made of encodings of its children, one behind the other.
  ghost predicate Encodes(s: Bytes, t: Tlv)
    decreases |s|, 0
  {
    && IsTag(t.tag) && t.constructed == IsConstructed(t.tag[0])
    && HasForm(s, t)
    && (if t.constructed then |t.value| < |s| && EncodesAll(t.value, t.children) else t.children == [])
  }

  predicate HasForm(s: Bytes, t: Tlv) {
    && |t.tag| + |t.value| <= |s|
    && s[..|t.tag|] == t.tag && s[|s| - |t.value|..] == t.value
    && IsLength(s[|t.tag|..|s| - |t.value|], |t.value|)
  }

  ghost predicate EncodesAll(s: Bytes, ts: seq<Tlv>)
    decreases |s|, 2
  {
    if ts == [] then s == [] else exists k: nat :: SplitsOff(s, ts, k)
  }

  ghost predicate SplitsOff(s: Bytes, ts: seq<Tlv>, k: nat)
    requires ts != []
    decreases |s|, 1
  {
    0 < k <= |s| && Encodes(s[..k], ts[0]) && EncodesAll(s[k..], ts[1..])
  }

  // How many levels the element has.
  function Height(t: Tlv): (h: nat)
    ensures h >= 1
    decreases t, 0
  {
    1 + HeightAll(t.children)
  }

  function HeightAll(ts: seq<Tlv>): nat
    decreases ts, 1
  {
    if ts == [] then 0
    else
      var first, rest := Height(ts[0]), HeightAll(ts[1..]);
      if first > rest then first else rest
  }

  // ----- the parser accepts exactly the encodings of elements of at most nine levels -----

  lemma {:induction false} TagIsLocal(s: Bytes)
    requires TagLength(s).Some?
    ensures IsTag(s[..TagLength(s).value]) && s[..TagLength(s).value][0] == s[0]
  {
    if HasMoreTag(s[0]) {
      var n := HighRun(s[1..]);
      var tag := s[..2 + n];
      RunIs(tag[1..], n);
    }
  }

  // Where the run of high bytes ends.
  lemma {:induction false} RunIs(s: Bytes, n: nat)
    requires n < |s| && s[n] as int < 128 && forall i :: 0 <= i < n ==> s[i] as int >= 128
    ensures HighRun(s) == n
  {
    if n > 0 { RunIs(s[1..], n - 1); }
  }

  lemma {:induction false} TagExtends(tag: Bytes, rest: Bytes)
    requires IsTag(tag)
    ensures TagLength(tag + rest) == Some(|tag|) && (tag + rest)[0] == tag[0]
  {
    if HasMoreTag(tag[0]) {
      var n := HighRun(tag[1..]);
      assert (tag + rest)[1..] == tag[1..] + rest;
      RunIs((tag + rest)[1..], n);
    }
  }

  lemma {:induction false} LengthIsLocal(s: Bytes)
    requires LengthField(s).Some?
    ensures IsLength(s[..LengthField(s).value.used], LengthField(s).value.len)
  {
    var f := LengthField(s).value;
    if s[0] as int >= 128 { assert s[..f.used][1..f.used] == s[1..f.used]; }
  }

  lemma {:induction false} LengthExtends(field: Bytes, len: nat, rest: Bytes)
    requires IsLength(field, len)
    ensures LengthField(field + rest) == Some(Length(len, |field|))
  {
    if field[0] as int >= 128 { assert (field + rest)[1..|field|] == field[1..|field|]; }
  }

  // What is accepted is an encoding of the result, of a bounded height.
  lemma {:induction false} ParsedEncodes(s: Bytes, depth: nat)
    requires ParseOne(s, depth).Some?
    ensures var p := ParseOne(s, depth).value;
            Encodes(s[..p.used], p.tlv) && depth + Height(p.tlv) <= 9
    decreases |s|, 0
  {
    hide TagLength, LengthField, EncodesAll, ParseAll;
    var p := ParseOne(s, depth).value;
    var n := TagLength(s).value;
    var u := LengthField(s[n..]).value.used;
    TagIsLocal(s);
    LengthIsLocal(s[n..]);
    var x := s[..p.used];
    assert x[..n] == s[..n] && x[n..n + u] == s[n..][..u] && x[n + u..] == p.tlv.value;
    if p.tlv.constructed {
      AllParsedEncode(p.tlv.value, depth + 1);
    }
  }

  lemma {:induction false} AllParsedEncode(s: Bytes, depth: nat)
    requires ParseAll(s, depth).Some? && depth <= 9
    ensures EncodesAll(s, ParseAll(s, depth).value) && depth + HeightAll(ParseAll(s, depth).value) <= 9
    decreases |s|, 1
  {
    hide ParseOne, Encodes, Height;
    if s != [] {
      var first := ParseOne(s, depth).value;
      var rest := ParseAll(s[first.used..], depth).value;
      var all := [first.tlv] + rest;
      ParsedEncodes(s, depth);
      AllParsedEncode(s[first.used..], depth);
      assert all[0] == first.tlv && all[1..] == rest;
      assert SplitsOff(s, all, first.used);
    }
  }

  // Every encoding of such an element is accepted, whatever stands behind it.
  lemma {:induction false} EncodingParses(s: Bytes, t: Tlv, depth: nat, rest: Bytes)
    requires Encodes(s, t) && depth + Height(t) <= 9
    ensures ParseOne(s + rest, depth) == Some(Parsed(t, |s|))
    decreases |s|, 0
  {
    hide TagLength, LengthField, EncodesAll, ParseAll, HeightAll;
    var n, v := |t.tag|, |t.value|;
    var field := s[n..|s| - v];
    var all := s + rest;
    assert all == t.tag + (s[n..] + rest);
    TagExtends(t.tag, s[n..] + rest);
    assert all[n..] == field + (t.value + rest);
    LengthExtends(field, v, t.value + rest);
    assert all[n + |field|..n + |field| + v] == t.value && all[..n] == t.tag;
    if t.constructed { AllEncodingsParse(t.value, t.children, depth + 1); }
  }

  lemma {:induction false} AllEncodingsParse(s: Bytes, ts: seq<Tlv>, depth: nat)
    requires EncodesAll(s, ts) && depth + HeightAll(ts) <= 9
    ensures ParseAll(s, depth) == Some(ts)
    decreases |s|, 1
  {
    hide ParseOne, Encodes, Height;
    if ts != [] {
      var k: nat :| SplitsOff(s, ts, k);
      EncodingParses(s[..k], ts[0], depth, s[k..]);
      assert s[..k] + s[k..] == s;
      AllEncodingsParse(s[k..], ts[1..], depth);
      assert [ts[0]] + ts[1..] == ts;
    }
  }

  // On any input: the result is the element that the input encodes, if it has at most nine levels.
  lemma {:induction false} ParseIsExact(s: Bytes, t: Tlv)
    ensures Parse(s) == Some(t) <==> Encodes(s, t) && Height(t) <= 9
  {
    if ParseOne(s, 0).Some? {
      ParsedEncodes(s, 0);
      assert s[..|s|] == s;
    }
    if Encodes(s, t) && Height(t) <= MAX_DEPTH + 1 {
      EncodingParses(s, t, 0, []);
      assert s + [] == s;
    }
  }

  // ----- building -----

  // append_len: the shortest form up to two bytes; a longer length loses its upper bits.
  function LengthBytes(len: nat): Bytes {
    if len < 0x80 then [ByteOf(len)]
    else if len <= 0xFF then [ByteOf(0x81), ByteOf(len)]
    else [ByteOf(0x82), ByteOf(len / 0x100 % 0x100), ByteOf(len % 0x100)]
  }

  lemma {:induction false} LengthBytesAre(len: nat)
    requires len <= 0xFFFF
    ensures IsLength(LengthBytes(len), len)
    ensures |LengthBytes(len)| == if len < 0x80 then 1 else if len < 0x100 then 2 else 3
  {
    hide IsLength;
    LengthIs(LengthBytes(len), len);
  }

  // append_tlv.
  function Appended(tag: Bytes, value: Bytes): Bytes {
    tag + LengthBytes(|value|) + value
  }

  method AppendTlv(out: Bytes, tag: Bytes, value: Bytes) returns (r: Bytes)
    ensures r == out + Appended(tag, value)
  {
    r := out + tag;
    if |value| < 0x80 {
      r := r + [ByteOf(|value|)];
    } else if |value| <= 0xFF {
      r := r + [ByteOf(0x81)] + [ByteOf(|value|)];
    } else {
      r := r + [ByteOf(0x82)] + [ByteOf(|value| / 0x100 % 0x100)] + [ByteOf(|value| % 0x100)];
    }
    r := r + value;
  }

  // An element that append_tlv has built: the value of a constructed one is what its children append.
  predicate Built(t: Tlv)
    decreases t, 0
  {
    && IsTag(t.tag) && t.constructed == IsConstructed(t.tag[0])
    && if t.constructed then AllBuilt(t.children) && t.value == EncodingOf(t.children) else t.children == []
  }

  predicate AllBuilt(ts: seq<Tlv>)
    decreases ts, 1
  {
    ts == [] || (Built(ts[0]) && AllBuilt(ts[1..]))
  }

  function Encoding(t: Tlv): Bytes {
    Appended(t.tag, t.value)
  }

  function EncodingOf(ts: seq<Tlv>): Bytes {
    if ts == [] then [] else Encoding(ts[0]) + EncodingOf(ts[1..])
  }

  lemma {:induction false} LengthReads(len: nat)
    ensures LengthField(LengthBytes(len)) == Some(Length(if len < 0x100 then len else len % 0x1_0000, |LengthBytes(len)|))
  {
    var f := LengthBytes(len);
    if len >= 0x80 && len <= 0xFF {
      assert f[1..2] == [ByteOf(len)];
      OneByte(len);
    } else if len > 0xFF {
      var a, b := len / 0x100 % 0x100, len % 0x100;
      assert f[1..3] == [ByteOf(a), ByteOf(b)] && f[1..3][..1] == [ByteOf(a)];
      OneByte(a);
      assert a * 0x100 + b == len % 0x1_0000;
    }
  }

  lemma {:induction false} OneByte(n: nat)
    requires n < 0x100
    ensures BigEndian([ByteOf(n)]) == n
  {
    assert [ByteOf(n)][..0] == [];
  }

  lemma {:induction false} BuiltEncodes(t: Tlv)
    requires Built(t) && |t.value| <= 0xFFFF
    ensures Encodes(Encoding(t), t)
    decreases t, 0
  {
    hide LengthField, EncodesAll, AllBuilt, LengthBytes, TagLength;
    var s, f := Encoding(t), LengthBytes(|t.value|);
    LengthReads(|t.value|);
    assert s[|t.tag|..|s| - |t.value|] == f && s[..|t.tag|] == t.tag && s[|s| - |t.value|..] == t.value;
    if t.constructed { AllBuiltEncode(t.children, t.value); }
  }

  lemma {:induction false} AllBuiltEncode(ts: seq<Tlv>, s: Bytes)
    requires AllBuilt(ts) && s == EncodingOf(ts) && |s| <= 0xFFFF
    ensures EncodesAll(s, ts)
    decreases ts, 1
  {
    hide Built, Encodes, Appended;
    if ts != [] {
      var first := Encoding(ts[0]);
      EncodingSize(ts[0]);
      BuiltEncodes(ts[0]);
      assert s[..|first|] == first && s[|first|..] == EncodingOf(ts[1..]);
      AllBuiltEncode(ts[1..], s[|first|..]);
      assert SplitsOff(s, ts, |first|);
    }
  }

  lemma {:induction false} EncodingSize(t: Tlv)
    ensures |Encoding(t)| > |t.value|
  {
  }

  // A built element is read back as itself exactly when it has at most nine levels and its value is at
  // most 65535 bytes; with a longer value its length field no longer tells the truth.
  lemma {:induction false} BuildThenParse(t: Tlv)
    requires Built(t)
    ensures Parse(Encoding(t)) == Some(t) <==> Height(t) <= 9 && |t.value| <= 0xFFFF
  {
    hide Height, Parse, Built, LengthBytes, LengthField, TagLength, EncodesAll;
    ParseIsExact(Encoding(t), t);
    if |t.value| <= 0xFFFF {
      BuiltEncodes(t);
    } else {
      TooLong(t);
    }
  }

  lemma {:induction false} TooLong(t: Tlv)
    requires |t.value| > 0xFFFF
    ensures !Encodes(Encoding(t), t)
  {
    hide LengthBytes, LengthField, EncodesAll;
    var s := Encoding(t);
    LengthReads(|t.value|);
    assert s[|t.tag|..|s| - |t.value|] == LengthBytes(|t.value|);
  }
}
