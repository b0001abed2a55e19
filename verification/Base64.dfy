// Base64 of core/src/crypto.cpp: section 4 of RFC 4648, strict and canonical (section 3.5).
module Base64 {
  import opened Text

  type Sextet = n: int | 0 <= n < 64

  // The table "A".."Z", "a".."z", "0".."9", "+", "/".
  function CharOf(n: Sextet): Byte {
    if n < 26 then (n + 65) as char
    else if n < 52 then (n + 71) as char
    else if n < 62 then (n - 4) as char
    else if n == 62 then '+' else '/'
  }

  function Value(c: Byte): (n: int)
    ensures -1 <= n < 64
  {
    if 'A' <= c <= 'Z' then c as int - 65
    else if 'a' <= c <= 'z' then c as int - 71
    else if '0' <= c <= '9' then c as int + 4
    else if c == '+' then 62
    else if c == '/' then 63 else -1
  }

  lemma {:induction false} ValueOfChar(n: Sextet)
    ensures Value(CharOf(n)) == n && CharOf(n) != '=' && CharOf(n) as int > 32
  {
  }

  lemma {:induction false} CharOfValue(c: Byte)
    requires Value(c) >= 0
    ensures CharOf(Value(c)) == c && c != '='
  {
  }

  function At(data: Bytes, i: nat): int
    requires i < |data|
  {
    data[i] as int
  }

  // ----- encoding -----

  function EncodeGroup(v: int): (r: Bytes)
    requires 0 <= v < 0x100_0000
    ensures |r| == 4
  {
    [CharOf(v / 0x4_0000 % 64), CharOf(v / 0x1000 % 64), CharOf(v / 64 % 64), CharOf(v % 64)]
  }

  function EncodeTail(data: Bytes): (r: Bytes)
    requires 1 <= |data| <= 2
    ensures |r| == 4
  {
    if |data| == 1 then
      var v := At(data, 0) * 0x1_0000;
      [CharOf(v / 0x4_0000 % 64), CharOf(v / 0x1000 % 64), '=', '=']
    else
      var v := At(data, 0) * 0x1_0000 + At(data, 1) * 0x100;
      [CharOf(v / 0x4_0000 % 64), CharOf(v / 0x1000 % 64), CharOf(v / 64 % 64), '=']
  }

  function Encode(data: Bytes): Bytes {
    if data == [] then []
    else if |data| < 3 then EncodeTail(data)
    else EncodeGroup(At(data, 0) * 0x1_0000 + At(data, 1) * 0x100 + At(data, 2)) + Encode(data[3..])
  }

  lemma {:induction false} EncodeOne(out: Bytes, data: Bytes, i: nat)
    requires i + 3 <= |data|
    ensures var v := At(data, i) * 0x1_0000 + At(data, i + 1) * 0x100 + At(data, i + 2);
            out + Encode(data[i..]) == out + EncodeGroup(v) + Encode(data[i + 3..])
  {
    var v := At(data, i) * 0x1_0000 + At(data, i + 1) * 0x100 + At(data, i + 2);
    assert data[i..][3..] == data[i + 3..];
    assert Encode(data[i..]) == EncodeGroup(v) + Encode(data[i + 3..]);
    Associative(out, EncodeGroup(v), Encode(data[i + 3..]));
  }

  lemma {:induction false} EncodeRest(out: Bytes, data: Bytes, i: nat)
    requires i <= |data| < i + 3
    ensures out + Encode(data[i..]) == if i == |data| then out else out + EncodeTail(data[i..])
  {
    hide EncodeTail;
  }

  lemma {:induction false} EncodeNone(s: Bytes)
    ensures s[0..] == s && [] + Encode(s) == Encode(s)
  {
  }

  method EncodeBytes(data: Bytes) returns (out: Bytes)
    ensures out == Encode(data)
  {
    hide Encode, EncodeGroup, CharOf;
    out := [];
    var i := 0;
    EncodeNone(data);
    while i + 3 <= |data|
      invariant 0 <= i <= |data|
      invariant out + Encode(data[i..]) == Encode(data)
    {
      EncodeOne(out, data, i);
      var v := At(data, i) * 0x1_0000 + At(data, i + 1) * 0x100 + At(data, i + 2);
      out := out + EncodeGroup(v);
      i := i + 3;
    }
    EncodeRest(out, data, i);
    if i + 1 == |data| {
      var v := At(data, i) * 0x1_0000;
      out := out + [CharOf(v / 0x4_0000 % 64), CharOf(v / 0x1000 % 64), '=', '='];
    } else if i + 2 == |data| {
      var v := At(data, i) * 0x1_0000 + At(data, i + 1) * 0x100;
      out := out + [CharOf(v / 0x4_0000 % 64), CharOf(v / 0x1000 % 64), CharOf(v / 64 % 64), '='];
    }
  }

  // ----- decoding -----

  // One group of four; padding only in the last one, and only with zero padding bits.
  function DecodeGroup(s: Bytes, last: bool): Option<Bytes>
    requires |s| == 4
  {
    var a, b := Value(s[0]), Value(s[1]);
    if a < 0 || b < 0 then None
    else
      var pad2, pad3 := s[2] == '=', s[3] == '=';
      if (pad2 || pad3) && !last then None
      else if pad2 && !pad3 then None
      else
        var c := if pad2 then 0 else Value(s[2]);
        var d := if pad3 then 0 else Value(s[3]);
        if c < 0 || d < 0 then None
        else if pad2 && b % 16 != 0 then None
        else if !pad2 && pad3 && c % 4 != 0 then None
        else
          var bits := a * 0x4_0000 + b * 0x1000 + c * 64 + d;
          Some([ByteOf(bits / 0x1_0000 % 256)] +
               (if pad2 then [] else [ByteOf(bits / 256 % 256)]) +
               (if pad3 then [] else [ByteOf(bits % 256)]))
  }

  function Decode(s: Bytes): Option<Bytes> {
    if s == [] then Some([])
    else if |s| < 4 then None
    else match DecodeGroup(s[..4], |s| == 4)
      case None => None
      case Some(x) => match Decode(s[4..])
        case None => None
        case Some(rest) => Some(x + rest)
  }

  lemma {:induction false} DecodeLength(s: Bytes)
    requires |s| % 4 != 0
    ensures Decode(s) == None
  {
    if |s| >= 4 { DecodeLength(s[4..]); }
  }

  function After(out: Bytes, rest: Option<Bytes>): Option<Bytes> {
    if rest.None? then None else Some(out + rest.value)
  }

  lemma {:induction false} DecodeOne(out: Bytes, s: Bytes, i: nat)
    requires i + 4 <= |s|
    ensures var x := DecodeGroup(s[i..i + 4], i + 4 == |s|);
            After(out, Decode(s[i..])) == if x.None? then None else After(out + x.value, Decode(s[i + 4..]))
  {
    hide DecodeGroup;
    assert s[i..][4..] == s[i + 4..] && s[i..][..4] == s[i..i + 4];
    var x, rest := DecodeGroup(s[i..i + 4], i + 4 == |s|), Decode(s[i + 4..]);
    if x.Some? && rest.Some? { Associative(out, x.value, rest.value); }
  }

  method DecodeBytes(encoded: Bytes) returns (ok: bool, out: Bytes)
    ensures if ok then Decode(encoded) == Some(out) else Decode(encoded) == None && out == []
  {
    hide DecodeGroup, Decode;
    DecodeEnds(encoded);
    out := [];
    if encoded == [] { return true, []; }
    if |encoded| % 4 != 0 {
      DecodeLength(encoded);
      return false, [];
    }
    var i := 0;
    assert encoded[0..] == encoded;
    while i < |encoded|
      invariant 0 <= i <= |encoded| && i % 4 == 0
      invariant Decode(encoded) == After(out, Decode(encoded[i..]))
    {
      DecodeOne(out, encoded, i);
      var x := DecodeGroup(encoded[i..i + 4], i + 4 == |encoded|);
      if x.None? { return false, []; }
      out := out + x.value;
      i := i + 4;
    }
    assert encoded[i..] == [] && out + [] == out;
    ok := true;
  }

  lemma {:induction false} DecodeEnds(s: Bytes)
    ensures Decode([]) == Some([]) && After([], Decode(s)) == Decode(s)
  {
    if Decode(s).Some? { assert [] + Decode(s).value == Decode(s).value; }
  }

  // ----- the bijection -----

  lemma {:induction false} NoMultipleBetween(k: int, d: int)
    requires d > 0 && -d < k * d < d
    ensures k == 0
  {
  }

  // Division of a number given by quotient and remainder.
  lemma {:induction false} Quotient(v: int, d: int, q: int, r: int)
    requires d > 0 && v == q * d + r && 0 <= r < d
    ensures v / d == q
  {
    var k := v / d - q;
    assert v == v / d * d + v % d;
    assert k * d == r - v % d;
    NoMultipleBetween(k, d);
  }

  // The four sextets of three bytes, and the three bytes of four sextets.
  lemma {:induction false} Sextets(a: int, b: int, c: int)
    requires 0 <= a < 256 && 0 <= b < 256 && 0 <= c < 256
    ensures var v := a * 0x1_0000 + b * 0x100 + c;
            && v / 0x4_0000 % 64 == a / 4 && v / 0x1000 % 64 == a % 4 * 16 + b / 16
            && v / 64 % 64 == b % 16 * 4 + c / 64 && v % 64 == c % 64
  {
    var v := a * 0x1_0000 + b * 0x100 + c;
    Quotient(v, 0x4_0000, a / 4, a % 4 * 0x1_0000 + b * 0x100 + c);
    Quotient(v, 0x1000, a * 16 + b / 16, b % 16 * 0x100 + c);
    Quotient(v, 64, a * 0x400 + b * 4 + c / 64, c % 64);
    Quotient(a * 16 + b / 16, 64, a / 4, a % 4 * 16 + b / 16);
    Quotient(a * 0x400 + b * 4 + c / 64, 64, a * 16 + b / 16, b % 16 * 4 + c / 64);
  }

  lemma {:induction false} Octets(p: int, q: int, r: int, t: int)
    requires 0 <= p < 64 && 0 <= q < 64 && 0 <= r < 64 && 0 <= t < 64
    ensures var v := p * 0x4_0000 + q * 0x1000 + r * 64 + t;
            && v / 0x1_0000 % 256 == p * 4 + q / 16 && v / 256 % 256 == q % 16 * 16 + r / 4 && v % 256 == r % 4 * 64 + t
  {
    var v := p * 0x4_0000 + q * 0x1000 + r * 64 + t;
    Quotient(v, 0x1_0000, p * 4 + q / 16, q % 16 * 0x1000 + r * 64 + t);
    Quotient(v, 256, p * 0x400 + q * 16 + r / 4, r % 4 * 64 + t);
    Quotient(p * 0x400 + q * 16 + r / 4, 256, p * 4 + q / 16, q % 16 * 16 + r / 4);
  }

  lemma {:induction false} Ungroup(a: int, b: int, c: int)
    requires 0 <= a < 256 && 0 <= b < 256 && 0 <= c < 256
    ensures var p, q, r, t := a / 4, a % 4 * 16 + b / 16, b % 16 * 4 + c / 64, c % 64;
            && 0 <= p < 64 && 0 <= q < 64 && 0 <= r < 64 && 0 <= t < 64
            && p * 4 + q / 16 == a && q % 16 * 16 + r / 4 == b && r % 4 * 64 + t == c
  {
    Quotient(a % 4 * 16 + b / 16, 16, a % 4, b / 16);
    Quotient(b % 16 * 4 + c / 64, 4, b % 16, c / 64);
  }

  // What the characters of given sextets decode to.
  lemma {:induction false} ThreeOfChars(p: int, q: int, r: int, t: int, last: bool)
    requires 0 <= p < 64 && 0 <= q < 64 && 0 <= r < 64 && 0 <= t < 64
    ensures var a, b, c := p * 4 + q / 16, q % 16 * 16 + r / 4, r % 4 * 64 + t;
            && 0 <= a < 256 && 0 <= b < 256 && 0 <= c < 256
            && DecodeGroup([CharOf(p), CharOf(q), CharOf(r), CharOf(t)], last) == Some([ByteOf(a), ByteOf(b), ByteOf(c)])
  {
    hide CharOf, Value;
    Octets(p, q, r, t);
    Regroup(p, q, r, t);
    ValueOfChar(p);
    ValueOfChar(q);
    ValueOfChar(r);
    ValueOfChar(t);
    var a, b, c := ByteOf(p * 4 + q / 16), ByteOf(q % 16 * 16 + r / 4), ByteOf(r % 4 * 64 + t);
    assert [a] + [b] + [c] == [a, b, c];
  }

  lemma {:induction false} TwoOfChars(p: int, q: int, r: int)
    requires 0 <= p < 64 && 0 <= q < 64 && 0 <= r < 64 && r % 4 == 0
    ensures var a, b := p * 4 + q / 16, q % 16 * 16 + r / 4;
            && 0 <= a < 256 && 0 <= b < 256
            && DecodeGroup([CharOf(p), CharOf(q), CharOf(r), '='], true) == Some([ByteOf(a), ByteOf(b)])
  {
    hide CharOf, Value;
    Octets(p, q, r, 0);
    Regroup(p, q, r, 0);
    ValueOfChar(p);
    ValueOfChar(q);
    ValueOfChar(r);
    var a, b := ByteOf(p * 4 + q / 16), ByteOf(q % 16 * 16 + r / 4);
    assert [a] + [b] + [] == [a, b];
  }

  lemma {:induction false} OneOfChars(p: int, q: int)
    requires 0 <= p < 64 && 0 <= q < 64 && q % 16 == 0
    ensures var a := p * 4 + q / 16;
            0 <= a < 256 && DecodeGroup([CharOf(p), CharOf(q), '=', '='], true) == Some([ByteOf(a)])
  {
    hide CharOf, Value;
    Octets(p, q, 0, 0);
    Regroup(p, q, 0, 0);
    ValueOfChar(p);
    ValueOfChar(q);
    var a := ByteOf(p * 4 + q / 16);
    assert [a] + [] + [] == [a];
  }

  lemma {:induction false} GroupRoundTrip(a: int, b: int, c: int, last: bool)
    requires 0 <= a < 256 && 0 <= b < 256 && 0 <= c < 256
    ensures DecodeGroup(EncodeGroup(a * 0x1_0000 + b * 0x100 + c), last) == Some([ByteOf(a), ByteOf(b), ByteOf(c)])
  {
    hide CharOf, DecodeGroup;
    Ungroup(a, b, c);
    Sextets(a, b, c);
    ThreeOfChars(a / 4, a % 4 * 16 + b / 16, b % 16 * 4 + c / 64, c % 64, last);
  }

  lemma {:induction false} TailOfOne(a: int)
    requires 0 <= a < 256
    ensures DecodeGroup(EncodeTail([ByteOf(a)]), true) == Some([ByteOf(a)])
  {
    hide CharOf, DecodeGroup;
    Ungroup(a, 0, 0);
    Sextets(a, 0, 0);
    OneOfChars(a / 4, a % 4 * 16);
  }

  lemma {:induction false} TailOfTwo(a: int, b: int)
    requires 0 <= a < 256 && 0 <= b < 256
    ensures DecodeGroup(EncodeTail([ByteOf(a), ByteOf(b)]), true) == Some([ByteOf(a), ByteOf(b)])
  {
    hide CharOf, DecodeGroup;
    Ungroup(a, b, 0);
    Sextets(a, b, 0);
    TwoOfChars(a / 4, a % 4 * 16 + b / 16, b % 16 * 4);
  }

  lemma {:induction false} TailRoundTrip(data: Bytes)
    requires 1 <= |data| <= 2
    ensures DecodeGroup(EncodeTail(data), true) == Some(data)
  {
    hide DecodeGroup, EncodeTail;
    if |data| == 1 {
      TailOfOne(At(data, 0));
      assert data == [ByteOf(At(data, 0))];
    } else {
      TailOfTwo(At(data, 0), At(data, 1));
      assert data == [ByteOf(At(data, 0)), ByteOf(At(data, 1))];
    }
  }

  lemma {:induction false} DecodeEncode(data: Bytes)
    ensures Decode(Encode(data)) == Some(data)
  {
    hide DecodeGroup, EncodeGroup;
    if data == [] {
    } else if |data| < 3 {
      TailRoundTrip(data);
      assert EncodeTail(data)[..4] == EncodeTail(data) && EncodeTail(data)[4..] == [] && data + [] == data;
    } else {
      DecodeEncode(data[3..]);
      var group := EncodeGroup(At(data, 0) * 0x1_0000 + At(data, 1) * 0x100 + At(data, 2));
      GroupRoundTrip(At(data, 0), At(data, 1), At(data, 2), |data| == 3);
      assert Encode(data)[..4] == group && Encode(data)[4..] == Encode(data[3..]);
      assert data == [data[0], data[1], data[2]] + data[3..];
    }
  }

  // The value of a character, and 0 for padding.
  function Part(c: Byte): (n: int)
    ensures -1 <= n < 64
  {
    if c == '=' then 0 else Value(c)
  }

  predicate Proper(s: Bytes, last: bool)
    requires |s| == 4
  {
    && s[0] != '=' && s[1] != '=' && (forall i :: 0 <= i < 4 ==> Part(s[i]) >= 0)
    && (s[3] == '=' ==> last)
    && (s[2] == '=' ==> s[3] == '=' && Part(s[1]) % 16 == 0)
    && (s[2] != '=' && s[3] == '=' ==> Part(s[2]) % 4 == 0)
  }

  // What is accepted, and the bytes it gives.
  lemma {:induction false} GroupBytes(s: Bytes, last: bool)
    requires |s| == 4 && DecodeGroup(s, last).Some?
    ensures Proper(s, last)
    ensures var p, q, r, t := Part(s[0]), Part(s[1]), Part(s[2]), Part(s[3]);
            var a, b, c := p * 4 + q / 16, q % 16 * 16 + r / 4, r % 4 * 64 + t;
            && 0 <= a < 256 && 0 <= b < 256 && 0 <= c < 256
            && DecodeGroup(s, last).value ==
               if s[2] == '=' then [ByteOf(a)] else if s[3] == '=' then [ByteOf(a), ByteOf(b)] else [ByteOf(a), ByteOf(b), ByteOf(c)]
  {
    NoPadValue();
    hide Value;
    var p, q, r, t := Part(s[0]), Part(s[1]), Part(s[2]), Part(s[3]);
    Octets(p, q, r, t);
    Regroup(p, q, r, t);
  }

  lemma NoPadValue()
    ensures Value('=') == -1
  {
  }

  lemma {:induction false} CharOfPart(c: Byte)
    requires c != '=' && Part(c) >= 0
    ensures CharOf(Part(c)) == c
  {
    CharOfValue(c);
  }

  // A decoded group encodes to the group again, so each accepted text is the encoding of its bytes.
  lemma {:induction false} GroupIsEncoding(s: Bytes, last: bool)
    requires |s| == 4 && DecodeGroup(s, last).Some?
    ensures var x := DecodeGroup(s, last).value;
            && 1 <= |x| <= 3 && (!last ==> |x| == 3)
            && s == if |x| == 3 then EncodeGroup(At(x, 0) * 0x1_0000 + At(x, 1) * 0x100 + At(x, 2)) else EncodeTail(x)
  {
    hide DecodeGroup, EncodeGroup, EncodeTail, Part;
    GroupBytes(s, last);
    if s[2] == '=' {
      OneIsEncoding(s);
    } else if s[3] == '=' {
      TwoIsEncoding(s);
    } else {
      ThreeIsEncoding(s);
    }
  }

  lemma {:induction false} OneIsEncoding(s: Bytes)
    requires |s| == 4 && Proper(s, true) && s[2] == '='
    ensures var a := Part(s[0]) * 4 + Part(s[1]) / 16;
            0 <= a < 256 && EncodeTail([ByteOf(a)]) == s
  {
    hide CharOf, Part;
    var p, q := Part(s[0]), Part(s[1]);
    Regroup(p, q, 0, 0);
    Sextets(p * 4 + q / 16, 0, 0);
    CharOfPart(s[0]);
    CharOfPart(s[1]);
    assert s == [CharOf(p), CharOf(q), '=', '='];
  }

  lemma {:induction false} TwoIsEncoding(s: Bytes)
    requires |s| == 4 && Proper(s, true) && s[2] != '=' && s[3] == '='
    ensures var a, b := Part(s[0]) * 4 + Part(s[1]) / 16, Part(s[1]) % 16 * 16 + Part(s[2]) / 4;
            0 <= a < 256 && 0 <= b < 256 && EncodeTail([ByteOf(a), ByteOf(b)]) == s
  {
    hide CharOf, Part;
    var p, q, r := Part(s[0]), Part(s[1]), Part(s[2]);
    Regroup(p, q, r, 0);
    Sextets(p * 4 + q / 16, q % 16 * 16 + r / 4, 0);
    CharOfPart(s[0]);
    CharOfPart(s[1]);
    CharOfPart(s[2]);
    assert s == [CharOf(p), CharOf(q), CharOf(r), '='];
  }

  lemma {:induction false} ThreeIsEncoding(s: Bytes)
    requires |s| == 4 && Proper(s, false)
    ensures var p, q, r, t := Part(s[0]), Part(s[1]), Part(s[2]), Part(s[3]);
            var a, b, c := p * 4 + q / 16, q % 16 * 16 + r / 4, r % 4 * 64 + t;
            0 <= a < 256 && 0 <= b < 256 && 0 <= c < 256 && EncodeGroup(a * 0x1_0000 + b * 0x100 + c) == s
  {
    hide CharOf, Part;
    var p, q, r, t := Part(s[0]), Part(s[1]), Part(s[2]), Part(s[3]);
    Regroup(p, q, r, t);
    Sextets(p * 4 + q / 16, q % 16 * 16 + r / 4, r % 4 * 64 + t);
    CharOfPart(s[0]);
    CharOfPart(s[1]);
    CharOfPart(s[2]);
    CharOfPart(s[3]);
    assert s == [CharOf(p), CharOf(q), CharOf(r), CharOf(t)];
  }

  lemma {:induction false} Regroup(p: int, q: int, r: int, t: int)
    requires 0 <= p < 64 && 0 <= q < 64 && 0 <= r < 64 && 0 <= t < 64
    ensures var a, b, c := p * 4 + q / 16, q % 16 * 16 + r / 4, r % 4 * 64 + t;
            && a / 4 == p && a % 4 * 16 + b / 16 == q && b % 16 * 4 + c / 64 == r && c % 64 == t
            && 0 <= a < 256 && 0 <= b < 256 && 0 <= c < 256
  {
    Quotient(p * 4 + q / 16, 4, p, q / 16);
    Quotient(q % 16 * 16 + r / 4, 16, q % 16, r / 4);
    Quotient(r % 4 * 64 + t, 64, r % 4, t);
  }

  lemma {:induction false} DecodeStep(s: Bytes)
    requires s != [] && Decode(s).Some?
    ensures |s| >= 4 && DecodeGroup(s[..4], |s| == 4).Some? && Decode(s[4..]).Some?
    ensures Decode(s).value == DecodeGroup(s[..4], |s| == 4).value + Decode(s[4..]).value
  {
    hide DecodeGroup;
  }

  lemma {:induction false} EncodeStep(x: Bytes, rest: Bytes)
    requires |x| == 3 || (1 <= |x| <= 2 && rest == [])
    ensures Encode(x + rest) == (if |x| == 3 then EncodeGroup(At(x, 0) * 0x1_0000 + At(x, 1) * 0x100 + At(x, 2)) else EncodeTail(x)) + Encode(rest)
  {
    hide EncodeGroup, EncodeTail;
    if |x| == 3 {
      assert (x + rest)[3..] == rest;
    } else {
      assert x + rest == x && EncodeTail(x) + Encode([]) == EncodeTail(x);
    }
  }

  lemma {:induction false} EncodeDecode(s: Bytes)
    requires Decode(s).Some?
    ensures Encode(Decode(s).value) == s
  {
    hide Decode, DecodeGroup, Encode, EncodeGroup, EncodeTail;
    DecodeEnds(s);
    if s == [] {
      NoneEncoded();
    } else {
      DecodeStep(s);
      EncodeDecode(s[4..]);
      GroupIsEncoding(s[..4], |s| == 4);
      if |s| == 4 { assert s[4..] == []; }
      EncodeStep(DecodeGroup(s[..4], |s| == 4).value, Decode(s[4..]).value);
      assert s == s[..4] + s[4..];
    }
  }

  lemma NoneEncoded()
    ensures Encode([]) == []
  {
  }

  // Every byte string has exactly one accepted text, and every accepted text one byte string.
  lemma {:induction false} Bijection(data: Bytes, s: Bytes)
    ensures Decode(s) == Some(data) <==> s == Encode(data)
  {
    DecodeEncode(data);
    if Decode(s).Some? { EncodeDecode(s); }
  }

  // The length of an encoding, and that it is made of visible characters only.
  predicate Visible(s: Bytes) {
    forall i :: 0 <= i < |s| ==> s[i] as int > 32
  }

  lemma {:induction false} PiecesVisible(v: int, data: Bytes)
    ensures 0 <= v < 0x100_0000 ==> Visible(EncodeGroup(v))
    ensures 1 <= |data| <= 2 ==> Visible(EncodeTail(data))
  {
    forall n: Sextet ensures CharOf(n) as int > 32 { ValueOfChar(n); }
  }

  lemma {:induction false} EncodeShape(data: Bytes)
    ensures |Encode(data)| == (|data| + 2) / 3 * 4
    ensures Visible(Encode(data))
  {
    hide EncodeGroup, EncodeTail;
    if data == [] {
    } else if |data| < 3 {
      PiecesVisible(0, data);
    } else {
      var v := At(data, 0) * 0x1_0000 + At(data, 1) * 0x100 + At(data, 2);
      PiecesVisible(v, data);
      EncodeShape(data[3..]);
    }
  }

  // ----- which characters, for which bits -----

  // The alphabet of section 4 of RFC 4648: four runs of consecutive characters.
  lemma {:induction false} AlphabetIs(n: Sextet)
    ensures CharOf(0) == 'A' && CharOf(25) == 'Z' && CharOf(26) == 'a' && CharOf(51) == 'z'
    ensures CharOf(52) == '0' && CharOf(61) == '9' && CharOf(62) == '+' && CharOf(63) == '/'
    ensures n !in {25, 51, 61, 62, 63} ==> CharOf(n + 1) as int == CharOf(n) as int + 1
  {
  }

  // Four characters stand for three bytes, 24 bits in all, the highest first.
  lemma {:induction false} GroupIs(data: Bytes, g: nat) returns (p: Sextet, q: Sextet, r: Sextet, t: Sextet)
    requires 3 * g + 3 <= |data|
    ensures 4 * g + 4 <= |Encode(data)| && Encode(data)[4 * g..4 * g + 4] == [CharOf(p), CharOf(q), CharOf(r), CharOf(t)]
    ensures p * 0x4_0000 + q * 0x1000 + r * 0x40 + t == data[3 * g] as int * 0x1_0000 + data[3 * g + 1] as int * 0x100 + data[3 * g + 2] as int
    decreases g
  {
    hide CharOf;
    if g == 0 {
      var v := At(data, 0) * 0x1_0000 + At(data, 1) * 0x100 + At(data, 2);
      p, q, r, t := v / 0x4_0000, v / 0x1000 % 64, v / 64 % 64, v % 64;
      FourSextets(v);
      assert Encode(data)[..4] == EncodeGroup(v);
    } else {
      p, q, r, t := GroupIs(data[3..], g - 1);
      var rest := Encode(data[3..]);
      assert Encode(data)[4..] == rest;
      assert Encode(data)[4 * g..4 * g + 4] == rest[4 * g - 4..4 * g];
    }
  }

  lemma {:induction false} FourSextets(v: int)
    requires 0 <= v < 0x100_0000
    ensures v / 0x4_0000 < 64 && v / 0x4_0000 % 64 == v / 0x4_0000
    ensures v / 0x4_0000 * 0x4_0000 + v / 0x1000 % 64 * 0x1000 + v / 64 % 64 * 64 + v % 64 == v
  {
    assert v / 64 == v / 0x1000 * 64 + v / 64 % 64;
    assert v / 0x1000 == v / 0x4_0000 * 64 + v / 0x1000 % 64;
  }

  // One byte left over takes two characters, two take three; the bits behind them are zero.
  lemma {:induction false} TailIs(data: Bytes)
    requires 1 <= |data| <= 2
    ensures Encode(data) ==
            if |data| == 1 then [CharOf(data[0] as int / 4), CharOf(data[0] as int % 4 * 16), '=', '=']
            else [CharOf(data[0] as int / 4), CharOf(data[0] as int % 4 * 16 + data[1] as int / 16), CharOf(data[1] as int % 16 * 4), '=']
  {
    hide CharOf;
    var a := data[0] as int;
    var b := if |data| == 2 then data[1] as int else 0;
    TailSextets(a, b);
  }

  lemma {:induction false} TailSextets(a: int, b: int)
    requires 0 <= a < 256 && 0 <= b < 256
    ensures var v := a * 0x1_0000 + b * 0x100;
            && v / 0x4_0000 % 64 == a / 4 && v / 0x1000 % 64 == a % 4 * 16 + b / 16 && v / 64 % 64 == b % 16 * 4
  {
    Sextets(a, b, 0);
  }

  // Test vectors of section 10 of RFC 4648.
  lemma KnownAnswers()
    ensures Encode("foob") == "Zm9vYg==" && Encode("fooba") == "Zm9vYmE=" && Encode("foobar") == "Zm9vYmFy"
  {
    hide EncodeTail, Encode, EncodeGroup;
    KnownGroups();
    EncodeStep("foo", "b");
    EncodeStep("foo", "ba");
    EncodeStep("foo", "bar");
    EncodeStep("bar", "");
    NoneEncoded();
    assert "foo" + "b" == "foob" && "foo" + "ba" == "fooba" && "foo" + "bar" == "foobar" && "bar" + "" == "bar";
  }

  lemma KnownGroups()
    ensures EncodeGroup(0x66_6F6F) == "Zm9v" && EncodeGroup(0x62_6172) == "YmFy"
    ensures Encode("b") == "Yg==" && Encode("ba") == "YmE="
  {
    hide EncodeTail, Encode;
    TailIs("b");
    TailIs("ba");
  }
}
