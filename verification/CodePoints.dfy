// Unicode code points and their UTF-8 bytes, by the values of the bytes (section 3 of RFC 3629).
module CodePoints {
  import opened Text

  const CODE_POINTS := 0x11_0000

  // A byte that continues a character gives six bits.
  predicate IsSix(c: Byte) {
    0x80 <= c as int < 0xC0
  }

  function Six(c: Byte): int {
    c as int - 0x80
  }

  // These bytes are the shortest encoding of the code point.
  predicate IsUtf8(b: Bytes, cp: int) {
    if |b| == 1 then 0 <= b[0] as int == cp < 0x80
    else if |b| == 2 then
      0xC0 <= b[0] as int < 0xE0 && IsSix(b[1]) && (b[0] as int - 0xC0) * 0x40 + Six(b[1]) == cp && 0x80 <= cp
    else if |b| == 3 then
      && 0xE0 <= b[0] as int < 0xF0 && IsSix(b[1]) && IsSix(b[2])
      && (b[0] as int - 0xE0) * 0x1000 + Six(b[1]) * 0x40 + Six(b[2]) == cp && 0x800 <= cp
    else if |b| == 4 then
      && 0xF0 <= b[0] as int < 0xF8 && IsSix(b[1]) && IsSix(b[2]) && IsSix(b[3])
      && (b[0] as int - 0xF0) * 0x4_0000 + Six(b[1]) * 0x1000 + Six(b[2]) * 0x40 + Six(b[3]) == cp
      && 0x1_0000 <= cp < CODE_POINTS
    else false
  }

  // A code point has one encoding, and an encoding has one code point.
  lemma {:induction false} Utf8IsUnique(a: Bytes, b: Bytes, x: int, y: int)
    requires IsUtf8(a, x) && IsUtf8(b, y)
    ensures a == b <==> x == y
  {
    if x == y {
      SameLength(a, b, x);
      if |a| == 2 {
        Digits2(a, b, x);
      } else if |a| == 3 {
        Digits3(a, b, x);
      } else if |a| == 4 {
        Digits4(a, b, x);
      }
    }
  }

  lemma {:induction false} SameLength(a: Bytes, b: Bytes, x: int)
    requires IsUtf8(a, x) && IsUtf8(b, x)
    ensures |a| == |b|
    ensures |a| == if x < 0x80 then 1 else if x < 0x800 then 2 else if x < 0x1_0000 then 3 else 4
  {
  }

  lemma {:induction false} Digits2(a: Bytes, b: Bytes, x: int)
    requires IsUtf8(a, x) && IsUtf8(b, x) && |a| == |b| == 2
    ensures a == b
  {
  }

  // A number in base 64 has one last digit.
  lemma {:induction false} LastSix(q: int, r: int, p: int, s: int)
    requires 0 <= r < 0x40 && 0 <= s < 0x40 && q * 0x40 + r == p * 0x40 + s
    ensures q == p && r == s
  {
  }

  lemma {:induction false} Digits3(a: Bytes, b: Bytes, x: int)
    requires IsUtf8(a, x) && IsUtf8(b, x) && |a| == |b| == 3
    ensures a == b
  {
    var q, p := (a[0] as int - 0xE0) * 0x40 + Six(a[1]), (b[0] as int - 0xE0) * 0x40 + Six(b[1]);
    LastSix(q, Six(a[2]), p, Six(b[2]));
    LastSix(a[0] as int - 0xE0, Six(a[1]), b[0] as int - 0xE0, Six(b[1]));
  }

  lemma {:induction false} Digits4(a: Bytes, b: Bytes, x: int)
    requires IsUtf8(a, x) && IsUtf8(b, x) && |a| == |b| == 4
    ensures a == b
  {
    var q, p := (a[0] as int - 0xF0) * 0x40 + Six(a[1]), (b[0] as int - 0xF0) * 0x40 + Six(b[1]);
    LastSix(q * 0x40 + Six(a[2]), Six(a[3]), p * 0x40 + Six(b[2]), Six(b[3]));
    LastSix(q, Six(a[2]), p, Six(b[2]));
    LastSix(a[0] as int - 0xF0, Six(a[1]), b[0] as int - 0xF0, Six(b[1]));
  }

  // The same encoding by shifts and masks, as programs write it.
  function Utf8(cp: nat): Bytes
    requires cp < CODE_POINTS
  {
    if cp <= 0x7F then [ByteOf(cp)]
    else if cp <= 0x7FF then [ByteOf(0xC0 + cp / 64), ByteOf(0x80 + cp % 64)]
    else if cp <= 0xFFFF then [ByteOf(0xE0 + cp / 4096), ByteOf(0x80 + cp / 64 % 64), ByteOf(0x80 + cp % 64)]
    else [ByteOf(0xF0 + cp / 0x4_0000), ByteOf(0x80 + cp / 4096 % 64), ByteOf(0x80 + cp / 64 % 64), ByteOf(0x80 + cp % 64)]
  }

  lemma {:induction false} Utf8Encodes(cp: nat)
    requires cp < CODE_POINTS
    ensures IsUtf8(Utf8(cp), cp)
  {
    hide IsUtf8;
    if cp <= 0x7FF {
      Encodes2(cp);
    } else if cp <= 0xFFFF {
      Encodes3(cp);
    } else {
      Encodes4(cp);
    }
  }

  lemma {:induction false} Encodes2(cp: nat)
    requires cp <= 0x7FF
    ensures IsUtf8(Utf8(cp), cp)
  {
  }

  lemma {:induction false} Encodes3(cp: nat)
    requires 0x7FF < cp <= 0xFFFF
    ensures IsUtf8(Utf8(cp), cp)
  {
    Sixes(cp);
  }

  lemma {:induction false} Encodes4(cp: nat)
    requires 0xFFFF < cp < CODE_POINTS
    ensures IsUtf8(Utf8(cp), cp)
  {
    Sixes(cp);
    assert cp / 0x4_0000 < 8;
  }

  lemma {:induction false} Sixes(cp: nat)
    ensures cp == cp / 4096 * 4096 + cp / 64 % 64 * 64 + cp % 64
    ensures cp / 4096 == cp / 0x4_0000 * 64 + cp / 4096 % 64
  {
  }
}
