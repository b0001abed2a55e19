// Byte strings and the helpers of core/src/text.cpp that the other modules rely on.
// A std::string is a sequence of bytes; a byte is a character whose code is below 256.
module Text {
  type Byte = c: char | c as int < 256 witness '\0'
  type Bytes = seq<Byte>

  datatype Option<T> = None | Some(value: T)

  function ByteOf(n: int): Byte
    requires 0 <= n < 256
  {
    n as char
  }

  predicate IsDigit(c: Byte) {
    '0' <= c <= '9'
  }

  // isspace in the "C" locale: space and the control characters \t \n \v \f \r
  predicate IsSpace(c: Byte) {
    c == ' ' || '\t' <= c <= '\r'
  }

  lemma {:induction false} SpacesAre(c: Byte)
    ensures IsSpace(c) <==> c as int in {0x09, 0x0A, 0x0B, 0x0C, 0x0D, 0x20}
  {
  }

  predicate AllDigits(s: Bytes) {
    forall i :: 0 <= i < |s| ==> IsDigit(s[i])
  }

  // What c_str() shows of a string: everything up to the first NUL.
  function CString(s: Bytes): Bytes {
    if s == [] || s[0] == '\0' then [] else [s[0]] + CString(s[1..])
  }

  lemma {:induction false} CStringIs(s: Bytes)
    ensures CString(s) <= s && '\0' !in CString(s)
    ensures |CString(s)| < |s| ==> s[|CString(s)|] == '\0'
  {
    if s != [] && s[0] != '\0' {
      CStringIs(s[1..]);
      assert s == [s[0]] + s[1..];
    }
  }

  // ----- std::to_string of a non-negative number, and reading it back -----

  function DigitChar(d: int): Byte
    requires 0 <= d < 10
  {
    (d + 48) as char
  }

  function Decimal(n: nat): Bytes {
    if n < 10 then [DigitChar(n)] else Decimal(n / 10) + [DigitChar(n % 10)]
  }

  function Number(digits: Bytes): nat
    requires AllDigits(digits)
  {
    if digits == [] then 0
    else Number(digits[..|digits| - 1]) * 10 + (digits[|digits| - 1] as int - 48)
  }

  lemma {:induction false} DecimalIsNumber(n: nat)
    ensures AllDigits(Decimal(n)) && Decimal(n) != []
    ensures Number(Decimal(n)) == n
  {
    if n >= 10 {
      DecimalIsNumber(n / 10);
      var d := Decimal(n);
      assert d[..|d| - 1] == Decimal(n / 10);
    } else {
      assert Decimal(n)[..0] == [];
    }
  }

  function PowerOfTen(k: nat): nat {
    if k == 0 then 1 else 10 * PowerOfTen(k - 1)
  }

  // The first digit counts most: as many tens as digits follow it.
  lemma {:induction false} FirstDigitCounts(c: Byte, rest: Bytes)
    requires IsDigit(c) && AllDigits(rest)
    ensures Number([c] + rest) == (c as int - 0x30) * PowerOfTen(|rest|) + Number(rest)
  {
    var all := [c] + rest;
    if rest == [] {
      assert all[..0] == [] && all[0] == c;
    } else {
      var n := |rest| - 1;
      FirstDigitCounts(c, rest[..n]);
      assert all[..|all| - 1] == [c] + rest[..n] && all[|all| - 1] == rest[n];
      TenTimes(c as int - 0x30, PowerOfTen(n), Number(rest[..n]));
    }
  }

  lemma {:induction false} TenTimes(d: int, p: int, n: int)
    ensures (d * p + n) * 10 == d * (10 * p) + n * 10
  {
  }

  // No leading zero, but for zero itself.
  lemma {:induction false} DecimalHasNoLeadingZero(n: nat)
    ensures Decimal(n)[0] == '0' <==> n == 0
  {
    if n >= 10 { DecimalHasNoLeadingZero(n / 10); }
  }

  lemma {:induction false} DecimalIsInjective(m: nat, n: nat)
    requires Decimal(m) == Decimal(n)
    ensures m == n
  {
    DecimalIsNumber(m);
    DecimalIsNumber(n);
  }

  // A number below ten to the k has at most k digits.
  lemma {:induction false} DecimalLength(n: nat, k: nat)
    requires 1 <= k <= 10
    requires n < [10, 100, 1_000, 10_000, 100_000, 1_000_000, 10_000_000, 100_000_000, 1_000_000_000, 10_000_000_000][k - 1]
    ensures 1 <= |Decimal(n)| <= k
  {
    if n >= 10 {
      DecimalLength(n / 10, k - 1);
    }
  }

  // ----- trim -----

  function TrimLeft(s: Bytes): Bytes {
    if s != [] && IsSpace(s[0]) then TrimLeft(s[1..]) else s
  }

  function TrimRight(s: Bytes): Bytes {
    if s != [] && IsSpace(s[|s| - 1]) then TrimRight(s[..|s| - 1]) else s
  }

  function Trim(s: Bytes): Bytes {
    TrimRight(TrimLeft(s))
  }

  method SkipSpaces(value: Bytes) returns (start: nat)
    ensures start <= |value| && value[start..] == TrimLeft(value)
  {
    start := 0;
    while start < |value| && IsSpace(value[start])
      invariant start <= |value|
      invariant TrimLeft(value[start..]) == TrimLeft(value)
    {
      assert value[start..][1..] == value[start + 1..];
      start := start + 1;
    }
  }

  method TrimBytes(value: Bytes) returns (r: Bytes)
    ensures r == Trim(value)
  {
    hide TrimRight;
    var start := SkipSpaces(value);
    var end := |value|;
    assert value[start..end] == value[start..];
    while end > start && IsSpace(value[end - 1])
      invariant start <= end <= |value|
      invariant TrimRight(value[start..end]) == TrimRight(value[start..])
    {
      TrimRightStep(value[start..end]);
      assert value[start..end][..end - start - 1] == value[start..end - 1];
      end := end - 1;
    }
    r := value[start..end];
    TrimRightDone(r);
  }

  lemma {:induction false} TrimRightStep(s: Bytes)
    requires s != [] && IsSpace(s[|s| - 1])
    ensures TrimRight(s) == TrimRight(s[..|s| - 1])
  {
  }

  lemma {:induction false} TrimRightDone(s: Bytes)
    requires s == [] || !IsSpace(s[|s| - 1])
    ensures TrimRight(s) == s
  {
  }

  // What trim promises: only whitespace goes, and none is left at either end.
  lemma {:induction false} TrimLeftOnlyDropsSpaces(s: Bytes) returns (k: nat)
    ensures k <= |s| && TrimLeft(s) == s[k..]
    ensures forall i :: 0 <= i < k ==> IsSpace(s[i])
    ensures TrimLeft(s) != [] ==> !IsSpace(TrimLeft(s)[0])
  {
    if s != [] && IsSpace(s[0]) {
      var j := TrimLeftOnlyDropsSpaces(s[1..]);
      k := j + 1;
      forall i | 0 <= i < k ensures IsSpace(s[i]) {
        if i > 0 { assert s[1..][i - 1] == s[i]; }
      }
    } else {
      k := 0;
    }
  }

  lemma {:induction false} TrimRightOnlyDropsSpaces(s: Bytes) returns (k: nat)
    ensures k <= |s| && TrimRight(s) == s[..k]
    ensures forall i :: k <= i < |s| ==> IsSpace(s[i])
    ensures k > 0 ==> !IsSpace(s[k - 1])
  {
    if s != [] && IsSpace(s[|s| - 1]) {
      k := TrimRightOnlyDropsSpaces(s[..|s| - 1]);
      forall i | k <= i < |s| ensures IsSpace(s[i]) {
        if i < |s| - 1 { assert s[..|s| - 1][i] == s[i]; }
      }
    } else {
      k := |s|;
    }
  }

  // ----- utf8_truncate -----

  predicate IsContinuation(c: Byte) {
    128 <= c as int < 192
  }

  // The last place up to `end` at which a character begins.
  function CutPoint(value: Bytes, end: nat): (r: nat)
    requires end < |value|
    ensures r <= end
    ensures r > 0 ==> !IsContinuation(value[r])
    ensures forall k :: r < k <= end ==> IsContinuation(value[k])
  {
    if end > 0 && IsContinuation(value[end]) then CutPoint(value, end - 1) else end
  }

  // A cut at n that splits no character and leaves out no whole one that ends by `end`.
  predicate CutAtBoundary(value: Bytes, end: nat, n: int) {
    && 0 <= n <= end < |value|
    && (n > 0 ==> !IsContinuation(value[n]))
    && forall k :: n < k <= end ==> IsContinuation(value[k])
  }

  function Utf8Truncate(value: Bytes, maxBytes: nat): (r: Bytes)
    ensures |r| <= maxBytes + 3
    ensures |value| <= maxBytes ==> r == value
    ensures |value| > maxBytes ==> CutAtBoundary(value, maxBytes, |r| - 3) && r == value[..|r| - 3] + "..."
  {
    if |value| <= maxBytes then value else value[..CutPoint(value, maxBytes)] + "..."
  }

  method TruncateUtf8(value: Bytes, maxBytes: nat) returns (r: Bytes)
    ensures r == Utf8Truncate(value, maxBytes)
    ensures |value| <= maxBytes ==> r == value
    ensures |value| > maxBytes ==> CutAtBoundary(value, maxBytes, |r| - 3) && r == value[..|r| - 3] + "..."
  {
    if |value| <= maxBytes { return value; }
    var end := maxBytes;
    while end > 0 && IsContinuation(value[end])
      invariant 0 <= end <= maxBytes
      invariant CutPoint(value, end) == CutPoint(value, maxBytes)
    {
      end := end - 1;
    }
    r := value[..end] + "...";
  }

  // ----- sequences -----

  lemma {:induction false} Associative<A>(a: seq<A>, b: seq<A>, c: seq<A>)
    ensures a + b + c == a + (b + c)
  {
  }

  // Concatenation of all the pieces, in order.
  function Join(pieces: seq<Bytes>): Bytes {
    if pieces == [] then [] else pieces[0] + Join(pieces[1..])
  }

  lemma {:induction false} JoinAppends(a: seq<Bytes>, b: seq<Bytes>)
    ensures Join(a + b) == Join(a) + Join(b)
  {
    if a == [] {
      assert a + b == b;
    } else {
      assert (a + b)[1..] == a[1..] + b;
      JoinAppends(a[1..], b);
    }
  }

  lemma {:induction false} JoinOne(a: seq<Bytes>, x: Bytes)
    ensures Join(a + [x]) == Join(a) + x
  {
    JoinAppends(a, [x]);
    assert Join([x]) == x + Join([]);
  }

  function Without<A>(s: seq<A>, i: nat): seq<A>
    requires i < |s|
  {
    s[..i] + s[i + 1..]
  }

  lemma {:induction false} TakeOutOne<A>(s: seq<A>, i: nat)
    requires i < |s|
    ensures multiset(s) == multiset(Without(s, i)) + multiset{s[i]}
  {
    assert s == s[..i] + [s[i]] + s[i + 1..];
  }
}
