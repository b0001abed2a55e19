// The lexical half of the JSON parser of core/src/config.cpp, as functions on the text still to be
// read: each says whether it succeeds, with what value, and how many bytes it uses up.
module JsonText {
  import opened Text
  import opened CodePoints

  datatype Parse<T> = Fail | Done(value: T, used: nat)

  function After<T>(n: nat, r: Parse<T>): Parse<T> {
    match r case Fail => Fail case Done(v, used) => Done(v, n + used)
  }

  predicate Next(s: Bytes, c: Byte) {
    s != [] && s[0] == c
  }

  predicate StartsWith(s: Bytes, word: Bytes) {
    |word| <= |s| && s[..|word|] == word
  }

  // Leading white space.
  function Blanks(s: Bytes): (n: nat)
    ensures n <= |s|
  {
    if s != [] && IsSpace(s[0]) then 1 + Blanks(s[1..]) else 0
  }

  function Take(s: Bytes, c: Byte): (r: Parse<()>)
    ensures r.Done? ==> 0 < r.used <= |s|
  {
    var b := Blanks(s);
    if Next(s[b..], c) then Done((), b + 1) else Fail
  }

  function Literal(s: Bytes, word: Bytes): (r: Parse<()>)
    ensures r.Done? ==> |word| <= r.used <= |s|
  {
    var b := Blanks(s);
    if StartsWith(s[b..], word) then Done((), b + |word|) else Fail
  }

  // ----- brackets and commas -----

  datatype Turn = Bad | Close(used: nat) | More(used: nat)

  // An opening bracket; the list behind it is empty, or its first item comes next.
  function Open(s: Bytes, open: Byte, close: Byte): (r: Turn)
    ensures !r.Bad? ==> 0 < r.used <= |s|
  {
    var t := Take(s, open);
    if t.Fail? then Bad
    else
      var b := t.used + Blanks(s[t.used..]);
      if Next(s[b..], close) then Close(b + 1) else More(b)
  }

  // Behind an item: the list ends, or a comma leads to the next item.
  function Turns(s: Bytes, close: Byte): (r: Turn)
    ensures !r.Bad? ==> 0 < r.used <= |s|
  {
    var b := Blanks(s);
    if Next(s[b..], close) then Close(b + 1)
    else if Next(s[b..], ',') then More(b + 1) else Bad
  }

  // ----- strings -----

  function Hex(c: Byte): (d: int)
    ensures -1 <= d < 16
  {
    if '0' <= c <= '9' then c as int - 48
    else if 'a' <= c <= 'f' then c as int - 87
    else if 'A' <= c <= 'F' then c as int - 55 else -1
  }

  function UnicodeUnit(s: Bytes): (r: Parse<nat>)
    ensures r.Done? ==> r.used == 4 <= |s| && r.value < 0x1_0000
  {
    if |s| < 4 || Hex(s[0]) < 0 || Hex(s[1]) < 0 || Hex(s[2]) < 0 || Hex(s[3]) < 0 then Fail
    else Done(((Hex(s[0]) * 16 + Hex(s[1])) * 16 + Hex(s[2])) * 16 + Hex(s[3]), 4)
  }

  // Behind \u: one unit, or the two units of a surrogate pair.
  function Unicode(s: Bytes): (r: Parse<Bytes>)
    ensures r.Done? ==> r.used <= |s|
  {
    var high := UnicodeUnit(s);
    if high.Fail? then Fail
    else if 0xD800 <= high.value <= 0xDBFF then
      if !StartsWith(s[4..], "\\u") then Fail
      else
        var low := UnicodeUnit(s[6..]);
        if low.Fail? || !(0xDC00 <= low.value <= 0xDFFF) then Fail
        else Done(Utf8(0x1_0000 + (high.value - 0xD800) * 0x400 + (low.value - 0xDC00)), 10)
    else if 0xDC00 <= high.value <= 0xDFFF then Fail
    else Done(Utf8(high.value), 4)
  }

  // Behind a backslash.
  function Escape(s: Bytes): (r: Parse<Bytes>)
    ensures r.Done? ==> 0 < r.used <= |s|
  {
    if s == [] then Fail
    else match s[0]
      case '\"' => Done("\"", 1)
      case '\\' => Done("\\", 1)
      case '/' => Done("/", 1)
      case 'b' => Done([ByteOf(8)], 1)
      case 'f' => Done([ByteOf(12)], 1)
      case 'n' => Done("\n", 1)
      case 'r' => Done("\r", 1)
      case 't' => Done("\t", 1)
      case 'u' => After(1, Unicode(s[1..]))
      case _ => Fail
  }

  function Prefixed(bytes: Bytes, n: nat, r: Parse<Bytes>): Parse<Bytes> {
    match r case Fail => Fail case Done(v, used) => Done(bytes + v, n + used)
  }

  // Behind the opening quote, up to and with the closing one.
  function Body(s: Bytes): (r: Parse<Bytes>)
    ensures r.Done? ==> 0 < r.used <= |s|
  {
    if s == [] then Fail
    else if s[0] == '\"' then Done("", 1)
    else if s[0] as int < 0x20 then Fail
    else if s[0] != '\\' then Prefixed([s[0]], 1, Body(s[1..]))
    else
      var e := Escape(s[1..]);
      if e.Fail? then Fail else Prefixed(e.value, 1 + e.used, Body(s[1 + e.used..]))
  }

  // One escape in its loop.
  lemma {:induction false} BodyEscaped(s: Bytes)
    requires s != [] && s[0] == '\\'
    ensures Body(s) ==
            var e := Escape(s[1..]);
            if e.Fail? then Fail else Prefixed(e.value, 1 + e.used, Body(s[1 + e.used..]))
  {
    hide Escape;
  }

  function String(s: Bytes): (r: Parse<Bytes>)
    ensures r.Done? ==> 0 < r.used <= |s|
  {
    var b := Blanks(s);
    if Next(s[b..], '\"') then After(b + 1, Body(s[b + 1..])) else Fail
  }

  // ----- booleans and numbers -----

  function Boolean(s: Bytes): (r: Parse<bool>)
    ensures r.Done? ==> 0 < r.used <= |s|
  {
    var b := Blanks(s);
    if StartsWith(s[b..], "true") then Done(true, b + 4)
    else if StartsWith(s[b..], "false") then Done(false, b + 5) else Fail
  }

  // Leading digits.
  function Digits(s: Bytes): (n: nat)
    ensures n <= |s| && AllDigits(s[..n])
  {
    if s != [] && IsDigit(s[0]) then
      assert s[..1 + Digits(s[1..])] == [s[0]] + s[1..][..Digits(s[1..])];
      1 + Digits(s[1..])
    else 0
  }

  predicate IsFraction(s: Bytes) {
    s != [] && s[0] in ".eE"
  }

  const INT_MAX := 0x7FFF_FFFF
  const UINT32_MAX := 0xFFFF_FFFF

  function Integer(s: Bytes): (r: Parse<int>)
    ensures r.Done? ==> 0 < r.used <= |s| && -INT_MAX - 1 <= r.value <= INT_MAX
  {
    var b := Blanks(s);
    var negative := Next(s[b..], '-');
    var start := if negative then b + 1 else b;
    var n := Digits(s[start..]);
    var value: int := Number(s[start..][..n]);
    if n == 0 || value > INT_MAX + 1 || IsFraction(s[start + n..]) || (!negative && value > INT_MAX) then Fail
    else Done(if negative then -value else value, start + n)
  }

  function Unsigned(s: Bytes): (r: Parse<nat>)
    ensures r.Done? ==> 0 < r.used <= |s| && r.value <= UINT32_MAX
  {
    var b := Blanks(s);
    var n := Digits(s[b..]);
    var value := Number(s[b..][..n]);
    if n == 0 || value > UINT32_MAX || IsFraction(s[b + n..]) then Fail else Done(value, b + n)
  }

  // ----- values that are passed over -----

  // A point or an exponent letter asks for digits behind it.
  function SkipFraction(s: Bytes): (r: Parse<()>)
    ensures r.Done? ==> r.used <= |s|
  {
    if !Next(s, '.') then Done((), 0)
    else
      var n := Digits(s[1..]);
      if n == 0 then Fail else Done((), 1 + n)
  }

  function SkipExponent(s: Bytes): (r: Parse<()>)
    ensures r.Done? ==> r.used <= |s|
  {
    if !Next(s, 'e') && !Next(s, 'E') then Done((), 0)
    else
      var sign := if Next(s[1..], '+') || Next(s[1..], '-') then 2 else 1;
      var n := Digits(s[sign..]);
      if n == 0 then Fail else Done((), sign + n)
  }

  // Where the digits of a number start, behind blanks and a sign.
  function Start(s: Bytes): (n: nat)
    ensures n <= |s|
  {
    var b := Blanks(s);
    if Next(s[b..], '-') then b + 1 else b
  }

  // The digits in front of the point: a zero stands alone.
  function Whole(s: Bytes): (n: nat)
    ensures n <= |s|
  {
    if Next(s, '0') then 1 else Digits(s)
  }

  function SkipNumber(s: Bytes): (r: Parse<()>)
    ensures r.Done? ==> 0 < r.used <= |s|
  {
    var start := Start(s);
    var n := start + Whole(s[start..]);
    if n == start then Fail
    else
      var f := SkipFraction(s[n..]);
      if f.Fail? then Fail
      else After(n + f.used, SkipExponent(s[n + f.used..]))
  }

  const MAX_DEPTH := 32

  function Skip(s: Bytes, depth: nat): (r: Parse<()>)
    ensures r.Done? ==> 0 < r.used <= |s|
    decreases |s|, 0
  {
    var b := Blanks(s);
    var t := s[b..];
    if depth > MAX_DEPTH || t == [] then Fail
    else if t[0] == '\"' then (match String(t) case Fail => Fail case Done(_, used) => Done((), b + used))
    else if t[0] == '{' then
      var o := Open(t, '{', '}');
      (match o case Bad => Fail case Close(used) => Done((), b + used) case More(used) => After(b + used, SkipMembers(t[used..], depth)))
    else if t[0] == '[' then
      var o := Open(t, '[', ']');
      (match o case Bad => Fail case Close(used) => Done((), b + used) case More(used) => After(b + used, SkipItems(t[used..], depth)))
    else if t[0] == 't' then After(b, Literal(t, "true"))
    else if t[0] == 'f' then After(b, Literal(t, "false"))
    else if t[0] == 'n' then After(b, Literal(t, "null"))
    else After(b, SkipNumber(t))
  }

  // A key and its colon.
  function Key(s: Bytes): (r: Parse<Bytes>)
    ensures r.Done? ==> 0 < r.used <= |s|
  {
    var key := String(s);
    if key.Fail? then Fail
    else
      var colon := Take(s[key.used..], ':');
      if colon.Fail? then Fail else Done(key.value, key.used + colon.used)
  }

  function SkipMembers(s: Bytes, depth: nat): (r: Parse<()>)
    ensures r.Done? ==> 0 < r.used <= |s|
    decreases |s|, 1
  {
    var key := Key(s);
    if key.Fail? then Fail
    else
      var value := Skip(s[key.used..], depth + 1);
      if value.Fail? then Fail
      else
        var n := key.used + value.used;
        match Turns(s[n..], '}')
        case Bad => Fail
        case Close(used) => Done((), n + used)
        case More(used) => After(n + used, SkipMembers(s[n + used..], depth))
  }

  // One round of the loop over members.
  lemma {:induction false} SkipMembersRound(s: Bytes, depth: nat)
    ensures SkipMembers(s, depth) ==
            if Key(s).Fail? || Skip(s[Key(s).used..], depth + 1).Fail? then Fail
            else
              var n := Key(s).used + Skip(s[Key(s).used..], depth + 1).used;
              match Turns(s[n..], '}')
              case Bad => Fail
              case Close(used) => Done((), n + used)
              case More(used) => After(n + used, SkipMembers(s[n + used..], depth))
  {
    hide Key, Skip, Turns;
  }

  function SkipItems(s: Bytes, depth: nat): (r: Parse<()>)
    ensures r.Done? ==> 0 < r.used <= |s|
    decreases |s|, 1
  {
    var value := Skip(s, depth + 1);
    if value.Fail? then Fail
    else
      var n := value.used;
      match Turns(s[n..], ']')
      case Bad => Fail
      case Close(used) => Done((), n + used)
      case More(used) => After(n + used, SkipItems(s[n + used..], depth))
  }

  // One round of its loop.
  lemma {:induction false} SkipItemsRound(s: Bytes, depth: nat)
    ensures SkipItems(s, depth) ==
            var value := Skip(s, depth + 1);
            if value.Fail? then Fail
            else
              match Turns(s[value.used..], ']')
              case Bad => Fail
              case Close(used) => Done((), value.used + used)
              case More(used) => After(value.used + used, SkipItems(s[value.used + used..], depth))
  {
    hide Skip, Turns;
  }
}
