// The line and field format of the message snapshot: tab-separated fields, newline-terminated lines,
// and the numbers that strtoull reads (core/src/inbox.cpp:220-255).
module Lines {
  import opened Text

  const ULLONG := 0x1_0000_0000_0000_0000

  predicate Lacks(s: Bytes, c: Byte) {
    forall i :: 0 <= i < |s| ==> s[i] != c
  }

  // ----- fields -----

  function JoinOn(parts: seq<Bytes>, c: Byte): Bytes {
    if parts == [] then []
    else if |parts| == 1 then parts[0]
    else parts[0] + [c] + JoinOn(parts[1..], c)
  }

  function IndexOf(s: Bytes, c: Byte): (k: nat)
    ensures k <= |s| && Lacks(s[..k], c) && (k < |s| ==> s[k] == c)
  {
    if s == [] || s[0] == c then 0 else 1 + IndexOf(s[1..], c)
  }

  function SplitOn(s: Bytes, c: Byte): (parts: seq<Bytes>)
    ensures parts != []
    decreases |s|
  {
    var k := IndexOf(s, c);
    if k == |s| then [s] else [s[..k]] + SplitOn(s[k + 1..], c)
  }

  lemma {:induction false} IndexAfter(a: Bytes, c: Byte, b: Bytes)
    requires Lacks(a, c)
    ensures IndexOf(a + [c] + b, c) == |a|
  {
    if a != [] {
      assert (a + [c] + b)[1..] == a[1..] + [c] + b;
      IndexAfter(a[1..], c, b);
    }
  }

  lemma {:induction false} NotFound(a: Bytes, c: Byte)
    requires Lacks(a, c)
    ensures IndexOf(a, c) == |a|
  {
    if a != [] { NotFound(a[1..], c); }
  }

  lemma {:induction false} SplitJoin(parts: seq<Bytes>, c: Byte)
    requires parts != [] && forall i :: 0 <= i < |parts| ==> Lacks(parts[i], c)
    ensures SplitOn(JoinOn(parts, c), c) == parts
  {
    if |parts| == 1 {
      NotFound(parts[0], c);
    } else {
      var rest := JoinOn(parts[1..], c);
      IndexAfter(parts[0], c, rest);
      SplitJoin(parts[1..], c);
      var s := parts[0] + [c] + rest;
      assert s[..|parts[0]|] == parts[0] && s[|parts[0]| + 1..] == rest;
    }
  }

  lemma {:induction false} JoinOnLast(parts: seq<Bytes>, last: Bytes, c: Byte)
    ensures JoinOn(parts + [last], c) == if parts == [] then last else JoinOn(parts, c) + [c] + last
  {
    if |parts| > 1 {
      assert (parts + [last])[1..] == parts[1..] + [last];
      JoinOnLast(parts[1..], last, c);
      var rest := JoinOn(parts[1..], c);
      Associative(parts[0] + [c], rest, [c] + last);
      Associative(parts[0] + [c] + rest, [c], last);
      Associative(rest, [c], last);
    } else if |parts| == 1 {
      assert (parts + [last])[1..] == [last];
    }
  }

  // The fields of a line are the texts without the byte that give the line when joined by it.
  lemma {:induction false} SplitIsExact(s: Bytes, c: Byte, parts: seq<Bytes>)
    ensures SplitOn(s, c) == parts <==>
            parts != [] && (forall i :: 0 <= i < |parts| ==> Lacks(parts[i], c)) && JoinOn(parts, c) == s
  {
    hide SplitOn, JoinOn, Lacks;
    JoinSplit(s, c);
    if parts != [] && (forall i :: 0 <= i < |parts| ==> Lacks(parts[i], c)) { SplitJoin(parts, c); }
  }

  lemma {:induction false} JoinCons(first: Bytes, rest: seq<Bytes>, c: Byte)
    requires rest != []
    ensures JoinOn([first] + rest, c) == first + [c] + JoinOn(rest, c)
  {
    assert ([first] + rest)[1..] == rest;
  }

  lemma {:induction false} SplitStep(s: Bytes, c: Byte)
    ensures var k := IndexOf(s, c);
            if k == |s| then SplitOn(s, c) == [s] && Lacks(s, c)
            else SplitOn(s, c) == [s[..k]] + SplitOn(s[k + 1..], c) && Lacks(s[..k], c) && s[k] == c
  {
    hide Lacks;
    assert s[..|s|] == s;
  }

  lemma {:induction false} JoinSplit(s: Bytes, c: Byte)
    ensures JoinOn(SplitOn(s, c), c) == s
    ensures forall i :: 0 <= i < |SplitOn(s, c)| ==> Lacks(SplitOn(s, c)[i], c)
    decreases |s|
  {
    hide Lacks, JoinOn, SplitOn, IndexOf;
    SplitStep(s, c);
    var k := IndexOf(s, c);
    if k == |s| {
      JoinOnLast([], s, c);
      assert [] + [s] == [s];
    } else {
      JoinSplit(s[k + 1..], c);
      JoinCons(s[..k], SplitOn(s[k + 1..], c), c);
      SplitCut(s, c, k);
    }
  }

  lemma {:induction false} SplitCut(s: Bytes, c: Byte, k: nat)
    requires k < |s| && s[k] == c
    ensures s == s[..k] + [c] + s[k + 1..]
  {
  }

  method SplitFields(line: Bytes) returns (out: seq<Bytes>)
    ensures out == SplitOn(line, '\t')
  {
    out := [];
    var start := 0;
    assert line[0..] == line && [] + SplitOn(line, '\t') == SplitOn(line, '\t');
    while true
      invariant 0 <= start <= |line|
      invariant out + SplitOn(line[start..], '\t') == SplitOn(line, '\t')
      decreases |line| - start
    {
      var rest := line[start..];
      var tab := IndexOf(rest, '\t');
      if tab == |rest| {
        out := out + [rest];
        return;
      }
      Associative(out, [rest[..tab]], SplitOn(rest[tab + 1..], '\t'));
      assert rest[tab + 1..] == line[start + tab + 1..];
      out := out + [rest[..tab]];
      start := start + tab + 1;
    }
  }

  // ----- lines -----

  function Chomp(line: Bytes): Bytes {
    if line != [] && line[|line| - 1] == '\r' then line[..|line| - 1] else line
  }

  // What getline yields until the end of the data.
  function LinesOf(data: Bytes): seq<Bytes>
    decreases |data|
  {
    if data == [] then []
    else
      var k := IndexOf(data, '\n');
      if k == |data| then [Chomp(data)] else [Chomp(data[..k])] + LinesOf(data[k + 1..])
  }

  function Unlines(lines: seq<Bytes>): Bytes {
    if lines == [] then [] else lines[0] + "\n" + Unlines(lines[1..])
  }

  predicate IsLine(line: Bytes) {
    Lacks(line, '\n') && Chomp(line) == line
  }

  lemma {:induction false} LinesUnlines(lines: seq<Bytes>)
    requires forall i :: 0 <= i < |lines| ==> IsLine(lines[i])
    ensures LinesOf(Unlines(lines)) == lines
  {
    if lines != [] {
      var rest := Unlines(lines[1..]);
      IndexAfter(lines[0], '\n', rest);
      LinesUnlines(lines[1..]);
      var data := lines[0] + "\n" + rest;
      assert data[..|lines[0]|] == lines[0] && data[|lines[0]| + 1..] == rest;
      assert IsLine(lines[0]);
    }
  }

  lemma {:induction false} UnlinesAppends(a: seq<Bytes>, b: seq<Bytes>)
    ensures Unlines(a + b) == Unlines(a) + Unlines(b)
  {
    if a == [] {
      assert a + b == b;
    } else {
      assert (a + b)[1..] == a[1..] + b;
      UnlinesAppends(a[1..], b);
      Associative(a[0] + "\n", Unlines(a[1..]), Unlines(b));
    }
  }

  lemma {:induction false} UnlinesOne(a: seq<Bytes>, line: Bytes)
    ensures Unlines(a + [line]) == Unlines(a) + line + "\n"
  {
    UnlinesAppends(a, [line]);
    assert [line][1..] == [];
    assert Unlines([line]) == line + "\n";
    Associative(Unlines(a), line, "\n");
  }

  // The data is these texts, each with the end of a line behind it, which may be missing behind the last
  // unless that is empty; a line is such a text without a carriage return at its end.
  predicate AreLines(data: Bytes, texts: seq<Bytes>, lines: seq<Bytes>) {
    && |texts| == |lines|
    && (forall i :: 0 <= i < |texts| ==>
          && Lacks(texts[i], '\n')
          && lines[i] == if texts[i] != "" && texts[i][|texts[i]| - 1] == '\r' then texts[i][..|texts[i]| - 1] else texts[i])
    && (Unlines(texts) == data || (texts != [] && texts[|texts| - 1] != "" && Unlines(texts) == data + "\n"))
  }

  lemma {:induction false} LinesAreExact(data: Bytes, lines: seq<Bytes>)
    ensures LinesOf(data) == lines <==> exists texts :: AreLines(data, texts, lines)
  {
    hide LinesOf, AreLines;
    var given := LinesGiven(data);
    if texts :| AreLines(data, texts, lines) { LinesRead(data, texts, lines); }
  }

  lemma {:induction false} UnlinesCons(first: Bytes, rest: seq<Bytes>)
    ensures Unlines([first] + rest) == first + "\n" + Unlines(rest)
  {
    assert ([first] + rest)[1..] == rest;
  }

  lemma UnlinesNone()
    ensures Unlines([]) == ""
  {
  }

  // One more text in front.
  lemma {:induction false} FirstLine(first: Bytes, tail: Bytes, texts: seq<Bytes>, lines: seq<Bytes>)
    requires Lacks(first, '\n') && AreLines(tail, texts, lines)
    ensures AreLines(first + "\n" + tail, [first] + texts, [Chomp(first)] + lines)
  {
    hide Unlines, Lacks;
    UnlinesCons(first, texts);
    Associative(first + "\n", tail, "\n");
    if texts != [] { assert ([first] + texts)[|texts|] == texts[|texts| - 1]; }
  }

  lemma {:induction false} LastLine(data: Bytes)
    requires data != "" && Lacks(data, '\n')
    ensures AreLines(data, [data], [Chomp(data)])
  {
    hide Lacks, Unlines;
    UnlinesCons(data, []);
    assert [data] + [] == [data] && Unlines([]) == "" by { UnlinesNone(); }
  }

  lemma {:induction false} LinesGiven(data: Bytes) returns (texts: seq<Bytes>)
    ensures AreLines(data, texts, LinesOf(data))
    decreases |data|
  {
    hide AreLines, Chomp, Lacks, Unlines;
    if data == [] {
      texts := [];
      NoLines();
    } else {
      var k := IndexOf(data, '\n');
      if k == |data| {
        texts := [data];
        assert data[..k] == data;
        LastLine(data);
      } else {
        var rest := LinesGiven(data[k + 1..]);
        texts := [data[..k]] + rest;
        SplitCut(data, '\n', k);
        FirstLine(data[..k], data[k + 1..], rest, LinesOf(data[k + 1..]));
      }
    }
  }

  lemma NoLines()
    ensures AreLines("", [], []) && LinesOf("") == []
  {
  }

  lemma {:induction false} LinesRead(data: Bytes, texts: seq<Bytes>, lines: seq<Bytes>)
    requires AreLines(data, texts, lines)
    ensures LinesOf(data) == lines
    decreases |texts|
  {
    hide AreLines, LinesOf, Lacks, Unlines;
    if texts == [] {
      NoneLeft(data, lines);
      NoLines();
    } else if data == texts[0] {
      OnlyLine(data, texts, lines);
    } else {
      var tail := OtherLines(data, texts, lines);
      LinesRead(tail, texts[1..], lines[1..]);
      LinesCons(texts[0], tail);
    }
  }

  lemma {:induction false} NoneLeft(data: Bytes, lines: seq<Bytes>)
    requires AreLines(data, [], lines)
    ensures data == "" && lines == []
  {
  }

  lemma {:induction false} LinesCons(first: Bytes, tail: Bytes)
    requires Lacks(first, '\n')
    ensures LinesOf(first + "\n" + tail) == [Chomp(first)] + LinesOf(tail)
  {
    hide Chomp;
    var data := first + "\n" + tail;
    IndexAfter(first, '\n', tail);
    assert data[..|first|] == first && data[|first| + 1..] == tail;
  }

  // The data is the first text with no end: there is no other.
  lemma {:induction false} OnlyLine(data: Bytes, texts: seq<Bytes>, lines: seq<Bytes>)
    requires texts != [] && AreLines(data, texts, lines) && data == texts[0]
    ensures LinesOf(data) == lines
  {
    var rest := Unlines(texts[1..]);
    assert |Unlines(texts)| == |data| + 1 + |rest|;
    if |texts| > 1 { UnlinesLong(texts[1..]); }
    NotFound(data, '\n');
    assert data[..|data|] == data;
    assert lines == [Chomp(data)];
  }

  lemma {:induction false} UnlinesLong(texts: seq<Bytes>)
    requires texts != []
    ensures |Unlines(texts)| > 0
  {
  }

  lemma {:induction false} OtherLines(data: Bytes, texts: seq<Bytes>, lines: seq<Bytes>) returns (tail: Bytes)
    requires texts != [] && AreLines(data, texts, lines) && data != texts[0]
    ensures data == texts[0] + "\n" + tail && AreLines(tail, texts[1..], lines[1..])
    ensures Lacks(texts[0], '\n') && lines != [] && lines[0] == Chomp(texts[0])
  {
    hide Lacks;
    var rest := Unlines(texts[1..]);
    if Unlines(texts) == data {
      tail := rest;
    } else {
      CutsEnd(texts[0], rest, data);
      tail := rest[..|rest| - 1];
    }
  }

  lemma {:induction false} CutsEnd(first: Bytes, rest: Bytes, data: Bytes)
    requires first + "\n" + rest == data + "\n" && data != first
    ensures rest != "" && rest == rest[..|rest| - 1] + "\n" && data == first + "\n" + rest[..|rest| - 1]
  {
    var all := first + "\n" + rest;
    assert data == all[..|data|];
    assert all[..|first|] == first;
    assert all[|all| - 1] == rest[|rest| - 1];
  }

  method ReadLines(data: Bytes) returns (lines: seq<Bytes>)
    ensures lines == LinesOf(data)
  {
    lines := [];
    var start := 0;
    assert data[0..] == data && [] + LinesOf(data) == LinesOf(data);
    while start < |data|
      invariant 0 <= start <= |data|
      invariant lines + LinesOf(data[start..]) == LinesOf(data)
    {
      var rest := data[start..];
      var k := IndexOf(rest, '\n');
      if k == |rest| {
        lines := lines + [Chomp(rest)];
        return;
      }
      Associative(lines, [Chomp(rest[..k])], LinesOf(rest[k + 1..]));
      assert rest[k + 1..] == data[start + k + 1..];
      lines := lines + [Chomp(rest[..k])];
      start := start + k + 1;
    }
  }

  // ----- numbers -----

  function DigitCount(s: Bytes): (n: nat)
    ensures n <= |s| && AllDigits(s[..n]) && (n < |s| ==> !IsDigit(s[n]))
  {
    if s == [] || !IsDigit(s[0]) then 0 else 1 + DigitCount(s[1..])
  }

  // strtoull on the whole of a C string in base ten: white space, a sign, digits and nothing more. A
  // negative number wraps around; one out of range is an error. Without any digit nothing is
  // converted, which passes only for the empty string.
  function StrToUll(s: Bytes): Option<nat> {
    var t := TrimLeft(s);
    var signed := t != [] && (t[0] == '+' || t[0] == '-');
    var digits := if signed then t[1..] else t;
    var n := DigitCount(digits);
    if n == 0 then (if s == [] then Some(0) else None)
    else if n < |digits| then None
    else
      var v := Number(digits[..n]);
      if v >= ULLONG then None
      else if signed && t[0] == '-' then Some(if v == 0 then 0 else ULLONG - v)
      else Some(v)
  }

  function ReadNumber(raw: Bytes, maximum: nat): (r: Option<nat>)
    ensures r.Some? ==> r.value <= maximum
  {
    if raw == [] || raw[0] == '-' then None
    else
      var v := StrToUll(CString(raw));
      if v.None? || v.value > maximum then None else v
  }

  lemma {:induction false} CStringOfDigits(s: Bytes)
    requires AllDigits(s)
    ensures CString(s) == s && DigitCount(s) == |s|
  {
    if s != [] { CStringOfDigits(s[1..]); }
  }

  // What to_string writes is read back, if it is within the bound, and refused otherwise.
  lemma {:induction false} NumberRoundTrip(n: nat, maximum: nat)
    requires maximum < ULLONG
    ensures ReadNumber(Decimal(n), maximum) == if n <= maximum then Some(n) else None
  {
    var s := Decimal(n);
    DecimalIsNumber(n);
    CStringOfDigits(s);
    assert IsDigit(s[0]) && TrimLeft(s) == s;
    assert s[..|s|] == s;
  }

  // White space, a sign or none, and digits; a minus sign makes the number wrap around at 2^64.
  predicate NumeralParts(s: Bytes, spaces: Bytes, sign: Bytes, digits: Bytes, v: nat) {
    && s == spaces + sign + digits && (forall i :: 0 <= i < |spaces| ==> IsSpace(spaces[i]))
    && (sign == "" || sign == "+" || sign == "-") && digits != [] && AllDigits(digits)
    && Number(digits) < 0x1_0000_0000_0000_0000
    && v == if sign == "-" && Number(digits) > 0 then 0x1_0000_0000_0000_0000 - Number(digits) else Number(digits)
  }

  ghost predicate IsNumeral(s: Bytes, v: nat) {
    exists spaces: Bytes, sign: Bytes, digits: Bytes :: NumeralParts(s, spaces, sign, digits, v)
  }

  // Which fields are read as a number: those that do not begin with a minus sign and whose bytes up to
  // the first NUL are a numeral, or none at all, which reads as zero.
  lemma {:induction false} NumberIsExact(raw: Bytes, maximum: nat, v: nat)
    ensures ReadNumber(raw, maximum) == Some(v) <==>
            raw != "" && raw[0] != '-' && v <= maximum && (IsNumeral(CString(raw), v) || (CString(raw) == "" && v == 0))
  {
    hide StrToUll, IsNumeral;
    NumeralIs(CString(raw), v);
  }

  lemma {:induction false} NumeralIs(s: Bytes, v: nat)
    ensures StrToUll(s) == Some(v) <==> IsNumeral(s, v) || (s == "" && v == 0)
  {
    hide StrToUll, NumeralParts;
    if StrToUll(s) == Some(v) && s != "" { var spaces, sign, digits := NumeralGiven(s, v); }
    if IsNumeral(s, v) {
      var spaces: Bytes, sign: Bytes, digits: Bytes :| NumeralParts(s, spaces, sign, digits, v);
      NumeralReads(s, spaces, sign, digits, v);
    }
    EmptyReads();
  }

  lemma EmptyReads()
    ensures StrToUll("") == Some(0)
  {
  }

  lemma {:induction false} NumeralReads(s: Bytes, spaces: Bytes, sign: Bytes, digits: Bytes, v: nat)
    requires NumeralParts(s, spaces, sign, digits, v)
    ensures StrToUll(s) == Some(v)
  {
    hide Number;
    var t := sign + digits;
    assert s == spaces + t;
    SpacesGo(spaces, t);
    CStringOfDigits(digits);
    assert digits[..|digits|] == digits;
    if sign == "" { assert t == digits; } else { assert t[0] == sign[0] && t[1..] == digits; }
  }

  lemma {:induction false} SpacesGo(spaces: Bytes, rest: Bytes)
    requires (forall i :: 0 <= i < |spaces| ==> IsSpace(spaces[i])) && rest != [] && !IsSpace(rest[0])
    ensures TrimLeft(spaces + rest) == rest
  {
    if spaces == [] {
      assert spaces + rest == rest;
    } else {
      assert (spaces + rest)[1..] == spaces[1..] + rest;
      SpacesGo(spaces[1..], rest);
    }
  }

  lemma {:induction false} NumeralGiven(s: Bytes, v: nat) returns (spaces: Bytes, sign: Bytes, digits: Bytes)
    requires StrToUll(s) == Some(v) && s != ""
    ensures NumeralParts(s, spaces, sign, digits, v)
  {
    hide Number, AllDigits;
    var k := TrimLeftOnlyDropsSpaces(s);
    var t := s[k..];
    var signed := t != [] && (t[0] == '+' || t[0] == '-');
    spaces := s[..k];
    sign, digits := if signed then [t[0]] else "", if signed then t[1..] else t;
    assert digits[..|digits|] == digits;
    assert t == sign + digits && s == spaces + t;
    Associative(spaces, sign, digits);
  }

  function ReadFlag(raw: Bytes): Option<bool> {
    if raw == "0" then Some(false) else if raw == "1" then Some(true) else None
  }

  function Flag(b: bool): Bytes {
    if b then "1" else "0"
  }
}
