// The class JsonParser of core/src/config.cpp: a position that moves over the text. Each method does
// what the function of the same name says about the text from the position on; on failure the
// position is where the fault was found, and its caller gives up too.
module JsonParsers {
  import opened Text
  import opened CodePoints
  import opened JsonText
  import opened ConfigSchema
  import opened ConfigParse

  // A method's answer against the function's: success with that value and that many bytes passed.
  ghost predicate Agrees<T>(r: Parse<T>, ok: bool, v: T, before: nat, after: nat) {
    match r case Fail => !ok case Done(value, used) => ok && v == value && after == before + used
  }

  predicate Moves(r: Parse<()>, ok: bool, before: nat, after: nat) {
    match r case Fail => !ok case Done(_, used) => ok && after == before + used
  }

  predicate TurnsTo(r: Turn, ok: bool, more: bool, before: nat, after: nat) {
    match r
    case Bad => !ok
    case Close(used) => ok && !more && after == before + used
    case More(used) => ok && more && after == before + used
  }

  // The value behind a name, and what the members are then.
  function OneMember(members: seq<Member>, vals: seq<Value>, seen: set<nat>, key: Bytes, s: Bytes): (r: Parse<Loaded>)
    requires |vals| == |members|
    ensures r.Done? ==> 0 < r.used <= |s| && |r.value.vals| == |members|
  {
    var i := IndexOf(members, key);
    if i < |members| then
      match ParseInto(members[i].kind, vals[i], s)
      case Fail => Fail
      case Done(v, used) => Done(Loaded(vals[i := v], seen + {i}), used)
    else
      match Skip(s, 0)
      case Fail => Fail
      case Done(_, used) => Done(Loaded(vals, seen), used)
  }

  lemma {:induction false} OneMemberRound(members: seq<Member>, vals: seq<Value>, seen: set<nat>, s: Bytes)
    requires |vals| == |members|
    ensures ParseMembers(members, vals, seen, s) ==
            if Key(s).Fail? then Fail
            else
              var n := Key(s).used;
              match OneMember(members, vals, seen, Key(s).value, s[n..])
              case Fail => Fail
              case Done(loaded, used) => NextMember(members, loaded.vals, loaded.seen, s, n + used)
  {
    hide Key, Skip, IndexOf, ParseInto, NextMember, ParseMembers;
    MembersRound(members, vals, seen, s);
  }

  // append_utf8.
  method AppendUtf8(out: Bytes, cp: nat) returns (r: Bytes)
    requires cp < 0x11_0000
    ensures r == out + Utf8(cp) && IsUtf8(r[|out|..], cp)
  {
    if cp <= 0x7F {
      r := out + [ByteOf(cp)];
    } else if cp <= 0x7FF {
      r := out + [ByteOf(0xC0 + cp / 64), ByteOf(0x80 + cp % 64)];
    } else if cp <= 0xFFFF {
      r := out + [ByteOf(0xE0 + cp / 4096), ByteOf(0x80 + cp / 64 % 64), ByteOf(0x80 + cp % 64)];
    } else {
      r := out + [ByteOf(0xF0 + cp / 0x4_0000), ByteOf(0x80 + cp / 4096 % 64), ByteOf(0x80 + cp / 64 % 64), ByteOf(0x80 + cp % 64)];
    }
    assert r[|out|..] == Utf8(cp);
    Utf8Encodes(cp);
  }

  class JsonParser {
    const input: Bytes
    var pos: nat

    ghost predicate Valid()
      reads this
    {
      pos <= |input|
    }

    ghost function Rest(): Bytes
      reads this
      requires Valid()
    {
      input[pos..]
    }

    constructor (input: Bytes)
      ensures Valid() && this.input == input && pos == 0
    {
      this.input := input;
      pos := 0;
    }

    predicate Sees(c: Byte)
      reads this
      requires Valid()
      ensures Sees(c) == Next(Rest(), c)
    {
      pos < |input| && input[pos] == c
    }

    method Whitespace()
      requires Valid()
      modifies this
      ensures Valid() && pos == old(pos) + Blanks(old(Rest()))
    {
      while pos < |input| && IsSpace(input[pos])
        invariant old(pos) <= pos <= |input|
        invariant pos + Blanks(Rest()) == old(pos) + Blanks(old(Rest()))
      {
        assert Rest()[1..] == input[pos + 1..];
        pos := pos + 1;
      }
    }

    method TakeChar(expected: Byte) returns (ok: bool)
      requires Valid()
      modifies this
      ensures Valid() && Moves(Take(old(Rest()), expected), ok, old(pos), pos)
    {
      hide Blanks;
      Whitespace();
      assert Rest() == old(Rest())[Blanks(old(Rest()))..];
      if !Sees(expected) { return false; }
      pos := pos + 1;
      ok := true;
    }

    predicate SeesWord(word: Bytes)
      reads this
      requires Valid()
      ensures SeesWord(word) == StartsWith(Rest(), word)
    {
      pos + |word| <= |input| && input[pos..pos + |word|] == word
    }

    method LiteralWord(word: Bytes) returns (ok: bool)
      requires Valid()
      modifies this
      ensures Valid() && Moves(Literal(old(Rest()), word), ok, old(pos), pos)
    {
      hide Blanks;
      Whitespace();
      assert Rest() == old(Rest())[Blanks(old(Rest()))..];
      if !SeesWord(word) { return false; }
      pos := pos + |word|;
      ok := true;
    }

    // take(open), white space, and a look at the closing bracket.
    method OpenBracket(open: Byte, close: Byte) returns (ok: bool, more: bool)
      requires Valid()
      modifies this
      ensures Valid() && TurnsTo(Open(old(Rest()), open, close), ok, more, old(pos), pos)
    {
      hide Blanks, Take;
      more := false;
      ok := TakeChar(open);
      if !ok { return; }
      ghost var behind := Rest();
      assert behind == old(Rest())[pos - old(pos)..];
      Whitespace();
      assert Rest() == old(Rest())[pos - old(pos)..];
      if Sees(close) { pos := pos + 1; return; }
      more := true;
    }

    // White space, then the closing bracket or a comma.
    method Turning(close: Byte) returns (ok: bool, more: bool)
      requires Valid() && close != ','
      modifies this
      ensures Valid() && TurnsTo(Turns(old(Rest()), close), ok, more, old(pos), pos)
    {
      hide Take, Blanks;
      more := false;
      Whitespace();
      assert Rest() == old(Rest())[Blanks(old(Rest()))..];
      if Sees(close) { pos := pos + 1; return true, false; }
      NoBlanks(old(Rest()));
      TakeIs(Rest(), ',');
      ok := TakeChar(',');
      more := ok;
    }

    method UnicodeUnitValue() returns (ok: bool, value: nat)
      requires Valid()
      modifies this
      ensures Valid() && Agrees(UnicodeUnit(old(Rest())), ok, value, old(pos), pos)
    {
      value := 0;
      if pos + 4 > |input| { return false, 0; }
      ghost var s := Rest();
      for i := 0 to 4
        invariant pos == old(pos) + i <= old(pos) + 4 <= |input| && UnitSoFar(s, i) == value
        invariant forall k :: 0 <= k < i ==> Hex(s[k]) >= 0
      {
        assert input[pos] == s[i];
        var digit := Hex(input[pos]);
        pos := pos + 1;
        if digit < 0 { return false, 0; }
        value := value * 16 + digit;
      }
      UnitIs(s);
      ok := true;
    }

    // Behind a backslash.
    method EscapeBytes() returns (ok: bool, bytes: Bytes)
      requires Valid()
      modifies this
      ensures Valid() && Agrees(Escape(old(Rest())), ok, bytes, old(pos), pos)
    {
      hide Unicode;
      if pos >= |input| { return false, ""; }
      var esc := input[pos];
      pos := pos + 1;
      ok := true;
      match esc
      case '\"' => bytes := "\"";
      case '\\' => bytes := "\\";
      case '/' => bytes := "/";
      case 'b' => bytes := [ByteOf(8)];
      case 'f' => bytes := [ByteOf(12)];
      case 'n' => bytes := "\n";
      case 'r' => bytes := "\r";
      case 't' => bytes := "\t";
      case 'u' =>
        assert Rest() == old(Rest())[1..];
        ok, bytes := UnicodeBytes();
      case _ => return false, "";
    }

    method UnicodeBytes() returns (ok: bool, bytes: Bytes)
      requires Valid()
      modifies this
      ensures Valid() && Agrees(Unicode(old(Rest())), ok, bytes, old(pos), pos)
    {
      hide UnicodeUnit, Utf8;
      bytes := "";
      var cp;
      ok, cp := UnicodeUnitValue();
      if !ok { return; }
      if 0xD800 <= cp <= 0xDBFF {
        assert Rest() == old(Rest())[4..];
        if !SeesWord("\\u") { return false, ""; }
        pos := pos + 2;
        assert Rest() == old(Rest())[6..];
        var low;
        ok, low := UnicodeUnitValue();
        if !ok { return; }
        if low < 0xDC00 || low > 0xDFFF { return false, ""; }
        cp := 0x1_0000 + (cp - 0xD800) * 0x400 + (low - 0xDC00);
      } else if 0xDC00 <= cp <= 0xDFFF {
        return false, "";
      }
      bytes := AppendUtf8("", cp);
      assert "" + Utf8(cp) == Utf8(cp);
    }

    method StringValue() returns (ok: bool, out: Bytes)
      requires Valid()
      modifies this
      ensures Valid() && Agrees(String(old(Rest())), ok, out, old(pos), pos)
    {
      hide Blanks, Body;
      out := "";
      Whitespace();
      assert Rest() == old(Rest())[Blanks(old(Rest()))..];
      if !Sees('\"') { return false, ""; }
      pos := pos + 1;
      assert Rest() == old(Rest())[Blanks(old(Rest())) + 1..];
      ok, out := StringBody();
    }

    method StringBody() returns (ok: bool, out: Bytes)
      requires Valid()
      modifies this
      ensures Valid() && Agrees(Body(old(Rest())), ok, out, old(pos), pos)
    {
      hide Escape;
      out := "";
      ghost var body := Body(Rest());
      PrefixedNothing(body);
      while pos < |input|
        invariant old(pos) <= pos <= |input|
        invariant body == Prefixed(out, pos - old(pos), Body(Rest()))
        decreases |input| - pos
      {
        ghost var s, done := Rest(), out;
        var ch := input[pos];
        pos := pos + 1;
        assert s[1..] == Rest();
        if ch == '\"' {
          assert out + "" == out;
          return true, out;
        }
        if ch as int < 0x20 { return false, ""; }
        if ch != '\\' {
          out := out + [ch];
          PrefixedTwice(done, pos - 1 - old(pos), [ch], 1, Body(Rest()));
        } else {
          var bytes;
          ok, bytes := EscapeBytes();
          if !ok { return false, ""; }
          out := out + bytes;
          assert s[1 + Escape(s[1..]).used..] == Rest();
          PrefixedTwice(done, pos - 1 - Escape(s[1..]).used - old(pos), bytes, 1 + Escape(s[1..]).used, Body(Rest()));
        }
      }
      assert Rest() == [];
      return false, "";
    }

    method BooleanValue() returns (ok: bool, out: bool)
      requires Valid()
      modifies this
      ensures Valid() && Agrees(Boolean(old(Rest())), ok, out, old(pos), pos)
    {
      hide Blanks;
      Whitespace();
      assert Rest() == old(Rest())[Blanks(old(Rest()))..];
      if SeesWord("true") { pos := pos + 4; return true, true; }
      if SeesWord("false") { pos := pos + 5; return true, false; }
      return false, false;
    }

    // The digits from the position on, as long as their value stays within the limit.
    method DigitsValue(limit: nat) returns (ok: bool, value: nat)
      requires Valid()
      modifies this
      ensures Valid() && ok == (DigitsNumber(old(Rest())) <= limit)
      ensures ok ==> value == DigitsNumber(old(Rest())) && pos == old(pos) + Digits(old(Rest()))
    {
      ghost var s := Rest();
      value := 0;
      assert Number(s[..0]) == 0;
      while pos < |input| && IsDigit(input[pos])
        invariant old(pos) <= pos <= |input| && AllDigits(s[..pos - old(pos)])
        invariant value == Number(s[..pos - old(pos)]) <= limit
        decreases |input| - pos
      {
        var k := pos - old(pos);
        assert s[k] == input[pos];
        assert s[..k + 1][..k] == s[..k];
        value := value * 10 + (input[pos] as int - 48);
        pos := pos + 1;
        if value > limit {
          DigitsExtend(s, k + 1);
          return false, 0;
        }
      }
      DigitsEnd(s, pos - old(pos));
      ok := true;
    }

    predicate SeesFraction()
      reads this
      requires Valid()
      ensures SeesFraction() == IsFraction(Rest())
    {
      pos < |input| && (input[pos] == '.' || input[pos] == 'e' || input[pos] == 'E')
    }

    method IntegerValue() returns (ok: bool, out: int)
      requires Valid()
      modifies this
      ensures Valid() && Agrees(Integer(old(Rest())), ok, out, old(pos), pos)
    {
      hide Blanks, Integer, Digits, DigitsNumber, IsFraction;
      out := 0;
      ghost var s := Rest();
      var negative := SignValue();
      ghost var start := pos - old(pos);
      IntegerFrom(s, negative, start);
      if pos >= |input| || !IsDigit(input[pos]) { return false, 0; }
      var value;
      ok, value := DigitsValue(INT_MAX + 1);
      if !ok { return; }
      assert Rest() == s[start + Digits(s[start..])..];
      if SeesFraction() { return false, 0; }
      if !negative && value > INT_MAX { return false, 0; }
      out := if negative then -value else value;
    }

    // Blanks and a minus sign.
    method SignValue() returns (negative: bool)
      requires Valid()
      modifies this
      ensures Valid() && pos >= old(pos) && Rest() == old(Rest())[pos - old(pos)..]
      ensures var s := old(Rest());
              negative == Next(s[Blanks(s)..], '-') && pos - old(pos) == if negative then Blanks(s) + 1 else Blanks(s)
    {
      hide Blanks;
      ghost var s := Rest();
      Whitespace();
      assert Rest() == s[Blanks(s)..];
      negative := false;
      if Sees('-') {
        negative := true;
        pos := pos + 1;
      }
    }

    method UnsignedValue() returns (ok: bool, out: nat)
      requires Valid()
      modifies this
      ensures Valid() && Agrees(Unsigned(old(Rest())), ok, out, old(pos), pos)
    {
      hide Blanks, Number, AllDigits;
      out := 0;
      Whitespace();
      ghost var s := old(Rest());
      ghost var start := pos - old(pos);
      assert Rest() == s[start..];
      if pos >= |input| || !IsDigit(input[pos]) { return false, 0; }
      assert Digits(s[start..]) > 0;
      ok, out := DigitsValue(UINT32_MAX);
      if !ok { return; }
      assert Rest() == s[start + Digits(s[start..])..];
      if SeesFraction() { return false, 0; }
    }

    method PassDigits() returns (any: bool)
      requires Valid()
      modifies this
      ensures Valid() && pos == old(pos) + Digits(old(Rest())) && any == (Digits(old(Rest())) > 0)
    {
      var start := pos;
      ghost var s := Rest();
      while pos < |input| && IsDigit(input[pos])
        invariant start <= pos <= |input| && pos + Digits(Rest()) == start + Digits(s)
        decreases |input| - pos
      {
        assert Rest()[1..] == input[pos + 1..];
        pos := pos + 1;
      }
      any := pos > start;
    }

    method PassFraction() returns (ok: bool)
      requires Valid()
      modifies this
      ensures Valid() && Moves(SkipFraction(old(Rest())), ok, old(pos), pos)
    {
      hide Digits;
      if !Sees('.') { return true; }
      pos := pos + 1;
      assert Rest() == old(Rest())[1..];
      ok := PassDigits();
    }

    method PassExponent() returns (ok: bool)
      requires Valid()
      modifies this
      ensures Valid() && Moves(SkipExponent(old(Rest())), ok, old(pos), pos)
    {
      hide Digits;
      if !Sees('e') && !Sees('E') { return true; }
      pos := pos + 1;
      assert Rest() == old(Rest())[1..];
      if Sees('+') || Sees('-') { pos := pos + 1; }
      assert Rest() == old(Rest())[pos - old(pos)..];
      ok := PassDigits();
    }

    method PassNumber() returns (ok: bool)
      requires Valid()
      modifies this
      ensures Valid() && Moves(SkipNumber(old(Rest())), ok, old(pos), pos)
    {
      hide Start, Whole, SkipFraction, SkipExponent, Blanks, Digits;
      ghost var s, from := Rest(), pos;
      PassSign();
      assert Rest() == s[Start(s)..];
      ok := PassWhole();
      if !ok { return; }
      ghost var n := Start(s) + Whole(s[Start(s)..]);
      assert pos == from + n && Rest() == s[n..];
      ok := PassFraction();
      if !ok { return; }
      ghost var f := n + SkipFraction(s[n..]).used;
      assert pos == from + f && Rest() == s[f..];
      ok := PassExponent();
    }

    method PassSign()
      requires Valid()
      modifies this
      ensures Valid() && pos == old(pos) + Start(old(Rest()))
    {
      hide Blanks;
      Whitespace();
      assert Rest() == old(Rest())[pos - old(pos)..];
      if Sees('-') { pos := pos + 1; }
    }

    method PassWhole() returns (any: bool)
      requires Valid()
      modifies this
      ensures Valid() && pos == old(pos) + Whole(old(Rest())) && any == (Whole(old(Rest())) > 0)
    {
      hide Digits;
      if Sees('0') {
        pos := pos + 1;
        any := true;
      } else {
        any := PassDigits();
      }
    }

    // string(key) and take(':').
    method KeyName() returns (ok: bool, key: Bytes)
      requires Valid()
      modifies this
      ensures Valid() && Agrees(Key(old(Rest())), ok, key, old(pos), pos)
    {
      hide String, Take;
      ok, key := StringValue();
      if !ok { return; }
      assert Rest() == old(Rest())[pos - old(pos)..];
      ok := TakeChar(':');
    }

    // ----- values that are passed over -----

    method SkipValue(depth: nat) returns (ok: bool)
      requires Valid()
      modifies this
      ensures Valid() && Moves(Skip(old(Rest()), depth), ok, old(pos), pos)
      decreases |input| - pos, 0
    {
      hide Blanks, String, Open, Literal, SkipNumber, SkipMembers, SkipItems;
      if depth > MAX_DEPTH { return false; }
      ghost var s := Rest();
      Whitespace();
      ghost var b := pos - old(pos);
      assert Rest() == s[b..];
      if pos >= |input| { return false; }
      var ch := input[pos];
      assert ch == s[b..][0];
      if ch == '\"' {
        var ignored;
        ok, ignored := StringValue();
      } else if ch == '{' || ch == '[' {
        ok := SkipBracketed(depth, ch);
      } else if ch == 't' {
        ok := LiteralWord("true");
      } else if ch == 'f' {
        ok := LiteralWord("false");
      } else if ch == 'n' {
        ok := LiteralWord("null");
      } else {
        ok := PassNumber();
      }
    }

    method SkipBracketed(depth: nat, open: Byte) returns (ok: bool)
      requires Valid() && pos < |input| && input[pos] == open && (open == '{' || open == '[')
      modifies this
      ensures Valid() && var s, close := old(Rest()), if open == '{' then '}' else ']';
              match Open(s, open, close)
              case Bad => !ok
              case Close(used) => ok && pos == old(pos) + used
              case More(used) =>
                Moves(After(used, if open == '{' then SkipMembers(s[used..], depth) else SkipItems(s[used..], depth)), ok, old(pos), pos)
      decreases |input| - pos, -1
    {
      hide Open, SkipMembers, SkipItems;
      var more;
      if open == '{' {
        ok, more := OpenBracket('{', '}');
      } else {
        ok, more := OpenBracket('[', ']');
      }
      if !ok || !more { return; }
      assert Rest() == old(Rest())[pos - old(pos)..];
      if open == '{' {
        ok := SkipMemberLoop(depth);
      } else {
        ok := SkipItemLoop(depth);
      }
    }

    method SkipMemberLoop(depth: nat) returns (ok: bool)
      requires Valid()
      modifies this
      ensures Valid() && Moves(SkipMembers(old(Rest()), depth), ok, old(pos), pos)
      decreases |input| - pos, 1
    {
      hide Key, Skip, Turns, SkipMembers;
      while true
        invariant old(pos) <= pos <= |input|
        invariant SkipMembers(old(Rest()), depth) == After(pos - old(pos), SkipMembers(Rest(), depth))
        decreases |input| - pos
      {
        ghost var s, start := Rest(), pos;
        SkipMembersRound(s, depth);
        var key;
        ok, key := KeyName();
        if !ok { return; }
        ghost var keyed := pos - start;
        assert Rest() == s[keyed..];
        ok := SkipValue(depth + 1);
        if !ok { return; }
        assert Rest() == s[pos - start..];
        var more;
        ok, more := Turning('}');
        if !ok || !more { return; }
        assert Rest() == s[pos - start..];
      }
    }

    method SkipItemLoop(depth: nat) returns (ok: bool)
      requires Valid()
      modifies this
      ensures Valid() && Moves(SkipItems(old(Rest()), depth), ok, old(pos), pos)
      decreases |input| - pos, 1
    {
      hide Skip, Turns, SkipItems;
      while true
        invariant old(pos) <= pos <= |input|
        invariant SkipItems(old(Rest()), depth) == After(pos - old(pos), SkipItems(Rest(), depth))
        decreases |input| - pos
      {
        ghost var s, start := Rest(), pos;
        SkipItemsRound(s, depth);
        ok := SkipValue(depth + 1);
        if !ok { return; }
        assert Rest() == s[pos - start..];
        var more;
        ok, more := Turning(']');
        if !ok || !more { return; }
        assert Rest() == s[pos - start..];
      }
    }

    // ----- the configuration -----

    // The value of one member, by its type.
    method MemberValue(k: Kind, was: Value) returns (ok: bool, v: Value)
      requires Valid()
      modifies this
      ensures Valid() && Agrees(ParseInto(k, was, old(Rest())), ok, v, old(pos), pos)
      decreases |input| - pos, 1
    {
      hide String, Integer, Unsigned, Boolean, Open, ParseRecord, ParseItems;
      v := was;
      match k
      case TextKind =>
        var text;
        ok, text := StringValue();
        v := Text(text);
      case IntKind =>
        var n;
        ok, n := IntegerValue();
        v := Int(n);
      case UintKind =>
        var n;
        ok, n := UnsignedValue();
        v := Int(n);
      case SmallKind(most) =>
        var n;
        ok, n := IntegerValue();
        if ok && (n < 0 || n > most) { return false, was; }
        v := Int(n);
      case FlagKind =>
        var on;
        ok, on := BooleanValue();
        v := Flag(on);
      case RecordKind(members) =>
        var fields, seen;
        ok, fields, seen := RecordValue(members, Fields(members, was));
        v := Record(fields);
      case ListKind(item, blank, size) =>
        var list := Copies(blank, size);
        v := List(list);
        var more;
        ok, more := OpenBracket('[', ']');
        if !ok || !more { return; }
        assert Rest() == old(Rest())[pos - old(pos)..];
        ok, list := ItemLoop(item, list);
        v := List(list);
    }

    method RecordValue(members: seq<Member>, init: seq<Value>) returns (ok: bool, vals: seq<Value>, seen: set<nat>)
      requires Valid() && |init| == |members|
      modifies this
      ensures Valid() && |vals| == |members|
      ensures Agrees(ParseRecord(members, init, old(Rest())), ok, Loaded(vals, seen), old(pos), pos)
      decreases |input| - pos, 0
    {
      hide Open, ParseMembers, AllPass;
      vals, seen := init, {};
      var more;
      ok, more := OpenBracket('{', '}');
      if !ok || !more { return; }
      assert Rest() == old(Rest())[pos - old(pos)..];
      ok, vals, seen := MemberLoop(members, init);
      if ok { ok := AllPass(members, vals); }
    }

    method MemberLoop(members: seq<Member>, init: seq<Value>) returns (ok: bool, vals: seq<Value>, seen: set<nat>)
      requires Valid() && |init| == |members|
      modifies this
      ensures Valid() && |vals| == |members|
      ensures Agrees(ParseMembers(members, init, {}, old(Rest())), ok, Loaded(vals, seen), old(pos), pos)
      decreases |input| - pos, 2
    {
      hide Key, Turns, ParseMembers, NextMember, OneMember;
      vals, seen := init, {};
      while true
        invariant old(pos) <= pos <= |input| && |vals| == |members|
        invariant ParseMembers(members, init, {}, old(Rest())) ==
                  After(pos - old(pos), ParseMembers(members, vals, seen, Rest()))
        decreases |input| - pos
      {
        ghost var s, start := Rest(), pos;
        OneMemberRound(members, vals, seen, s);
        var key;
        ok, key := KeyName();
        if !ok { return; }
        assert Rest() == s[pos - start..];
        ok, vals, seen := NamedMember(members, vals, seen, key);
        if !ok { return; }
        assert Rest() == s[pos - start..];
        NextMemberRound(members, vals, seen, s, pos - start);
        var more;
        ok, more := Turning('}');
        if !ok || !more { return; }
        assert Rest() == s[pos - start..];
      }
    }

    // The chain of names: the value of the member with this name, or one to pass over.
    method NamedMember(members: seq<Member>, init: seq<Value>, already: set<nat>, key: Bytes)
      returns (ok: bool, vals: seq<Value>, seen: set<nat>)
      requires Valid() && |init| == |members|
      modifies this
      ensures Valid() && |vals| == |members|
      ensures Agrees(OneMember(members, init, already, key, old(Rest())), ok, Loaded(vals, seen), old(pos), pos)
      decreases |input| - pos, 2
    {
      hide Skip, ParseInto, IndexOf;
      vals, seen := init, already;
      var i := IndexOf(members, key);
      if i < |members| {
        var v;
        ok, v := MemberValue(members[i].kind, vals[i]);
        if ok { vals, seen := vals[i := v], seen + {i}; }
      } else {
        ok := SkipValue(0);
      }
    }

    method ItemLoop(item: seq<Member>, init: seq<Value>) returns (ok: bool, list: seq<Value>)
      requires Valid()
      modifies this
      ensures Valid()
      ensures Agrees(ParseItems(item, init, 0, old(Rest())), ok, list, old(pos), pos)
      decreases |input| - pos, 1
    {
      hide Turns, ParseRecord, Fields, ParseItems;
      list := init;
      var count := 0;
      while true
        invariant old(pos) <= pos <= |input| && count <= |list|
        invariant ParseItems(item, init, 0, old(Rest())) == After(pos - old(pos), ParseItems(item, list, count, Rest()))
        decreases |input| - pos
      {
        ghost var s, start := Rest(), pos;
        ItemsRound(item, list, count, s);
        if count >= |list| { return false, list; }
        var vals, seen;
        ok, vals, seen := RecordValue(item, Fields(item, list[count]));
        if !ok { return; }
        list := list[count := Record(vals)];
        count := count + 1;
        assert Rest() == s[pos - start..];
        var more;
        ok, more := Turning(']');
        if !ok || !more { return; }
        assert Rest() == s[pos - start..];
      }
    }
  }

  method ParseConfigJson(json: Bytes) returns (r: ConfigParse.Result)
    ensures r == ParseConfig(json)
  {
    hide Root, ParseRecord;
    RootStarts();
    if |json| > MAX_BYTES { return Rejected; }
    var parser := new JsonParser(json);
    assert parser.Rest() == json;
    var ok, vals, seen := parser.RecordValue(Root(), Inits(Root()));
    if !ok { return Rejected; }
    assert parser.Rest() == json[parser.pos..];
    parser.Whitespace();
    if parser.pos != |json| || 0 !in seen || vals[0] != Int(SCHEMA_VERSION) { return Rejected; }
    r := Accepted(AppConfig(vals, seen));
  }

  // The number behind the blanks and the sign.
  lemma {:induction false} IntegerFrom(s: Bytes, negative: bool, start: nat)
    requires negative == Next(s[Blanks(s)..], '-') && start == (if negative then Blanks(s) + 1 else Blanks(s))
    ensures start <= |s|
    ensures var n, value: int := Digits(s[start..]), DigitsNumber(s[start..]);
            && (n == 0 <==> start == |s| || !IsDigit(s[start]))
            && Integer(s) ==
               if n == 0 || value > INT_MAX + 1 || IsFraction(s[start + n..]) || (!negative && value > INT_MAX) then Fail
               else Done(if negative then -value else value, start + n)
  {
    hide Blanks, Number;
  }

  // The number that the digits at the front make.
  function DigitsNumber(s: Bytes): nat {
    Number(s[..Digits(s)])
  }

  lemma {:induction false} NoBlanks(s: Bytes)
    ensures Blanks(s[Blanks(s)..]) == 0
  {
    if s != [] && IsSpace(s[0]) {
      NoBlanks(s[1..]);
      assert s[1..][Blanks(s[1..])..] == s[Blanks(s)..];
    } else {
      assert s[0..] == s;
    }
  }

  lemma {:induction false} TakeIs(s: Bytes, c: Byte)
    requires Blanks(s) == 0
    ensures Take(s, c) == if Next(s, c) then Done((), 1) else Fail
  {
    assert s[0..] == s;
  }

  function UnitSoFar(s: Bytes, i: nat): int
    requires i <= |s|
  {
    if i == 0 then 0 else UnitSoFar(s, i - 1) * 16 + Hex(s[i - 1])
  }

  lemma {:induction false} UnitIs(s: Bytes)
    requires 4 <= |s| && forall k :: 0 <= k < 4 ==> Hex(s[k]) >= 0
    ensures UnitSoFar(s, 4) >= 0 && UnicodeUnit(s) == Done(UnitSoFar(s, 4), 4)
  {
    assert UnitSoFar(s, 1) == Hex(s[0]) && UnitSoFar(s, 2) == UnitSoFar(s, 1) * 16 + Hex(s[1]);
    assert UnitSoFar(s, 3) == UnitSoFar(s, 2) * 16 + Hex(s[2]);
  }

  lemma {:induction false} PrefixedNothing(r: Parse<Bytes>)
    ensures Prefixed("", 0, r) == r
  {
    if r.Done? { assert "" + r.value == r.value; }
  }

  lemma {:induction false} PrefixedTwice(a: Bytes, n: nat, b: Bytes, m: nat, r: Parse<Bytes>)
    ensures Prefixed(a, n, Prefixed(b, m, r)) == Prefixed(a + b, n + m, r)
  {
    if r.Done? { Associative(a, b, r.value); }
  }

  // More digits make no smaller number.
  lemma {:induction false} NumberGrows(d: Bytes, k: nat)
    requires AllDigits(d) && k <= |d|
    ensures Number(d[..k]) <= Number(d)
  {
    if k < |d| {
      NumberGrows(d[..|d| - 1], k);
      assert d[..|d| - 1][..k] == d[..k];
    } else {
      assert d[..k] == d;
    }
  }

  lemma {:induction false} DigitsReach(s: Bytes, k: nat)
    requires k <= |s| && AllDigits(s[..k])
    ensures k <= Digits(s)
  {
    if k > 0 {
      assert s[0] == s[..k][0];
      assert s[1..][..k - 1] == s[..k][1..];
      DigitsReach(s[1..], k - 1);
    }
  }

  lemma {:induction false} DigitsExtend(s: Bytes, k: nat)
    requires k <= |s| && AllDigits(s[..k])
    ensures Number(s[..k]) <= Number(s[..Digits(s)])
  {
    DigitsReach(s, k);
    assert s[..Digits(s)][..k] == s[..k];
    NumberGrows(s[..Digits(s)], k);
  }

  lemma {:induction false} DigitsEnd(s: Bytes, k: nat)
    requires k <= |s| && AllDigits(s[..k]) && (k < |s| ==> !IsDigit(s[k]))
    ensures Digits(s) == k
  {
    DigitsReach(s, k);
    assert forall i :: 0 <= i < Digits(s) ==> s[..Digits(s)][i] == s[i];
  }
}
