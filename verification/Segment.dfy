// Cutting a long text into parts: split_sms and the segmentation logic of encode_with in
// core/src/pdu.cpp. The PDU bit packing is not part of this model: a part travels as the C string
// that the encoder is given.
module Segment {
  import opened Text

  // ----- scanning characters -----

  // One scanned character: its bytes and what it costs in a part.
  datatype Token = Token(bytes: Bytes, units: nat)

  function CharLength(lead: Byte): (n: nat)
    ensures 1 <= n <= 4
  {
    if lead as int >= 0xF0 then 4 else if lead as int >= 0xE0 then 3 else if lead as int >= 0xC0 then 2 else 1
  }

  // strchr also finds the terminating NUL of its list, so a NUL counts as an escaped character.
  predicate IsEscaped(c: Byte) {
    c in "[]{}\\^~|" || c == '\0'
  }

  function CharUnits(lead: Byte, length: nat, gsm7: bool): (n: nat)
    ensures 1 <= n <= 2
  {
    if gsm7 then (if length == 1 && IsEscaped(lead) then 2 else 1) else (if length == 4 then 2 else 1)
  }

  // The character at the start of a text that is not empty; a truncated one is cut at the end.
  function FirstToken(text: Bytes, gsm7: bool): (t: Token)
    requires text != []
    ensures 1 <= |t.bytes| <= |text| && t.bytes == text[..|t.bytes|] && 1 <= t.units <= 2
    ensures t.units == 2 && !gsm7 ==> |t.bytes| == 4
  {
    var length := if CharLength(text[0]) > |text| then |text| else CharLength(text[0]);
    Token(text[..length], CharUnits(text[0], length, gsm7))
  }

  function Tokens(text: Bytes, gsm7: bool): seq<Token>
    decreases |text|
  {
    if text == [] then []
    else
      var t := FirstToken(text, gsm7);
      [t] + Tokens(text[|t.bytes|..], gsm7)
  }

  function Flat(tokens: seq<Token>): Bytes {
    if tokens == [] then [] else tokens[0].bytes + Flat(tokens[1..])
  }

  function Cost(tokens: seq<Token>): nat {
    if tokens == [] then 0 else tokens[0].units + Cost(tokens[1..])
  }

  lemma {:induction false} TokensSpell(text: Bytes, gsm7: bool)
    ensures Flat(Tokens(text, gsm7)) == text
    ensures forall i :: 0 <= i < |Tokens(text, gsm7)| ==> Tokens(text, gsm7)[i].bytes != [] && 1 <= Tokens(text, gsm7)[i].units <= 2
    decreases |text|
  {
    hide FirstToken, Flat;
    if text == [] {
      NothingFlat();
    } else {
      var t := FirstToken(text, gsm7);
      var rest := text[|t.bytes|..];
      TokensSpell(rest, gsm7);
      FlatFirst(t, Tokens(rest, gsm7));
    }
  }

  lemma NothingFlat()
    ensures Flat([]) == [] && Cost([]) == 0
  {
  }

  lemma {:induction false} FlatFirst(t: Token, rest: seq<Token>)
    ensures Flat([t] + rest) == t.bytes + Flat(rest) && Cost([t] + rest) == t.units + Cost(rest)
  {
    assert ([t] + rest)[1..] == rest;
  }

  lemma {:induction false} FlatAppends(a: seq<Token>, b: seq<Token>)
    ensures Flat(a + b) == Flat(a) + Flat(b) && Cost(a + b) == Cost(a) + Cost(b)
  {
    if a == [] {
      assert a + b == b;
    } else {
      assert (a + b)[1..] == a[1..] + b;
      FlatAppends(a[1..], b);
    }
  }

  // ----- splits and the greedy one -----

  function Glue(split: seq<seq<Token>>): seq<Token> {
    if split == [] then [] else split[0] + Glue(split[1..])
  }

  // A split at scanned character boundaries whose parts are not empty and cost at most the limit.
  predicate IsSplit(split: seq<seq<Token>>, tokens: seq<Token>, perPart: nat) {
    && Glue(split) == tokens
    && forall i :: 0 <= i < |split| ==> split[i] != [] && Cost(split[i]) <= perPart
  }

  // How many tokens fit in the first part.
  function Fill(tokens: seq<Token>, room: nat): (n: nat)
    ensures n <= |tokens|
  {
    if tokens == [] || tokens[0].units > room then 0 else 1 + Fill(tokens[1..], room - tokens[0].units)
  }

  // Greedy parts; none at all when some character does not fit in a part.
  function Greedy(tokens: seq<Token>, perPart: nat): seq<seq<Token>> {
    if tokens == [] then []
    else
      var n := Fill(tokens, perPart);
      if n == 0 then [] else [tokens[..n]] + Greedy(tokens[n..], perPart)
  }

  lemma {:induction false} FillIsMaximal(tokens: seq<Token>, room: nat)
    ensures var n := Fill(tokens, room);
            Cost(tokens[..n]) <= room && (n < |tokens| ==> Cost(tokens[..n]) + tokens[n].units > room)
  {
    if tokens != [] && tokens[0].units <= room {
      FillIsMaximal(tokens[1..], room - tokens[0].units);
      var n := Fill(tokens, room);
      assert tokens[..n][1..] == tokens[1..][..n - 1];
    }
  }

  lemma {:induction false} CostMonotone(tokens: seq<Token>, m: nat, n: nat)
    requires m <= n <= |tokens|
    ensures Cost(tokens[..m]) <= Cost(tokens[..n])
  {
    assert tokens[..n] == tokens[..m] + tokens[m..n];
    FlatAppends(tokens[..m], tokens[m..n]);
  }

  // Any prefix within the limit is within the greedy prefix.
  lemma {:induction false} FillReachesFarthest(tokens: seq<Token>, perPart: nat, m: nat)
    requires m <= |tokens| && Cost(tokens[..m]) <= perPart
    requires forall i :: 0 <= i < |tokens| ==> tokens[i].units >= 1
    ensures m <= Fill(tokens, perPart)
  {
    var n := Fill(tokens, perPart);
    FillIsMaximal(tokens, perPart);
    if n < m {
      OneMoreToken(tokens, n);
      CostMonotone(tokens, n + 1, m);
    }
  }

  lemma {:induction false} OneMoreToken(tokens: seq<Token>, n: nat)
    requires n < |tokens|
    ensures Cost(tokens[..n + 1]) == Cost(tokens[..n]) + tokens[n].units
    ensures Flat(tokens[..n + 1]) == Flat(tokens[..n]) + tokens[n].bytes
    ensures tokens[n..][1..] == tokens[n + 1..]
  {
    assert tokens[..n + 1] == tokens[..n] + [tokens[n]];
    FlatAppends(tokens[..n], [tokens[n]]);
    assert [tokens[n]][1..] == [];
  }

  // Starting later, the first part ends no earlier.
  lemma {:induction false} LaterReachesFarther(tokens: seq<Token>, k: nat, perPart: nat)
    requires AllFit(tokens, perPart) && k <= Fill(tokens, perPart)
    ensures Fill(tokens, perPart) <= k + Fill(tokens[k..], perPart)
  {
    var n := Fill(tokens, perPart);
    FillIsMaximal(tokens, perPart);
    assert tokens[..n] == tokens[..k] + tokens[k..n] && tokens[k..][..n - k] == tokens[k..n];
    FlatAppends(tokens[..k], tokens[k..n]);
    FillReachesFarthest(tokens[k..], perPart, n - k);
  }

  predicate AllFit(tokens: seq<Token>, perPart: nat) {
    forall i :: 0 <= i < |tokens| ==> 1 <= tokens[i].units <= perPart
  }

  lemma {:induction false} GreedyIsSplit(tokens: seq<Token>, perPart: nat)
    requires AllFit(tokens, perPart)
    ensures IsSplit(Greedy(tokens, perPart), tokens, perPart)
  {
    if tokens != [] {
      var n := Fill(tokens, perPart);
      FillIsMaximal(tokens, perPart);
      GreedyIsSplit(tokens[n..], perPart);
      assert tokens[..n] + tokens[n..] == tokens;
      assert Greedy(tokens, perPart)[1..] == Greedy(tokens[n..], perPart);
    }
  }

  lemma {:induction false} GreedyStep(tokens: seq<Token>, perPart: nat)
    requires AllFit(tokens, perPart)
    ensures tokens == [] ==> Greedy(tokens, perPart) == []
    ensures tokens != [] ==>
              var n := Fill(tokens, perPart);
              n > 0 && |Greedy(tokens, perPart)| == 1 + |Greedy(tokens[n..], perPart)|
  {
  }

  lemma {:induction false} FitRest(tokens: seq<Token>, k: nat, perPart: nat)
    requires AllFit(tokens, perPart) && k <= |tokens|
    ensures AllFit(tokens[k..], perPart)
  {
  }

  // Dropping characters from the front never needs more parts.
  lemma {:induction false} GreedyMonotone(tokens: seq<Token>, k: nat, perPart: nat)
    requires k <= |tokens| && AllFit(tokens, perPart)
    ensures |Greedy(tokens[k..], perPart)| <= |Greedy(tokens, perPart)|
    decreases |tokens|
  {
    hide Flat, Cost, Greedy, Fill, AllFit;
    if tokens == [] {
      assert tokens[k..] == tokens;
    } else {
      var n := Fill(tokens, perPart);
      FitRest(tokens, k, perPart);
      GreedyStep(tokens, perPart);
      FitRest(tokens, n, perPart);
      GreedyStep(tokens[k..], perPart);
      if k >= n {
        GreedyMonotone(tokens[n..], k - n, perPart);
        assert tokens[n..][k - n..] == tokens[k..];
      } else {
        LaterReachesFarther(tokens, k, perPart);
        var m := Fill(tokens[k..], perPart);
        GreedyMonotone(tokens[n..], k + m - n, perPart);
        assert tokens[n..][k + m - n..] == tokens[k..][m..];
      }
    }
  }

  // The first part of a split, and the rest of it.
  lemma {:induction false} SplitRest(split: seq<seq<Token>>, tokens: seq<Token>, perPart: nat)
    requires IsSplit(split, tokens, perPart) && tokens != []
    ensures split != []
    ensures var m := |split[0]|;
            m <= |tokens| && Cost(tokens[..m]) <= perPart && IsSplit(split[1..], tokens[m..], perPart)
  {
    hide Cost;
    var m := |split[0]|;
    assert split[0] == tokens[..m] && Glue(split[1..]) == tokens[m..];
  }

  // No split at character boundaries has fewer parts than the greedy one.
  lemma {:induction false} GreedyIsShortest(split: seq<seq<Token>>, tokens: seq<Token>, perPart: nat)
    requires AllFit(tokens, perPart) && IsSplit(split, tokens, perPart)
    ensures |Greedy(tokens, perPart)| <= |split|
    decreases |split|
  {
    hide Greedy, Cost, Fill, IsSplit;
    GreedyStep(tokens, perPart);
    if tokens != [] {
      SplitRest(split, tokens, perPart);
      var m, n := |split[0]|, Fill(tokens, perPart);
      GreedyIsShortest(split[1..], tokens[m..], perPart);
      FillReachesFarthest(tokens, perPart, m);
      GreedyMonotone(tokens[m..], n - m, perPart);
      assert tokens[m..][n - m..] == tokens[n..];
    }
  }

  // The bytes of a split.
  function Spell(split: seq<seq<Token>>): (r: seq<Bytes>)
    ensures |r| == |split| && forall i :: 0 <= i < |r| ==> r[i] == Flat(split[i])
  {
    if split == [] then [] else [Flat(split[0])] + Spell(split[1..])
  }

  // split_sms as a function: nothing when the text is empty or some character exceeds the limit.
  function Parts(text: Bytes, gsm7: bool, perPart: nat): seq<Bytes> {
    var tokens := Tokens(text, gsm7);
    if AllFit(tokens, perPart) then Spell(Greedy(tokens, perPart)) else []
  }

  // The character at `end`, seen as the next token of the text.
  lemma {:induction false} NextToken(text: Bytes, gsm7: bool, end: nat, tokens: seq<Token>, n: nat, room: nat)
    requires end < |text| && n <= |tokens| && tokens[n..] == Tokens(text[end..], gsm7)
    ensures var t := FirstToken(text[end..], gsm7);
            var after := end + |t.bytes|;
            && n < |tokens| && tokens[n] == t
            && after <= |text| && t.bytes == text[end..after]
            && tokens[n + 1..] == Tokens(text[after..], gsm7)
            && Flat(tokens[..n + 1]) == Flat(tokens[..n]) + text[end..after]
            && Fill(tokens[n..], room) == if t.units > room then 0 else 1 + Fill(tokens[n + 1..], room - t.units)
  {
    var t := FirstToken(text[end..], gsm7);
    assert tokens[n..][0] == t;
    OneMoreToken(tokens, n);
    assert text[end..][|t.bytes|..] == text[end + |t.bytes|..];
  }

  // What the inner loop knows after n characters of the part: it ends at `end`, costs `units` so far,
  // and the greedy part goes on from there.
  predicate Scanned(text: Bytes, gsm7: bool, perPart: nat, tokens: seq<Token>, pos: nat, end: nat, n: nat, units: nat) {
    && pos <= end <= |text| && n <= |tokens| && units <= perPart
    && (end == pos <==> n == 0)
    && tokens[n..] == Tokens(text[end..], gsm7)
    && Flat(tokens[..n]) == text[pos..end]
    && Fill(tokens, perPart) == n + Fill(tokens[n..], perPart - units)
  }

  lemma {:induction false} ScanOne(text: Bytes, gsm7: bool, perPart: nat, tokens: seq<Token>, pos: nat, end: nat, n: nat, units: nat)
    requires Scanned(text, gsm7, perPart, tokens, pos, end, n, units) && end < |text|
    ensures var t := FirstToken(text[end..], gsm7);
            if units + t.units > perPart then Fill(tokens, perPart) == n
            else Scanned(text, gsm7, perPart, tokens, pos, end + |t.bytes|, n + 1, units + t.units)
  {
    hide Tokens, Flat, Fill;
    NextToken(text, gsm7, end, tokens, n, perPart - units);
    var t := FirstToken(text[end..], gsm7);
    assert text[pos..end] + text[end..end + |t.bytes|] == text[pos..end + |t.bytes|];
  }

  // The greedy part of n characters that starts at pos ends at `end`.
  predicate Filled(text: Bytes, gsm7: bool, perPart: nat, pos: nat, end: nat, n: nat)
    requires pos <= |text|
  {
    var tokens := Tokens(text[pos..], gsm7);
    && pos <= end <= |text| && (end == pos <==> n == 0)
    && n == Fill(tokens, perPart)
    && Flat(tokens[..n]) == text[pos..end]
    && tokens[n..] == Tokens(text[end..], gsm7)
  }

  lemma {:induction false} ScanStarts(text: Bytes, gsm7: bool, perPart: nat, pos: nat)
    requires pos <= |text|
    ensures Scanned(text, gsm7, perPart, Tokens(text[pos..], gsm7), pos, pos, 0, 0)
  {
  }

  lemma {:induction false} ScanEnds(text: Bytes, gsm7: bool, perPart: nat, pos: nat, end: nat, n: nat, units: nat)
    requires pos <= |text| && Scanned(text, gsm7, perPart, Tokens(text[pos..], gsm7), pos, end, n, units)
    requires end < |text| ==> units + FirstToken(text[end..], gsm7).units > perPart
    ensures Filled(text, gsm7, perPart, pos, end, n)
  {
    if end < |text| { ScanOne(text, gsm7, perPart, Tokens(text[pos..], gsm7), pos, end, n, units); }
  }

  // The inner loop: how far the part that starts at pos reaches.
  method PartEnd(text: Bytes, gsm7: bool, perPart: nat, pos: nat) returns (end: nat, ghost n: nat)
    requires pos < |text|
    ensures Filled(text, gsm7, perPart, pos, end, n)
  {
    hide Tokens, Flat, Fill;
    ghost var tokens := Tokens(text[pos..], gsm7);
    var units: nat := 0;
    end := pos;
    n := 0;
    ScanStarts(text, gsm7, perPart, pos);
    while end < |text|
      invariant Scanned(text, gsm7, perPart, tokens, pos, end, n, units)
      decreases |text| - end
    {
      ScanOne(text, gsm7, perPart, tokens, pos, end, n, units);
      var lead := text[end];
      var length := CharLength(lead);
      if end + length > |text| { length := |text| - end; }
      var charUnits := CharUnits(lead, length, gsm7);
      if units + charUnits > perPart { break; }
      units := units + charUnits;
      end := end + length;
      n := n + 1;
    }
    ScanEnds(text, gsm7, perPart, pos, end, n, units);
  }

  // What the outer loop knows: the parts so far spell the greedy parts of the first k characters.
  predicate Packed(text: Bytes, gsm7: bool, perPart: nat, pos: nat, parts: seq<Bytes>, done: seq<seq<Token>>, k: nat) {
    var tokens := Tokens(text, gsm7);
    && pos <= |text| && k <= |tokens|
    && tokens[k..] == Tokens(text[pos..], gsm7)
    && AllFit(tokens[..k], perPart)
    && Greedy(tokens, perPart) == done + Greedy(tokens[k..], perPart)
    && parts == Spell(done)
  }

  lemma {:induction false} PackNone(text: Bytes, gsm7: bool, perPart: nat)
    ensures Packed(text, gsm7, perPart, 0, [], [], 0)
  {
    var tokens := Tokens(text, gsm7);
    assert text[0..] == text && tokens[0..] == tokens;
    assert [] + Greedy(tokens, perPart) == Greedy(tokens, perPart);
  }

  // Adding the greedy first part of what is left.
  lemma {:induction false} PackOne(text: Bytes, gsm7: bool, perPart: nat, pos: nat, end: nat, n: nat,
                parts: seq<Bytes>, done: seq<seq<Token>>, k: nat) returns (part: seq<Token>)
    requires pos < |text| && Packed(text, gsm7, perPart, pos, parts, done, k)
    requires Filled(text, gsm7, perPart, pos, end, n)
    ensures if end == pos then Parts(text, gsm7, perPart) == []
            else Packed(text, gsm7, perPart, end, parts + [text[pos..end]], done + [part], k + n)
  {
    hide Tokens, Flat, Spell;
    var tokens := Tokens(text, gsm7);
    var rest := tokens[k..];
    part := rest[..n];
    TokensSpell(text, gsm7);
    NoMoreTokens(gsm7);
    if n == 0 {
      NoneFits(rest, perPart);
      if rest != [] { assert rest[0] == tokens[k]; }
    } else {
      assert rest[n..] == tokens[k + n..];
      SpellOne(done, part);
      GreedyFirst(rest, n, perPart);
      Associative(done, [part], Greedy(rest[n..], perPart));
      FilledFit(tokens, k, n, perPart);
    }
  }

  lemma {:induction false} NoMoreTokens(gsm7: bool)
    ensures forall s: Bytes :: s != "" ==> Tokens(s, gsm7) != []
  {
  }

  lemma {:induction false} NoneFits(tokens: seq<Token>, perPart: nat)
    requires Fill(tokens, perPart) == 0 && tokens != []
    ensures tokens[0].units > perPart
  {
  }

  lemma {:induction false} GreedyFirst(tokens: seq<Token>, n: nat, perPart: nat)
    requires n == Fill(tokens, perPart) && n > 0
    ensures Greedy(tokens, perPart) == [tokens[..n]] + Greedy(tokens[n..], perPart)
  {
  }

  lemma {:induction false} PackAll(text: Bytes, gsm7: bool, perPart: nat, parts: seq<Bytes>, done: seq<seq<Token>>, k: nat)
    requires Packed(text, gsm7, perPart, |text|, parts, done, k)
    ensures parts == Parts(text, gsm7, perPart)
  {
    var tokens := Tokens(text, gsm7);
    assert text[|text|..] == [] && tokens[..k] == tokens;
    assert done + [] == done;
  }

  method SplitSms(text: Bytes, gsm7: bool, perPart: nat) returns (parts: seq<Bytes>)
    ensures parts == Parts(text, gsm7, perPart)
  {
    hide Tokens, Greedy, Spell, Packed, Filled, Parts;
    parts := [];
    var pos: nat := 0;
    ghost var done: seq<seq<Token>>, k: nat := [], 0;
    PackNone(text, gsm7, perPart);
    while pos < |text|
      invariant pos <= |text| && Packed(text, gsm7, perPart, pos, parts, done, k)
      decreases |text| - pos
    {
      var end, n := PartEnd(text, gsm7, perPart, pos);
      FilledEnd(text, gsm7, perPart, pos, end, n);
      ghost var part := PackOne(text, gsm7, perPart, pos, end, n, parts, done, k);
      if end == pos { return []; }
      parts := parts + [text[pos..end]];
      done := done + [part];
      k := k + n;
      pos := end;
    }
    PackAll(text, gsm7, perPart, parts, done, k);
  }

  lemma {:induction false} FilledEnd(text: Bytes, gsm7: bool, perPart: nat, pos: nat, end: nat, n: nat)
    requires pos <= |text| && Filled(text, gsm7, perPart, pos, end, n)
    ensures pos <= end <= |text|
  {
  }

  lemma {:induction false} FillFits(tokens: seq<Token>, room: nat, perPart: nat)
    requires room <= perPart && forall i :: 0 <= i < |tokens| ==> tokens[i].units >= 1
    ensures AllFit(tokens[..Fill(tokens, room)], perPart)
  {
    if tokens != [] && tokens[0].units <= room {
      FillFits(tokens[1..], room - tokens[0].units, perPart);
      var n := Fill(tokens, room);
      assert tokens[..n] == [tokens[0]] + tokens[1..][..n - 1];
    }
  }

  lemma {:induction false} FilledFit(tokens: seq<Token>, k: nat, n: nat, perPart: nat)
    requires k <= |tokens| && n == Fill(tokens[k..], perPart) && AllFit(tokens[..k], perPart)
    requires forall i :: 0 <= i < |tokens| ==> tokens[i].units >= 1
    ensures AllFit(tokens[..k + n], perPart)
  {
    FillFits(tokens[k..], perPart, perPart);
    assert tokens[..k + n] == tokens[..k] + tokens[k..][..n];
  }

  lemma {:induction false} SpellOne(split: seq<seq<Token>>, part: seq<Token>)
    ensures Spell(split + [part]) == Spell(split) + [Flat(part)]
  {
  }

  // ----- what split_sms promises -----

  lemma {:induction false} JoinSpell(split: seq<seq<Token>>)
    ensures Join(Spell(split)) == Flat(Glue(split))
  {
    if split != [] {
      JoinSpell(split[1..]);
      FlatAppends(split[0], Glue(split[1..]));
    }
  }

  // It fails exactly when some character alone costs more than a part may, so never from a limit of
  // two on; otherwise its parts are not empty, concatenate to the text, are cut at scanned character
  // boundaries within the limit, and no other such split has fewer parts.
  lemma {:induction false} SplitIsShortest(text: Bytes, gsm7: bool, perPart: nat)
    ensures text != "" ==> (Parts(text, gsm7, perPart) == [] <==> !AllFit(Tokens(text, gsm7), perPart))
    ensures perPart >= 2 ==> AllFit(Tokens(text, gsm7), perPart)
    ensures AllFit(Tokens(text, gsm7), perPart) ==>
              exists split :: IsSplit(split, Tokens(text, gsm7), perPart)
                              && Parts(text, gsm7, perPart) == Spell(split)
                              && forall other :: IsSplit(other, Tokens(text, gsm7), perPart) ==> |split| <= |other|
    ensures AllFit(Tokens(text, gsm7), perPart) ==> Join(Parts(text, gsm7, perPart)) == text
    ensures forall i :: 0 <= i < |Parts(text, gsm7, perPart)| ==> Parts(text, gsm7, perPart)[i] != ""
  {
    var tokens := Tokens(text, gsm7);
    TokensSpell(text, gsm7);
    if AllFit(tokens, perPart) {
      var split := Greedy(tokens, perPart);
      GreedyIsSplit(tokens, perPart);
      forall other | IsSplit(other, tokens, perPart) ensures |split| <= |other| {
        GreedyIsShortest(other, tokens, perPart);
      }
      JoinSpell(split);
      forall i | 0 <= i < |split| ensures Flat(split[i]) != "" {
        PartTokens(split, i, 0);
      }
    }
  }

  // The tokens of a part are tokens of the text, so a part is not empty.
  lemma {:induction false} PartTokens(split: seq<seq<Token>>, i: nat, j: nat)
    requires i < |split| && j < |split[i]|
    ensures split[i][j] in Glue(split)
  {
    if i > 0 {
      PartTokens(split[1..], i - 1, j);
      assert split[1..][i - 1] == split[i];
    }
  }

  // ----- how many parts a text of at most 300 bytes needs -----

  // Bytes per cost: a character that costs two units has four bytes outside GSM 7-bit, and a
  // character that costs one has at least one byte.
  lemma {:induction false} CostIsBytes(tokens: seq<Token>, gsm7: bool)
    requires forall i :: 0 <= i < |tokens| ==> tokens[i].bytes != [] && (gsm7 || tokens[i].units <= |tokens[i].bytes|)
    requires forall i :: 0 <= i < |tokens| ==> tokens[i].units <= 2
    ensures Cost(tokens) <= if gsm7 then 2 * |Flat(tokens)| else |Flat(tokens)|
  {
    if tokens != [] { CostIsBytes(tokens[1..], gsm7); }
  }

  predicate Costed(tokens: seq<Token>, gsm7: bool) {
    forall i :: 0 <= i < |tokens| ==>
      tokens[i].bytes != [] && 1 <= tokens[i].units <= 2 && (gsm7 || tokens[i].units <= |tokens[i].bytes|)
  }

  lemma {:induction false} TokensCosted(text: Bytes, gsm7: bool)
    ensures Costed(Tokens(text, gsm7), gsm7)
    decreases |text|
  {
    if text != [] {
      TokensCosted(text[|FirstToken(text, gsm7).bytes|..], gsm7);
    }
  }

  // Each part but the last costs at least the limit less one, hence takes that many bytes (half as
  // many in GSM 7-bit, where a byte costs up to two).
  lemma {:induction false} GreedyCount(tokens: seq<Token>, gsm7: bool, perPart: nat, share: nat)
    requires Costed(tokens, gsm7) && perPart >= 2
    requires share >= 1 && (if gsm7 then 2 * share <= perPart else share < perPart)
    ensures (|Greedy(tokens, perPart)| - 1) * share <= |Flat(tokens)|
    decreases |tokens|
  {
    hide Flat, Cost, Greedy, Fill, Costed;
    NothingToSplit(perPart);
    CostedFits(tokens, gsm7, perPart);
    GreedyStep(tokens, perPart);
    if tokens == [] {
      assert -1 * share <= 0;
    } else {
      var n := Fill(tokens, perPart);
      CostedRest(tokens, n, gsm7);
      GreedyCount(tokens[n..], gsm7, perPart, share);
      assert tokens == tokens[..n] + tokens[n..];
      FlatAppends(tokens[..n], tokens[n..]);
      if n < |tokens| {
        FirstShare(tokens, gsm7, perPart, share);
        OneShareMore(|Greedy(tokens[n..], perPart)|, share, |Flat(tokens[n..])|, |Flat(tokens[..n])|);
      } else {
        assert tokens[n..] == [];
      }
    }
  }

  lemma {:induction false} CostedFits(tokens: seq<Token>, gsm7: bool, perPart: nat)
    requires Costed(tokens, gsm7) && perPart >= 2
    ensures AllFit(tokens, perPart)
  {
  }

  lemma {:induction false} CostedRest(tokens: seq<Token>, n: nat, gsm7: bool)
    requires Costed(tokens, gsm7) && n <= |tokens|
    ensures Costed(tokens[n..], gsm7) && Costed(tokens[..n], gsm7)
  {
  }

  lemma {:induction false} FirstShare(tokens: seq<Token>, gsm7: bool, perPart: nat, share: nat)
    requires Costed(tokens, gsm7) && perPart >= 2 && (if gsm7 then 2 * share <= perPart else share < perPart)
    requires Fill(tokens, perPart) < |tokens|
    ensures share <= |Flat(tokens[..Fill(tokens, perPart)])|
  {
    hide Flat, Cost, Fill;
    var n := Fill(tokens, perPart);
    FillIsMaximal(tokens, perPart);
    CostIsBytes(tokens[..n], gsm7);
  }

  lemma {:induction false} NothingToSplit(perPart: nat)
    ensures Greedy([], perPart) == [] && |Flat([])| == 0
  {
  }

  lemma {:induction false} OneShareMore(parts: int, share: nat, rest: nat, first: nat)
    requires (parts - 1) * share <= rest && share <= first
    ensures parts * share <= rest + first
  {
    assert parts * share == (parts - 1) * share + share;
  }

  lemma {:induction false} PartCount(text: Bytes, gsm7: bool)
    requires |text| <= 300
    ensures |Parts(text, gsm7, if gsm7 then 152 else 66)| <= if gsm7 then 4 else 5
  {
    TokensCosted(text, gsm7);
    TokensSpell(text, gsm7);
    var perPart, share := (if gsm7 then 152 else 66), (if gsm7 then 76 else 65);
    GreedyCount(Tokens(text, gsm7), gsm7, perPart, share);
  }

  // ----- encode_with -----

  predicate BasicGsm7(text: Bytes) {
    forall i :: 0 <= i < |text| ==> text[i] == '\r' || text[i] == '\n' || 0x20 <= text[i] as int < 0x7F
  }

  predicate IsValidPhone(phone: Bytes) {
    && 3 <= |phone| <= 20
    && forall i :: 0 <= i < |phone| ==> (i == 0 && phone[i] == '+') || IsDigit(phone[i])
  }

  datatype Segment = Segment(text: Bytes, reference: nat, part: nat, total: nat)
  datatype Encoded = Refused | Encoded(segments: seq<Segment>)

  function Cut(text: Bytes): seq<Bytes> {
    var gsm7 := BasicGsm7(text);
    var parts := Parts(text, gsm7, if gsm7 then 160 else 70);
    if |parts| > 1 then Parts(text, gsm7, if gsm7 then 152 else 66) else parts
  }

  function Numbered(parts: seq<Bytes>, reference: nat): (r: seq<Segment>)
    ensures |r| == |parts|
    ensures forall i :: 0 <= i < |r| ==>
              r[i] == Segment(CString(parts[i]), reference, if reference > 0 then i + 1 else 0, if reference > 0 then |parts| else 0)
  {
    NumberedUpTo(parts, reference, |parts|)
  }

  function NumberedUpTo(parts: seq<Bytes>, reference: nat, n: nat): (r: seq<Segment>)
    requires n <= |parts|
    ensures |r| == n
    ensures forall i :: 0 <= i < n ==>
              r[i] == Segment(CString(parts[i]), reference, if reference > 0 then i + 1 else 0, if reference > 0 then |parts| else 0)
  {
    if n == 0 then []
    else
      NumberedUpTo(parts, reference, n - 1) +
      [Segment(CString(parts[n - 1]), reference, if reference > 0 then n else 0, if reference > 0 then |parts| else 0)]
  }

  // The codec behind encodePDU: which segments it takes.
  type Codec = Segment -> bool

  predicate AllTaken(codec: Codec, segments: seq<Segment>) {
    forall i :: 0 <= i < |segments| ==> codec(segments[i])
  }

  // encode_with: refused are a bad number, an empty text, one of more than 300 bytes, and one of which
  // the codec does not take every part.
  method EncodeText(codec: Codec, phoneRaw: Bytes, textRaw: Bytes, concatReference: nat) returns (out: Encoded)
    requires concatReference < 0x1_0000
    ensures var text := Trim(textRaw);
            var segments := Numbered(Cut(text), if |Cut(text)| > 1 then (if concatReference > 0 then concatReference else 1) else 0);
            out == if !IsValidPhone(Trim(phoneRaw)) || text == "" || |text| > 300 || exists k :: 0 <= k < |segments| && !codec(segments[k])
                   then Refused
                   else Encoded(segments)
  {
    hide Parts, Trim, BasicGsm7, IsValidPhone, Numbered;
    var phone := TrimBytes(phoneRaw);
    var text := TrimBytes(textRaw);
    if !IsValidPhone(phone) || text == "" || |text| > 300 { return Refused; }
    var gsm7 := BasicGsm7(text);
    var parts := SplitSms(text, gsm7, if gsm7 then 160 else 70);
    if |parts| > 1 {
      parts := SplitSms(text, gsm7, if gsm7 then 152 else 66);
    }
    CutIsWhole(text);
    if parts == [] || |parts| > 255 {
      return Refused;
    }
    var reference := if |parts| > 1 then (if concatReference > 0 then concatReference else 1) else 0;
    out := EncodeParts(codec, parts, reference);
  }

  method EncodeParts(codec: Codec, parts: seq<Bytes>, reference: nat) returns (out: Encoded)
    ensures out == if AllTaken(codec, Numbered(parts, reference)) then Encoded(Numbered(parts, reference)) else Refused
  {
    hide CString, NumberedUpTo;
    ghost var all := Numbered(parts, reference);
    var segments: seq<Segment> := [];
    for i := 0 to |parts|
      invariant segments == all[..i] && forall j :: 0 <= j < i ==> codec(all[j])
    {
      var total := if reference > 0 then |parts| else 0;
      var part := if reference > 0 then i + 1 else 0;
      var segment := Segment(CString(parts[i]), reference, part, total);
      assert segment == all[i];
      if !codec(segment) { return Refused; }
      segments := segments + [segment];
    }
    assert segments == all;
    return Encoded(segments);
  }

  // The parts of an accepted text: between one and five, never empty, and concatenating to the text.
  lemma {:induction false} CutIsWhole(text: Bytes)
    requires 0 < |text| <= 300
    ensures 1 <= |Cut(text)| <= 5 && Join(Cut(text)) == text
    ensures forall i :: 0 <= i < |Cut(text)| ==> Cut(text)[i] != ""
  {
    var gsm7 := BasicGsm7(text);
    SplitIsShortest(text, gsm7, if gsm7 then 160 else 70);
    SplitIsShortest(text, gsm7, if gsm7 then 152 else 66);
    PartCount(text, gsm7);
  }
}
