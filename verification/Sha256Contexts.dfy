// The struct Sha256Ctx of core/src/crypto.cpp: hash values, a 64-byte buffer and a byte count, all
// updated in place, against the one-shot definition of Sha256.
module Sha256Contexts {
  import opened Sha256
  import Text

  // A rotation as two shifts.
  lemma {:induction false} Rotates(x: Word)
    ensures (x >> 2) | (x << 30) == x.RotateRight(2) && (x >> 13) | (x << 19) == x.RotateRight(13)
    ensures (x >> 22) | (x << 10) == x.RotateRight(22) && (x >> 6) | (x << 26) == x.RotateRight(6)
    ensures (x >> 11) | (x << 21) == x.RotateRight(11) && (x >> 25) | (x << 7) == x.RotateRight(25)
    ensures (x >> 7) | (x << 25) == x.RotateRight(7) && (x >> 18) | (x << 14) == x.RotateRight(18)
    ensures (x >> 17) | (x << 15) == x.RotateRight(17) && (x >> 19) | (x << 13) == x.RotateRight(19)
  {
  }

  lemma {:induction false} SmallSigma0Rotates(x: Word)
    ensures ((x >> 7) | (x << 25)) ^ ((x >> 18) | (x << 14)) ^ (x >> 3) == SmallSigma0(x)
  {
    Rotates(x);
  }

  lemma {:induction false} SmallSigma1Rotates(x: Word)
    ensures ((x >> 17) | (x << 15)) ^ ((x >> 19) | (x << 13)) ^ (x >> 10) == SmallSigma1(x)
  {
    Rotates(x);
  }

  lemma {:induction false} BigSigma0Rotates(x: Word)
    ensures ((x >> 2) | (x << 30)) ^ ((x >> 13) | (x << 19)) ^ ((x >> 22) | (x << 10)) == BigSigma0(x)
  {
    Rotates(x);
  }

  lemma {:induction false} BigSigma1Rotates(x: Word)
    ensures ((x >> 6) | (x << 26)) ^ ((x >> 11) | (x << 21)) ^ ((x >> 25) | (x << 7)) == BigSigma1(x)
  {
    Rotates(x);
  }

  // The source adds the terms of the schedule in another order than the standard.
  lemma {:induction false} SumOrder(a: Word, b: Word, c: Word, d: Word)
    ensures Sum4(a, b, c, d) == Sum4(d, c, b, a)
  {
  }

  method ScheduleStep(w2: Word, w7: Word, w15: Word, w16: Word) returns (r: Word)
    ensures r == NextWord(w2, w7, w15, w16)
  {
    hide Sum4, SmallSigma0, SmallSigma1;
    SmallSigma0Rotates(w15);
    SmallSigma1Rotates(w2);
    var s0 := ((w15 >> 7) | (w15 << 25)) ^ ((w15 >> 18) | (w15 << 14)) ^ (w15 >> 3);
    var s1 := ((w2 >> 17) | (w2 << 15)) ^ ((w2 >> 19) | (w2 << 13)) ^ (w2 >> 10);
    SumOrder(w16, s0, w7, s1);
    r := Sum4(w16, s0, w7, s1);
  }

  method FirstSum(e: Word, f: Word, g: Word, hh: Word, k: Word, w: Word) returns (t1: Word)
    ensures t1 == T1(e, f, g, hh, k, w)
  {
    hide Add, BigSigma1;
    BigSigma1Rotates(e);
    var s1 := ((e >> 6) | (e << 26)) ^ ((e >> 11) | (e << 21)) ^ ((e >> 25) | (e << 7));
    var ch := (e & f) ^ (!e & g);
    t1 := Add(Add(Add(Add(hh, s1), ch), k), w);
  }

  method SecondSum(a: Word, b: Word, c: Word) returns (t2: Word)
    ensures t2 == T2(a, b, c)
  {
    hide Add, BigSigma0;
    BigSigma0Rotates(a);
    var s0 := ((a >> 2) | (a << 30)) ^ ((a >> 13) | (a << 19)) ^ ((a >> 22) | (a << 10));
    var maj := (a & b) ^ (a & c) ^ (b & c);
    t2 := Add(s0, maj);
  }

  // The schedule, in place: words 0 to 15 are the block's.
  method Expand(block: Octets, w: array<Word>)
    requires |block| == 64 && w.Length == 64
    modifies w
    ensures forall t :: 0 <= t < 64 ==> w[t] == W(block, t)
  {
    hide NextWord, BigEndian;
    for i := 0 to 16
      invariant forall t :: 0 <= t < i ==> w[t] == W(block, t)
    {
      w[i] := BigEndian(block[i * 4], block[i * 4 + 1], block[i * 4 + 2], block[i * 4 + 3]);
    }
    for i := 16 to 64
      invariant forall t :: 0 <= t < i ==> w[t] == W(block, t)
    {
      w[i] := ScheduleStep(w[i - 2], w[i - 7], w[i - 15], w[i - 16]);
    }
  }

  // The 64 rounds over the eight working variables.
  method RunRounds(block: Octets, w: array<Word>, v: Vars) returns (r: Vars)
    requires |block| == 64 && w.Length == 64 && forall t :: 0 <= t < 64 ==> w[t] == W(block, t)
    ensures r == Rounds(block, v, 64)
  {
    hide W, Constant, T1, T2, Add;
    var a, b, c, d := v.a, v.b, v.c, v.d;
    var e, f, g, hh := v.e, v.f, v.g, v.h;
    for i := 0 to 64
      invariant Vars(a, b, c, d, e, f, g, hh) == Rounds(block, v, i)
    {
      var t1 := FirstSum(e, f, g, hh, Constant(i), w[i]);
      var t2 := SecondSum(a, b, c);
      hh, g, f, e := g, f, e, Add(d, t1);
      d, c, b, a := c, b, a, Add(t1, t2);
    }
    r := Vars(a, b, c, d, e, f, g, hh);
  }

  class Sha256Ctx {
    const h: array<Word>
    var total: nat
    const buf: array<Octet>
    var bufLen: nat

    // All bytes taken in so far.
    ghost var message: Octets

    ghost function Values(): Vars
      reads this, h
      requires h.Length == 8
    {
      Vars(h[0], h[1], h[2], h[3], h[4], h[5], h[6], h[7])
    }

    ghost predicate Valid()
      reads this, h, buf
    {
      && h.Length == 8 && buf.Length == 64 && bufLen < 64
      && Holds(message, Values(), buf[..bufLen])
      && total == |message| % TWO_64
    }

    constructor ()
      ensures Valid() && fresh(h) && fresh(buf) && message == []
    {
      h := new Word[8];
      buf := new Octet[64];
      total, bufLen, message := 0, 0, [];
      new;
      h[0], h[1], h[2], h[3] := 0x6a09e667, 0xbb67ae85, 0x3c6ef372, 0xa54ff53a;
      h[4], h[5], h[6], h[7] := 0x510e527f, 0x9b05688c, 0x1f83d9ab, 0x5be0cd19;
    }

    method Block(block: Octets)
      requires h.Length == 8 && |block| == 64
      modifies h
      ensures Values() == Compress(old(Values()), block)
    {
      hide W, Rounds, Sum;
      var w := new Word[64];
      Expand(block, w);
      var v := RunRounds(block, w, Vars(h[0], h[1], h[2], h[3], h[4], h[5], h[6], h[7]));
      AddValues(v);
    }

    method AddValues(v: Vars)
      requires h.Length == 8
      modifies h
      ensures Values() == Sum(old(Values()), v)
    {
      hide Add;
      h[0], h[1], h[2], h[3] := Add(h[0], v.a), Add(h[1], v.b), Add(h[2], v.c), Add(h[3], v.d);
      h[4], h[5], h[6], h[7] := Add(h[4], v.e), Add(h[5], v.f), Add(h[6], v.g), Add(h[7], v.h);
    }

    // Whatever was taken in before, the data comes behind it.
    method Update(data: Octets)
      requires Valid()
      modifies this`total, this`bufLen, this`message, h, buf
      ensures Valid() && message == old(message) + data
    {
      hide Fold, Compress, Holds;
      TotalCount(|message|, |data|);
      total := (total + |data|) % TWO_64;
      message := message + data;
      var done := 0;
      assert old(message) + data[..0] == old(message);
      while done < |data|
        invariant done <= |data| && bufLen < 64 && message == old(message) + data && total == |message| % TWO_64
        invariant Holds(old(message) + data[..done], Values(), buf[..bufLen])
      {
        var take := 64 - bufLen;
        if take > |data| - done { take := |data| - done; }
        ghost var m := old(message) + data[..done];
        TakeIn(m, data[done..done + take]);
        assert m + data[done..done + take] == old(message) + data[..done + take];
        done := done + take;
      }
      assert data[..done] == data;
    }

    // One round of the loop: a chunk goes into the buffer, and a full buffer is a block.
    method TakeIn(ghost m: Octets, chunk: Octets)
      requires h.Length == 8 && buf.Length == 64 && bufLen + |chunk| <= 64
      requires Holds(m, Values(), buf[..bufLen])
      modifies this`bufLen, h, buf
      ensures bufLen < 64 && Holds(m + chunk, Values(), buf[..bufLen])
    {
      hide Fold, Compress, Holds;
      ghost var before := buf[..bufLen];
      Chunk(m, Values(), before, chunk);
      forall i | 0 <= i < |chunk| { buf[bufLen + i] := chunk[i]; }
      bufLen := bufLen + |chunk|;
      assert buf[..bufLen] == before + chunk;
      if bufLen == 64 {
        assert buf[..] == before + chunk;
        Block(buf[..]);
        bufLen := 0;
        assert buf[..0] == [];
      }
    }

    // The zero bytes of the padding, one at a time.
    method PadZeros(ghost n: nat)
      requires Valid() && |message| == n + 1
      modifies this`total, this`bufLen, this`message, h, buf
      ensures Valid() && message == old(message) + Zeros(ZeroCount(n))
    {
      hide Holds, Zeros;
      ghost var zeros, m := 0, message;
      ZerosNone();
      BufferLength(message, Values(), buf[..bufLen]);
      while bufLen != 56
        invariant Valid() && zeros <= ZeroCount(n) && message == m + Zeros(zeros)
        invariant bufLen == (n + 1 + zeros) % 64
        decreases ZeroCount(n) - zeros
      {
        ZeroCountIsLeast(n, zeros);
        ZerosNext(zeros);
        Text.Associative(m, Zeros(zeros), [0]);
        Update([0]);
        zeros := zeros + 1;
        BufferLength(message, Values(), buf[..bufLen]);
      }
      ZeroCountIsLeast(n, zeros);
    }

    method Finish() returns (out: Octets)
      requires Valid()
      modifies this`total, this`bufLen, this`message, h, buf
      ensures out == Hash(old(message))
    {
      hide Fold, Zeros, LengthBytes, Holds, WordOctets, ZeroCount;
      ghost var m := message;
      var bits := total * 8 % TWO_64;
      BitCount(|m|);
      Update([0x80]);
      PadZeros(|m|);
      var lengthBytes := BytesOfLength(bits);
      Update(lengthBytes);
      assert message == Padded(m);
      WholeBlocks(message, Values(), buf[..bufLen]);
      out := WordOctets(h[0]) + WordOctets(h[1]) + WordOctets(h[2]) + WordOctets(h[3]) +
             WordOctets(h[4]) + WordOctets(h[5]) + WordOctets(h[6]) + WordOctets(h[7]);
    }
  }

  method BytesOfLength(bits: nat) returns (r: Octets)
    ensures r == LengthBytes(bits, 8)
  {
    hide LengthByte;
    r := [];
    for i := 0 to 8
      invariant r == LengthBytes(bits, i)
    {
      r := r + [LengthByte(bits, i)];
    }
  }

  // ----- the state against the bytes taken in -----

  // The whole blocks are in the hash values, the rest is in the buffer.
  ghost predicate Holds(m: Octets, values: Vars, rest: Octets) {
    && |rest| == |m| % 64
    && values == Fold(m[..|m| - |rest|]) && rest == m[|m| - |rest|..]
  }

  // A chunk that fills the buffer completes a block; a shorter one stays in the buffer.
  lemma {:induction false} Chunk(m: Octets, values: Vars, rest: Octets, chunk: Octets)
    requires Holds(m, values, rest) && |rest| + |chunk| <= 64
    ensures |rest| + |chunk| < 64 ==> Holds(m + chunk, values, rest + chunk)
    ensures |rest| + |chunk| == 64 ==> Holds(m + chunk, Compress(values, rest + chunk), [])
  {
    hide Compress;
    var k := |m| - |rest|;
    var all := m + chunk;
    assert all[..k] == m[..k] && all[k..] == rest + chunk;
    if |rest| + |chunk| == 64 {
      assert all[..|all|] == all && all[|all| - 64..] == rest + chunk && all[..|all| - 64] == m[..k];
      assert |all| % 64 == 0 && all != [];
      assert Fold(all) == Compress(Fold(m[..k]), rest + chunk);
    } else {
      assert |all| % 64 == |rest| + |chunk|;
    }
  }

  lemma {:induction false} BufferLength(m: Octets, values: Vars, rest: Octets)
    requires Holds(m, values, rest)
    ensures |rest| == |m| % 64
  {
  }

  lemma {:induction false} WholeBlocks(m: Octets, values: Vars, rest: Octets)
    requires Holds(m, values, rest) && |m| % 64 == 0
    ensures values == Fold(m)
  {
    assert m[..|m|] == m;
  }

  lemma ZerosNone()
    ensures Zeros(0) == []
  {
  }

  lemma {:induction false} ZerosNext(n: nat)
    ensures Zeros(n + 1) == Zeros(n) + [0]
  {
  }

  // The loop of zero bytes stops after just as many as the standard asks for.
  lemma {:induction false} ZeroCountIsLeast(n: nat, z: nat)
    requires z <= ZeroCount(n)
    ensures (n + 1 + z) % 64 == 56 <==> z == ZeroCount(n)
  {
  }

  lemma {:induction false} BitCount(n: nat)
    ensures n % TWO_64 * 8 % TWO_64 == 8 * n % TWO_64
  {
    var q, r := n / TWO_64, n % TWO_64;
    var p, s := 8 * r / TWO_64, 8 * r % TWO_64;
    assert 8 * n == (p + 8 * q) * TWO_64 + s;
  }

  lemma {:induction false} TotalCount(a: nat, b: nat)
    ensures (a % TWO_64 + b) % TWO_64 == (a + b) % TWO_64
  {
    var q, r := a / TWO_64, a % TWO_64;
    var p, s := (r + b) / TWO_64, (r + b) % TWO_64;
    assert a + b == (p + q) * TWO_64 + s;
  }

  // ----- whole messages -----

  function Joined(chunks: seq<Octets>): Octets {
    if chunks == [] then [] else Joined(chunks[..|chunks| - 1]) + chunks[|chunks| - 1]
  }

  // However a message is cut into pieces, hashing them one after the other gives its digest.
  method HashChunks(chunks: seq<Octets>) returns (out: Octets)
    ensures out == Hash(Joined(chunks))
  {
    hide Hash;
    var ctx := new Sha256Ctx();
    for i := 0 to |chunks|
      invariant ctx.Valid() && fresh(ctx) && fresh(ctx.h) && fresh(ctx.buf) && ctx.message == Joined(chunks[..i])
    {
      assert chunks[..i + 1][..i] == chunks[..i];
      ctx.Update(chunks[i]);
    }
    assert chunks[..|chunks|] == chunks;
    out := ctx.Finish();
  }

  method HashBytes(data: Octets) returns (out: Octets)
    ensures out == Hash(data)
  {
    hide Hash;
    var ctx := new Sha256Ctx();
    ctx.Update(data);
    assert [] + data == data;
    out := ctx.Finish();
  }

  method HmacBytes(key: Octets, data: Octets) returns (out: Octets)
    ensures out == Hmac(key, data)
  {
    hide Hash, Xored, Zeros;
    var k := key + Zeros(if |key| > 64 then 0 else 64 - |key|);
    if |key| > 64 {
      var digest := HashBytes(key);
      k := digest + Zeros(32);
    }
    assert k == KeyBlock(key);
    var inner := new Sha256Ctx();
    inner.Update(Xored(k, 0x36));
    inner.Update(data);
    assert [] + Xored(k, 0x36) == Xored(k, 0x36);
    var digest := inner.Finish();
    var outer := new Sha256Ctx();
    outer.Update(Xored(k, 0x5c));
    outer.Update(digest);
    assert [] + Xored(k, 0x5c) == Xored(k, 0x5c);
    out := outer.Finish();
  }
}
