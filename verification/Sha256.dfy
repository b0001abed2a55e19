// SHA-256 (FIPS 180-4) and HMAC (RFC 2104) as the standards define them, for core/src/crypto.cpp.
module Sha256 {
  type Word = bv32
  type Octet = bv8
  type Octets = seq<Octet>

  const TWO_64 := 0x1_0000_0000_0000_0000

  // The round constants, in the eight rows of the source.
  const K: seq<seq<Word>> := [
    [0x428a2f98, 0x71374491, 0xb5c0fbcf, 0xe9b5dba5, 0x3956c25b, 0x59f111f1, 0x923f82a4, 0xab1c5ed5],
    [0xd807aa98, 0x12835b01, 0x243185be, 0x550c7dc3, 0x72be5d74, 0x80deb1fe, 0x9bdc06a7, 0xc19bf174],
    [0xe49b69c1, 0xefbe4786, 0x0fc19dc6, 0x240ca1cc, 0x2de92c6f, 0x4a7484aa, 0x5cb0a9dc, 0x76f988da],
    [0x983e5152, 0xa831c66d, 0xb00327c8, 0xbf597fc7, 0xc6e00bf3, 0xd5a79147, 0x06ca6351, 0x14292967],
    [0x27b70a85, 0x2e1b2138, 0x4d2c6dfc, 0x53380d13, 0x650a7354, 0x766a0abb, 0x81c2c92e, 0x92722c85],
    [0xa2bfe8a1, 0xa81a664b, 0xc24b8b70, 0xc76c51a3, 0xd192e819, 0xd6990624, 0xf40e3585, 0x106aa070],
    [0x19a4c116, 0x1e376c08, 0x2748774c, 0x34b0bcb5, 0x391c0cb3, 0x4ed8aa4a, 0x5b9cca4f, 0x682e6ff3],
    [0x748f82ee, 0x78a5636f, 0x84c87814, 0x8cc70208, 0x90befffa, 0xa4506ceb, 0xbef9a3f7, 0xc67178f2]]

  const INITIAL := Vars(0x6a09e667, 0xbb67ae85, 0x3c6ef372, 0xa54ff53a, 0x510e527f, 0x9b05688c, 0x1f83d9ab, 0x5be0cd19)

  function Constant(t: nat): Word
    requires t < 64
  {
    K[t / 8][t % 8]
  }

  // Addition modulo 2 to the 32.
  function Add(x: Word, y: Word): Word { x + y }

  function Sum4(a: Word, b: Word, c: Word, d: Word): Word { a + b + c + d }

  // ----- section 4.1.2: the functions -----

  function Ch(x: Word, y: Word, z: Word): Word { (x & y) ^ (!x & z) }

  function Maj(x: Word, y: Word, z: Word): Word { (x & y) ^ (x & z) ^ (y & z) }

  function BigSigma0(x: Word): Word { x.RotateRight(2) ^ x.RotateRight(13) ^ x.RotateRight(22) }

  function BigSigma1(x: Word): Word { x.RotateRight(6) ^ x.RotateRight(11) ^ x.RotateRight(25) }

  function SmallSigma0(x: Word): Word { x.RotateRight(7) ^ x.RotateRight(18) ^ (x >> 3) }

  function SmallSigma1(x: Word): Word { x.RotateRight(17) ^ x.RotateRight(19) ^ (x >> 10) }

  // ----- section 6.2.2: one block -----

  datatype Vars = Vars(a: Word, b: Word, c: Word, d: Word, e: Word, f: Word, g: Word, h: Word)

  function BigEndian(b0: Octet, b1: Octet, b2: Octet, b3: Octet): Word {
    ((b0 as Word) << 24) | ((b1 as Word) << 16) | ((b2 as Word) << 8) | (b3 as Word)
  }

  function NextWord(w2: Word, w7: Word, w15: Word, w16: Word): Word {
    Sum4(SmallSigma1(w2), w7, SmallSigma0(w15), w16)
  }

  // The message schedule, by its recurrence.
  function W(block: Octets, t: nat): Word
    requires |block| == 64 && t < 64
  {
    if t < 16 then BigEndian(block[t * 4], block[t * 4 + 1], block[t * 4 + 2], block[t * 4 + 3])
    else NextWord(W(block, t - 2), W(block, t - 7), W(block, t - 15), W(block, t - 16))
  }

  function T1(e: Word, f: Word, g: Word, h: Word, k: Word, w: Word): Word {
    Add(Add(Add(Add(h, BigSigma1(e)), Ch(e, f, g)), k), w)
  }

  function T2(a: Word, b: Word, c: Word): Word {
    Add(BigSigma0(a), Maj(a, b, c))
  }

  function Round(v: Vars, k: Word, w: Word): Vars {
    var t1 := T1(v.e, v.f, v.g, v.h, k, w);
    var t2 := T2(v.a, v.b, v.c);
    Vars(Add(t1, t2), v.a, v.b, v.c, Add(v.d, t1), v.e, v.f, v.g)
  }

  function Rounds(block: Octets, v: Vars, t: nat): Vars
    requires |block| == 64 && t <= 64
  {
    if t == 0 then v else Round(Rounds(block, v, t - 1), Constant(t - 1), W(block, t - 1))
  }

  function Sum(u: Vars, v: Vars): Vars {
    Vars(Add(u.a, v.a), Add(u.b, v.b), Add(u.c, v.c), Add(u.d, v.d), Add(u.e, v.e), Add(u.f, v.f), Add(u.g, v.g), Add(u.h, v.h))
  }

  function Compress(v: Vars, block: Octets): Vars
    requires |block| == 64
  {
    Sum(v, Rounds(block, v, 64))
  }

  // The hash values after whole blocks.
  function Fold(m: Octets): Vars
    requires |m| % 64 == 0
  {
    if m == [] then INITIAL else Compress(Fold(m[..|m| - 64]), m[|m| - 64..])
  }

  // Each block starts from the hash values of the one before, and what its rounds give is added to them.
  lemma {:induction false} BlocksChain(m: Octets, block: Octets)
    requires |m| % 64 == 0 && |block| == 64
    ensures var v, after := Fold(m), Fold(m + block);
            var r := Rounds(block, v, 64);
            after == Vars(Add(v.a, r.a), Add(v.b, r.b), Add(v.c, r.c), Add(v.d, r.d), Add(v.e, r.e), Add(v.f, r.f), Add(v.g, r.g), Add(v.h, r.h))
  {
    hide Rounds, Add;
    assert (m + block)[..|m|] == m && (m + block)[|m|..] == block;
  }

  // ----- section 5.1.1: padding -----

  function Zeros(n: nat): (r: Octets)
    ensures |r| == n
  {
    if n == 0 then [] else Zeros(n - 1) + [0]
  }

  // The least number of zero bytes that leave room for the length in the last block.
  function ZeroCount(n: nat): (z: nat)
    ensures z < 64 && (n + 1 + z) % 64 == 56
  {
    if n % 64 <= 55 then 55 - n % 64 else 119 - n % 64
  }

  function Power256(i: nat): (r: nat)
    ensures r > 0
  {
    if i == 0 then 1 else 256 * Power256(i - 1)
  }

  function LengthByte(bits: nat, i: nat): Octet
    requires i < 8
  {
    (bits / Power256(7 - i) % 256) as Octet
  }

  function LengthBytes(bits: nat, n: nat): (r: Octets)
    requires n <= 8
    ensures |r| == n
  {
    if n == 0 then [] else LengthBytes(bits, n - 1) + [LengthByte(bits, n - 1)]
  }

  lemma {:induction false} PaddedSize(n: nat)
    ensures (n + 1 + ZeroCount(n) + 8) % 64 == 0
  {
    var k := n + 1 + ZeroCount(n);
    assert k == k / 64 * 64 + 56;
  }

  // The length is that of the message in bits; the field is 64 bits wide.
  function Padded(m: Octets): (r: Octets)
    ensures |r| % 64 == 0
  {
    hide ZeroCount, Zeros, LengthBytes;
    PaddedSize(|m|);
    m + [0x80] + Zeros(ZeroCount(|m|)) + LengthBytes(8 * |m| % TWO_64, 8)
  }

  function WordOctets(x: Word): Octets {
    [(x >> 24) as Octet, ((x >> 16) & 0xFF) as Octet, ((x >> 8) & 0xFF) as Octet, (x & 0xFF) as Octet]
  }

  function Digest(v: Vars): (r: Octets)
    ensures |r| == 32
  {
    WordOctets(v.a) + WordOctets(v.b) + WordOctets(v.c) + WordOctets(v.d) +
    WordOctets(v.e) + WordOctets(v.f) + WordOctets(v.g) + WordOctets(v.h)
  }

  function Hash(m: Octets): (r: Octets)
    ensures |r| == 32
  {
    Digest(Fold(Padded(m)))
  }

  // ----- HMAC -----

  function Xor(a: Octet, b: Octet): Octet { a ^ b }

  function Xored(s: Octets, x: Octet): (r: Octets)
    ensures |r| == |s| && forall i :: 0 <= i < |s| ==> r[i] == Xor(s[i], x)
  {
    hide Xor;
    if s == [] then []
    else
      var n := |s| - 1;
      Xored(s[..n], x) + [Xor(s[n], x)]
  }

  function KeyBlock(key: Octets): (r: Octets)
    ensures |r| == 64
  {
    if |key| > 64 then Hash(key) + Zeros(32) else key + Zeros(64 - |key|)
  }

  function Hmac(key: Octets, text: Octets): Octets {
    Hash(Xored(KeyBlock(key), 0x5c) + Hash(Xored(KeyBlock(key), 0x36) + text))
  }

  lemma {:induction false} ZerosAreZero(n: nat)
    ensures forall i :: 0 <= i < n ==> Zeros(n)[i] == 0
  {
    if n > 0 { ZerosAreZero(n - 1); }
  }

  // The two masks of RFC 2104: each byte of the key, or of its digest if it is longer than a block, and
  // zeros behind it, against 0x36 inside and 0x5c outside.
  lemma {:induction false} HmacIs(key: Octets, text: Octets) returns (inner: Octets, outer: Octets)
    ensures |inner| == |outer| == 64 && Hmac(key, text) == Hash(outer + Hash(inner + text))
    ensures var k := if |key| > 64 then Hash(key) else key;
            forall i :: 0 <= i < 64 ==>
              && inner[i] == (if i < |k| then k[i] else 0) ^ 0x36
              && outer[i] == (if i < |k| then k[i] else 0) ^ 0x5c
  {
    hide Hash, Xored, Zeros;
    inner, outer := Xored(KeyBlock(key), 0x36), Xored(KeyBlock(key), 0x5c);
    ZerosAreZero(if |key| > 64 then 32 else 64 - |key|);
  }
}
