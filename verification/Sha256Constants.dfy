// Where the constants of SHA-256 come from (sections 4.2.2 and 5.3.3 of FIPS 180-4): the fractional
// parts of the cube roots of the first 64 primes and of the square roots of the first eight
// (core/src/crypto.cpp:10-22, core/src/crypto.cpp:35-39).
module Sha256Constants {
  import opened Sha256

  // ----- the first 64 primes -----

  const PRIMES: seq<seq<int>> := [
    [2, 3, 5, 7],
    [11, 13, 17, 19],
    [23, 29, 31, 37],
    [41, 43, 47, 53],
    [59, 61, 67, 71],
    [73, 79, 83, 89],
    [97, 101, 103, 107],
    [109, 113, 127, 131],
    [137, 139, 149, 151],
    [157, 163, 167, 173],
    [179, 181, 191, 193],
    [197, 199, 211, 223],
    [227, 229, 233, 239],
    [241, 251, 257, 263],
    [269, 271, 277, 281],
    [283, 293, 307, 311]]

  function Prime(t: nat): int
    requires t < 64
  {
    PRIMES[t / 4][t % 4]
  }

  ghost predicate IsPrime(n: int) {
    n >= 2 && forall d :: 2 <= d < n ==> n % d != 0
  }

  // A smaller prime up to 17 divides the number.
  predicate HasFactor(n: int) {
    || (2 < n && n % 2 == 0) || (3 < n && n % 3 == 0) || (5 < n && n % 5 == 0) || (7 < n && n % 7 == 0)
    || (11 < n && n % 11 == 0) || (13 < n && n % 13 == 0) || (17 < n && n % 17 == 0)
  }

  lemma {:induction false} MultipleOf(m: int, k: int, n: int)
    requires 2 <= m <= 18 && k >= 2 && n == m * k
    ensures HasFactor(n)
  {
    if m % 2 == 0 {
      Divides(2, m / 2, k, n);
    } else if m % 3 == 0 {
      Divides(3, m / 3, k, n);
    } else if m % 5 == 0 {
      Divides(5, m / 5, k, n);
    } else {
      Divides(m, 1, k, n);
    }
  }

  lemma {:induction false} Divides(q: int, j: int, k: int, n: int)
    requires q == 2 || q == 3 || q == 5 || q == 7 || q == 11 || q == 13 || q == 17
    requires j >= 1 && k >= 2 && n == q * j * k
    ensures HasFactor(n)
  {
    hide HasFactor;
    var x := j * k;
    assert x >= 2 by { assert j * k >= 1 * k; }
    assert n == q * x;
    if q == 2 {
      Has2(x);
    } else if q == 3 {
      Has3(x);
    } else if q == 5 {
      Has5(x);
    } else if q == 7 {
      Has7(x);
    } else if q == 11 {
      Has11(x);
    } else if q == 13 {
      Has13(x);
    } else {
      Has17(x);
    }
  }

  lemma {:induction false} Has2(x: int)
    requires x >= 2
    ensures HasFactor(2 * x)
  {
    assert (2 * x) % 2 == 0;
  }

  lemma {:induction false} Has3(x: int)
    requires x >= 2
    ensures HasFactor(3 * x)
  {
    assert (3 * x) % 3 == 0;
  }

  lemma {:induction false} Has5(x: int)
    requires x >= 2
    ensures HasFactor(5 * x)
  {
    assert (5 * x) % 5 == 0;
  }

  lemma {:induction false} Has7(x: int)
    requires x >= 2
    ensures HasFactor(7 * x)
  {
    assert (7 * x) % 7 == 0;
  }

  lemma {:induction false} Has11(x: int)
    requires x >= 2
    ensures HasFactor(11 * x)
  {
    assert (11 * x) % 11 == 0;
  }

  lemma {:induction false} Has13(x: int)
    requires x >= 2
    ensures HasFactor(13 * x)
  {
    assert (13 * x) % 13 == 0;
  }

  lemma {:induction false} Has17(x: int)
    requires x >= 2
    ensures HasFactor(17 * x)
  {
    assert (17 * x) % 17 == 0;
  }

  // A number below 19 times 19 is prime if none of the seven small primes divides it.
  lemma {:induction false} PrimeIf(n: int)
    requires 2 <= n < 361
    ensures IsPrime(n) <==> !HasFactor(n)
  {
    if !HasFactor(n) {
      forall d | 2 <= d < n ensures n % d != 0 {
        if n % d == 0 { Composite(n, d); }
      }
    }
  }

  lemma {:induction false} Composite(n: int, d: int)
    requires 2 <= d < n < 361 && n % d == 0
    ensures HasFactor(n)
  {
    var k := n / d;
    assert n == d * k;
    Product(d, k, d, 1);
    Product(19, 19, d, k);
    if d <= 18 {
      MultipleOf(d, k, n);
    } else {
      MultipleOf(k, d, n);
    }
  }

  lemma {:induction false} Product(a: int, b: int, c: int, d: int)
    ensures 0 <= a <= c && 0 <= b <= d ==> a * b <= c * d
  {
    if 0 <= a <= c && 0 <= b <= d { assert a * b <= a * d <= c * d; }
  }

  lemma {:induction false} Row0()
    ensures !HasFactor(2) && !HasFactor(3) && !HasFactor(5) && !HasFactor(7)
  {
  }

  lemma {:induction false} Row1()
    ensures !HasFactor(11) && !HasFactor(13) && !HasFactor(17) && !HasFactor(19)
  {
  }

  lemma {:induction false} Row2()
    ensures !HasFactor(23) && !HasFactor(29) && !HasFactor(31) && !HasFactor(37)
  {
  }

  lemma {:induction false} Row3()
    ensures !HasFactor(41) && !HasFactor(43) && !HasFactor(47) && !HasFactor(53)
  {
  }

  lemma {:induction false} Row4()
    ensures !HasFactor(59) && !HasFactor(61) && !HasFactor(67) && !HasFactor(71)
  {
  }

  lemma {:induction false} Row5()
    ensures !HasFactor(73) && !HasFactor(79) && !HasFactor(83) && !HasFactor(89)
  {
  }

  lemma {:induction false} Row6()
    ensures !HasFactor(97) && !HasFactor(101) && !HasFactor(103) && !HasFactor(107)
  {
  }

  lemma {:induction false} Row7()
    ensures !HasFactor(109) && !HasFactor(113) && !HasFactor(127) && !HasFactor(131)
  {
  }

  lemma {:induction false} Row8()
    ensures !HasFactor(137) && !HasFactor(139) && !HasFactor(149) && !HasFactor(151)
  {
  }

  lemma {:induction false} Row9()
    ensures !HasFactor(157) && !HasFactor(163) && !HasFactor(167) && !HasFactor(173)
  {
  }

  lemma {:induction false} Row10()
    ensures !HasFactor(179) && !HasFactor(181) && !HasFactor(191) && !HasFactor(193)
  {
  }

  lemma {:induction false} Row11()
    ensures !HasFactor(197) && !HasFactor(199) && !HasFactor(211) && !HasFactor(223)
  {
  }

  lemma {:induction false} Row12()
    ensures !HasFactor(227) && !HasFactor(229) && !HasFactor(233) && !HasFactor(239)
  {
  }

  lemma {:induction false} Row13()
    ensures !HasFactor(241) && !HasFactor(251) && !HasFactor(257) && !HasFactor(263)
  {
  }

  lemma {:induction false} Row14()
    ensures !HasFactor(269) && !HasFactor(271) && !HasFactor(277) && !HasFactor(281)
  {
  }

  lemma {:induction false} Row15()
    ensures !HasFactor(283) && !HasFactor(293) && !HasFactor(307) && !HasFactor(311)
  {
  }

  lemma {:induction false} NoneHasFactor(t: nat)
    requires t < 64
    ensures !HasFactor(Prime(t)) && 2 <= Prime(t) <= 311
  {
    hide HasFactor;
    match t / 4
    case 0 => Row0();
    case 1 => Row1();
    case 2 => Row2();
    case 3 => Row3();
    case 4 => Row4();
    case 5 => Row5();
    case 6 => Row6();
    case 7 => Row7();
    case 8 => Row8();
    case 9 => Row9();
    case 10 => Row10();
    case 11 => Row11();
    case 12 => Row12();
    case 13 => Row13();
    case 14 => Row14();
    case 15 => Row15();
  }

  // PRIMES lists primes, rising, from the first.
  lemma {:induction false} PrimesArePrime(t: nat)
    requires t < 64
    ensures IsPrime(Prime(t)) && Prime(0) == 2
    ensures t > 0 ==> Prime(t - 1) < Prime(t)
  {
    hide IsPrime, HasFactor, PRIMES;
    NoneHasFactor(t);
    PrimeIf(Prime(t));
    RowsRise(0);
    if t > 0 {
      RowsRise((t - 1) / 4);
      if t % 4 != 0 { assert t / 4 == (t - 1) / 4 && (t - 1) % 4 == t % 4 - 1; }
    }
  }

  lemma {:induction false} RowsRise(r: nat)
    requires r < 16
    ensures |PRIMES| == 16 && |PRIMES[r]| == 4 && PRIMES[0][0] == 2
    ensures PRIMES[r][0] < PRIMES[r][1] < PRIMES[r][2] < PRIMES[r][3]
    ensures r < 15 ==> PRIMES[r][3] < PRIMES[r + 1][0]
  {
  }

  // ----- the roots -----

  // The first 32 bits behind the point of the cube root of p, whose integer part is c.
  predicate IsCubeRoot(k: Word, p: int, c: int) {
    var low := c * 0x1_0000_0000 + k as int;
    low * low * low <= p * 0x1_0000_0000_0000_0000_0000_0000 < (low + 1) * (low + 1) * (low + 1)
  }

  // Each round constant is the one of its prime.
  lemma {:induction false} ConstantIsCubeRoot(t: nat) returns (c: int)
    requires t < 64
    ensures c * c * c <= Prime(t) < (c + 1) * (c + 1) * (c + 1)
    ensures IsCubeRoot(Constant(t), Prime(t), c)
  {
    hide IsCubeRoot, Prime, Constant;
    if t < 16 {
      c := Quarter0(t);
    } else if t < 32 {
      c := Quarter1(t);
    } else if t < 48 {
      c := Quarter2(t);
    } else {
      c := Quarter3(t);
    }
  }

  lemma {:induction false} Quarter0(t: nat) returns (c: int)
    requires 0 <= t < 16
    ensures c * c * c <= Prime(t) < (c + 1) * (c + 1) * (c + 1)
    ensures IsCubeRoot(Constant(t), Prime(t), c)
  {
    hide IsCubeRoot;
    match t / 4
    case 0 => c := 1; Roots0();
    case 1 => c := 2; Roots1();
    case 2 => c := if t < 9 then 2 else 3; Roots2();
    case 3 => c := 3; Roots3();
  }

  lemma {:induction false} Quarter1(t: nat) returns (c: int)
    requires 16 <= t < 32
    ensures c * c * c <= Prime(t) < (c + 1) * (c + 1) * (c + 1)
    ensures IsCubeRoot(Constant(t), Prime(t), c)
  {
    hide IsCubeRoot;
    match t / 4
    case 4 => c := if t < 18 then 3 else 4; Roots4();
    case 5 => c := 4; Roots5();
    case 6 => c := 4; Roots6();
    case 7 => c := if t < 30 then 4 else 5; Roots7();
  }

  lemma {:induction false} Quarter2(t: nat) returns (c: int)
    requires 32 <= t < 48
    ensures c * c * c <= Prime(t) < (c + 1) * (c + 1) * (c + 1)
    ensures IsCubeRoot(Constant(t), Prime(t), c)
  {
    hide IsCubeRoot;
    match t / 4
    case 8 => c := 5; Roots8();
    case 9 => c := 5; Roots9();
    case 10 => c := 5; Roots10();
    case 11 => c := if t < 47 then 5 else 6; Roots11();
  }

  lemma {:induction false} Quarter3(t: nat) returns (c: int)
    requires 48 <= t < 64
    ensures c * c * c <= Prime(t) < (c + 1) * (c + 1) * (c + 1)
    ensures IsCubeRoot(Constant(t), Prime(t), c)
  {
    hide IsCubeRoot;
    match t / 4
    case 12 => c := 6; Roots12();
    case 13 => c := 6; Roots13();
    case 14 => c := 6; Roots14();
    case 15 => c := 6; Roots15();
  }

  lemma {:induction false} Roots0()
    ensures IsCubeRoot(0x428a2f98, 2, 1) && IsCubeRoot(0x71374491, 3, 1)
    ensures IsCubeRoot(0xb5c0fbcf, 5, 1) && IsCubeRoot(0xe9b5dba5, 7, 1)
  {
  }

  lemma {:induction false} Roots1()
    ensures IsCubeRoot(0x3956c25b, 11, 2) && IsCubeRoot(0x59f111f1, 13, 2)
    ensures IsCubeRoot(0x923f82a4, 17, 2) && IsCubeRoot(0xab1c5ed5, 19, 2)
  {
  }

  lemma {:induction false} Roots2()
    ensures IsCubeRoot(0xd807aa98, 23, 2) && IsCubeRoot(0x12835b01, 29, 3)
    ensures IsCubeRoot(0x243185be, 31, 3) && IsCubeRoot(0x550c7dc3, 37, 3)
  {
  }

  lemma {:induction false} Roots3()
    ensures IsCubeRoot(0x72be5d74, 41, 3) && IsCubeRoot(0x80deb1fe, 43, 3)
    ensures IsCubeRoot(0x9bdc06a7, 47, 3) && IsCubeRoot(0xc19bf174, 53, 3)
  {
  }

  lemma {:induction false} Roots4()
    ensures IsCubeRoot(0xe49b69c1, 59, 3) && IsCubeRoot(0xefbe4786, 61, 3)
    ensures IsCubeRoot(0xfc19dc6, 67, 4) && IsCubeRoot(0x240ca1cc, 71, 4)
  {
  }

  lemma {:induction false} Roots5()
    ensures IsCubeRoot(0x2de92c6f, 73, 4) && IsCubeRoot(0x4a7484aa, 79, 4)
    ensures IsCubeRoot(0x5cb0a9dc, 83, 4) && IsCubeRoot(0x76f988da, 89, 4)
  {
  }

  lemma {:induction false} Roots6()
    ensures IsCubeRoot(0x983e5152, 97, 4) && IsCubeRoot(0xa831c66d, 101, 4)
    ensures IsCubeRoot(0xb00327c8, 103, 4) && IsCubeRoot(0xbf597fc7, 107, 4)
  {
  }

  lemma {:induction false} Roots7()
    ensures IsCubeRoot(0xc6e00bf3, 109, 4) && IsCubeRoot(0xd5a79147, 113, 4)
    ensures IsCubeRoot(0x6ca6351, 127, 5) && IsCubeRoot(0x14292967, 131, 5)
  {
  }

  lemma {:induction false} Roots8()
    ensures IsCubeRoot(0x27b70a85, 137, 5) && IsCubeRoot(0x2e1b2138, 139, 5)
    ensures IsCubeRoot(0x4d2c6dfc, 149, 5) && IsCubeRoot(0x53380d13, 151, 5)
  {
  }

  lemma {:induction false} Roots9()
    ensures IsCubeRoot(0x650a7354, 157, 5) && IsCubeRoot(0x766a0abb, 163, 5)
    ensures IsCubeRoot(0x81c2c92e, 167, 5) && IsCubeRoot(0x92722c85, 173, 5)
  {
  }

  lemma {:induction false} Roots10()
    ensures IsCubeRoot(0xa2bfe8a1, 179, 5) && IsCubeRoot(0xa81a664b, 181, 5)
    ensures IsCubeRoot(0xc24b8b70, 191, 5) && IsCubeRoot(0xc76c51a3, 193, 5)
  {
  }

  lemma {:induction false} Roots11()
    ensures IsCubeRoot(0xd192e819, 197, 5) && IsCubeRoot(0xd6990624, 199, 5)
    ensures IsCubeRoot(0xf40e3585, 211, 5) && IsCubeRoot(0x106aa070, 223, 6)
  {
  }

  lemma {:induction false} Roots12()
    ensures IsCubeRoot(0x19a4c116, 227, 6) && IsCubeRoot(0x1e376c08, 229, 6)
    ensures IsCubeRoot(0x2748774c, 233, 6) && IsCubeRoot(0x34b0bcb5, 239, 6)
  {
  }

  lemma {:induction false} Roots13()
    ensures IsCubeRoot(0x391c0cb3, 241, 6) && IsCubeRoot(0x4ed8aa4a, 251, 6)
    ensures IsCubeRoot(0x5b9cca4f, 257, 6) && IsCubeRoot(0x682e6ff3, 263, 6)
  {
  }

  lemma {:induction false} Roots14()
    ensures IsCubeRoot(0x748f82ee, 269, 6) && IsCubeRoot(0x78a5636f, 271, 6)
    ensures IsCubeRoot(0x84c87814, 277, 6) && IsCubeRoot(0x8cc70208, 281, 6)
  {
  }

  lemma {:induction false} Roots15()
    ensures IsCubeRoot(0x90befffa, 283, 6) && IsCubeRoot(0xa4506ceb, 293, 6)
    ensures IsCubeRoot(0xbef9a3f7, 307, 6) && IsCubeRoot(0xc67178f2, 311, 6)
  {
  }

  // The first 32 bits behind the point of the square root of p.
  predicate IsSquareRoot(h: Word, p: int, c: int) {
    var low := c * 0x1_0000_0000 + h as int;
    c * c <= p < (c + 1) * (c + 1) && low * low <= p * 0x1_0000_0000_0000_0000 < (low + 1) * (low + 1)
  }

  lemma {:induction false} SquareRoots0()
    ensures IsSquareRoot(0x6a09e667, 2, 1) && IsSquareRoot(0xbb67ae85, 3, 1)
    ensures IsSquareRoot(0x3c6ef372, 5, 2) && IsSquareRoot(0xa54ff53a, 7, 2)
  {
  }

  lemma {:induction false} SquareRoots4()
    ensures IsSquareRoot(0x510e527f, 11, 3) && IsSquareRoot(0x9b05688c, 13, 3)
    ensures IsSquareRoot(0x1f83d9ab, 17, 4) && IsSquareRoot(0x5be0cd19, 19, 4)
  {
  }

  // The initial hash values, for the first eight primes.
  lemma {:induction false} InitialAreSquareRoots()
    ensures var v := INITIAL;
            && IsSquareRoot(v.a, Prime(0), 1) && IsSquareRoot(v.b, Prime(1), 1)
            && IsSquareRoot(v.c, Prime(2), 2) && IsSquareRoot(v.d, Prime(3), 2)
            && IsSquareRoot(v.e, Prime(4), 3) && IsSquareRoot(v.f, Prime(5), 3)
            && IsSquareRoot(v.g, Prime(6), 4) && IsSquareRoot(v.h, Prime(7), 4)
  {
    hide IsSquareRoot;
    SquareRoots0();
    SquareRoots4();
    assert PRIMES[0] == [2, 3, 5, 7] && PRIMES[1] == [11, 13, 17, 19];
  }
}
