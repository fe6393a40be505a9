/**
 Where the constants of FIPS 180-4 come from: section 4.2.2 takes the round constants from the
 cube roots of the first sixty-four primes, section 5.3.3 the initial hash value from the
 square roots of the first eight.
 */
module Sha256Constants {
  import opened Arithmetic
  import opened Sha256

  // ----- primes

  ghost predicate IsPrime(p: nat) {
    p >= 2 && forall d: nat :: 2 <= d < p ==> p % d != 0
  }

  /** A prime below 19 * 19, judged by the primes below 19. */
  predicate Sieved(p: nat) {
    && p >= 2
    && (p == 2 || p % 2 != 0) && (p == 3 || p % 3 != 0) && (p == 5 || p % 5 != 0) && (p == 7 || p % 7 != 0)
    && (p == 11 || p % 11 != 0) && (p == 13 || p % 13 != 0) && (p == 17 || p % 17 != 0)
  }

  /** The primes up to n, in order, for n below 19 * 19. */
  function PrimesTo(n: nat): seq<nat> {
    if n < 2 then []
    else PrimesTo(n - 1) + if Sieved(n) then [n] else []
  }

  lemma {:induction false} OtherFactor(p: nat, k: nat)
    requires 2 <= k < p && p % k == 0
    ensures
      var m := p / k;
      2 <= m < p && m * k == p && p % m == 0
  {
    var m := p / k;
    assert m * k == p;
    assert m >= 2 && m < p;
    MultipleHasNoRest(k, m);
  }

  lemma {:induction false} MultipleHasNoRest(k: nat, m: nat)
    requires m > 0
    ensures (m * k) % m == 0
  {
    Quotient(m * k, m, k, 0);
  }

  /** A number that the sieve lets through has no factor below 19. */
  lemma {:induction false} NoSmallFactor(p: nat, k: nat)
    requires 2 <= k < 19 && k < p && Sieved(p)
    ensures p % k != 0
  {
    hide Sieved;
    var d := PrimeFactor(k);
    if p % k == 0 {
      FactorOfFactor(p, k, d);
      SievedMeans(p, d);
    }
  }

  function PrimeFactor(k: nat): (d: nat)
    requires 2 <= k < 19
    ensures d in {2, 3, 5, 7, 11, 13, 17} && d <= k && k % d == 0
  {
    if k % 2 == 0 then 2 else if k % 3 == 0 then 3 else k
  }

  lemma {:induction false} FactorOfFactor(p: nat, k: nat, d: nat)
    requires k > 0 && d > 0 && p % k == 0 && k % d == 0
    ensures p % d == 0
  {
    var m, j := p / k, k / d;
    Whole(p, k);
    Whole(k, d);
    MulAssoc(d, j, m);
    MultipleHasNoRest(j * m, d);
  }

  lemma Whole(n: nat, k: nat)
    requires k > 0 && n % k == 0
    ensures k * (n / k) == n
  {
  }

  lemma {:induction false} MulAssoc(a: nat, b: nat, c: nat)
    ensures a * (b * c) == a * b * c
  {
  }

  lemma SievedMeans(p: nat, d: nat)
    requires Sieved(p) && d < p && d in {2, 3, 5, 7, 11, 13, 17}
    ensures p % d != 0
  {
  }

  /** The sieve decides whether a number below 19 * 19 is prime. */
  lemma {:induction false} SieveDecides(p: nat)
    requires p < 19 * 19
    ensures Sieved(p) <==> IsPrime(p)
  {
    if Sieved(p) {
      forall k: nat | 2 <= k < p
        ensures p % k != 0
      {
        if p % k == 0 {
          OtherFactor(p, k);
          OneIsSmall(p, k, p / k);
          NoSmallFactor(p, if k < 19 then k else p / k);
        }
      }
    } else if p >= 2 {
      assert exists d :: d in {2, 3, 5, 7, 11, 13, 17} && 2 <= d < p && p % d == 0;
    }
  }

  lemma {:induction false} OneIsSmall(p: nat, k: nat, m: nat)
    requires p < 19 * 19 && m * k == p
    ensures k < 19 || m < 19
  {
    if k >= 19 && m >= 19 {
      MulMono(19, m, k);
    }
  }

  /** The list holds exactly the primes up to n, in order. */
  lemma {:induction false} PrimesInOrder(n: nat)
    requires n < 19 * 19
    ensures forall p: nat :: p in PrimesTo(n) <==> p <= n && IsPrime(p)
    ensures forall i, j :: 0 <= i < j < |PrimesTo(n)| ==> PrimesTo(n)[i] < PrimesTo(n)[j]
  {
    hide Sieved, IsPrime;
    SmallNumbers();
    if n >= 2 {
      PrimesInOrder(n - 1);
      SieveDecides(n);
      var front := PrimesTo(n - 1);
      assert forall i :: 0 <= i < |front| ==> front[i] in front;
    }
  }

  lemma SmallNumbers()
    ensures !IsPrime(0) && !IsPrime(1)
  {
  }

  // ----- roots

  /** k is the first 32 bits of the fractional part of the cube root of p. */
  ghost predicate CubeRootBits(p: nat, k: word) { exists a: nat :: CubeRootIs(p, a, k) }

  /** The cube root of p lies from a + k / 2^32 to the next multiple of 1 / 2^32. */
  predicate CubeRootIs(p: nat, a: nat, k: word) {
    var n := a * 0x1_0000_0000 + k as nat;
    n * n * n <= p * 0x1_0000_0000_0000_0000_0000_0000 < (n + 1) * (n + 1) * (n + 1)
  }

  /** k is the first 32 bits of the fractional part of the square root of p. */
  ghost predicate SquareRootBits(p: nat, k: word) { exists a: nat :: SquareRootIs(p, a, k) }

  predicate SquareRootIs(p: nat, a: nat, k: word) {
    var n := a * 0x1_0000_0000 + k as nat;
    n * n <= p * 0x1_0000_0000_0000_0000 < (n + 1) * (n + 1)
  }

  /** Eight constants in a row are those of eight primes. */
  ghost predicate CubeRootsOf(ps: seq<nat>, ks: Eight) {
    |ps| == 8 && forall i :: 0 <= i < 8 ==> CubeRootBits(ps[i], ks[i])
  }

  // ----- the sixty-four primes and constants

  /** The next prime after q is p. */
  lemma {:induction false} NextPrime(q: nat, p: nat)
    requires 2 <= q < p && Sieved(p)
    requires forall n :: q < n < p && n % 2 == 1 ==> !Sieved(n)
    ensures PrimesTo(p) == PrimesTo(q) + [p]
  {
    NoPrimes(q, p - 1);
    assert PrimesTo(q) + [] == PrimesTo(q);
  }

  lemma {:induction false} NoPrimes(q: nat, p: nat)
    requires 2 <= q <= p
    requires forall n :: q < n <= p && n % 2 == 1 ==> !Sieved(n)
    ensures PrimesTo(p) == PrimesTo(q)
    decreases p - q
  {
    if q < p {
      NoPrimes(q, p - 1);
      assert p % 2 == 0 ==> !Sieved(p);
      assert PrimesTo(p - 1) + [] == PrimesTo(p - 1);
    }
  }

  lemma {:induction false} Primes0()
    ensures PrimesTo(19) == PrimesTo(1) + [2, 3, 5, 7, 11, 13, 17, 19]
  {
    hide PrimesTo;
    FirstPrime();
    NextPrime(2, 3);
    NextPrime(3, 5);
    NextPrime(5, 7);
    assert !Sieved(9);
    NextPrime(7, 11);
    NextPrime(11, 13);
    assert !Sieved(15);
    NextPrime(13, 17);
    NextPrime(17, 19);
  }

  lemma Roots0a()
    ensures CubeRootBits(2, K0[0])
    ensures CubeRootBits(3, K0[1])
    ensures CubeRootBits(5, K0[2])
    ensures CubeRootBits(7, K0[3])
  {
    hide CubeRootBits;
    Root(2, 1, K0[0]);
    Root(3, 1, K0[1]);
    Root(5, 1, K0[2]);
    Root(7, 1, K0[3]);
  }

  lemma Roots0b()
    ensures CubeRootBits(11, K0[4])
    ensures CubeRootBits(13, K0[5])
    ensures CubeRootBits(17, K0[6])
    ensures CubeRootBits(19, K0[7])
  {
    hide CubeRootBits;
    Root(11, 2, K0[4]);
    Root(13, 2, K0[5]);
    Root(17, 2, K0[6]);
    Root(19, 2, K0[7]);
  }

  lemma Roots0()
    ensures CubeRootsOf([2, 3, 5, 7, 11, 13, 17, 19], K0)
  {
    hide CubeRootBits;
    Roots0a();
    Roots0b();
  }

  lemma {:induction false} Primes1()
    ensures PrimesTo(53) == PrimesTo(19) + [23, 29, 31, 37, 41, 43, 47, 53]
  {
    hide PrimesTo;
    assert !Sieved(21);
    NextPrime(19, 23);
    assert !Sieved(25) && !Sieved(27);
    NextPrime(23, 29);
    NextPrime(29, 31);
    assert !Sieved(33) && !Sieved(35);
    NextPrime(31, 37);
    assert !Sieved(39);
    NextPrime(37, 41);
    NextPrime(41, 43);
    assert !Sieved(45);
    NextPrime(43, 47);
    assert !Sieved(49) && !Sieved(51);
    NextPrime(47, 53);
  }

  lemma Roots1a()
    ensures CubeRootBits(23, K1[0])
    ensures CubeRootBits(29, K1[1])
    ensures CubeRootBits(31, K1[2])
    ensures CubeRootBits(37, K1[3])
  {
    hide CubeRootBits;
    Root(23, 2, K1[0]);
    Root(29, 3, K1[1]);
    Root(31, 3, K1[2]);
    Root(37, 3, K1[3]);
  }

  lemma Roots1b()
    ensures CubeRootBits(41, K1[4])
    ensures CubeRootBits(43, K1[5])
    ensures CubeRootBits(47, K1[6])
    ensures CubeRootBits(53, K1[7])
  {
    hide CubeRootBits;
    Root(41, 3, K1[4]);
    Root(43, 3, K1[5]);
    Root(47, 3, K1[6]);
    Root(53, 3, K1[7]);
  }

  lemma Roots1()
    ensures CubeRootsOf([23, 29, 31, 37, 41, 43, 47, 53], K1)
  {
    hide CubeRootBits;
    Roots1a();
    Roots1b();
  }

  lemma {:induction false} Primes2()
    ensures PrimesTo(89) == PrimesTo(53) + [59, 61, 67, 71, 73, 79, 83, 89]
  {
    hide PrimesTo;
    assert !Sieved(55) && !Sieved(57);
    NextPrime(53, 59);
    NextPrime(59, 61);
    assert !Sieved(63) && !Sieved(65);
    NextPrime(61, 67);
    assert !Sieved(69);
    NextPrime(67, 71);
    NextPrime(71, 73);
    assert !Sieved(75) && !Sieved(77);
    NextPrime(73, 79);
    assert !Sieved(81);
    NextPrime(79, 83);
    assert !Sieved(85) && !Sieved(87);
    NextPrime(83, 89);
  }

  lemma Roots2a()
    ensures CubeRootBits(59, K2[0])
    ensures CubeRootBits(61, K2[1])
    ensures CubeRootBits(67, K2[2])
    ensures CubeRootBits(71, K2[3])
  {
    hide CubeRootBits;
    Root(59, 3, K2[0]);
    Root(61, 3, K2[1]);
    Root(67, 4, K2[2]);
    Root(71, 4, K2[3]);
  }

  lemma Roots2b()
    ensures CubeRootBits(73, K2[4])
    ensures CubeRootBits(79, K2[5])
    ensures CubeRootBits(83, K2[6])
    ensures CubeRootBits(89, K2[7])
  {
    hide CubeRootBits;
    Root(73, 4, K2[4]);
    Root(79, 4, K2[5]);
    Root(83, 4, K2[6]);
    Root(89, 4, K2[7]);
  }

  lemma Roots2()
    ensures CubeRootsOf([59, 61, 67, 71, 73, 79, 83, 89], K2)
  {
    hide CubeRootBits;
    Roots2a();
    Roots2b();
  }

  lemma {:induction false} Primes3()
    ensures PrimesTo(131) == PrimesTo(89) + [97, 101, 103, 107, 109, 113, 127, 131]
  {
    hide PrimesTo;
    assert !Sieved(91) && !Sieved(93) && !Sieved(95);
    NextPrime(89, 97);
    assert !Sieved(99);
    NextPrime(97, 101);
    NextPrime(101, 103);
    assert !Sieved(105);
    NextPrime(103, 107);
    NextPrime(107, 109);
    assert !Sieved(111);
    NextPrime(109, 113);
    assert !Sieved(115) && !Sieved(117) && !Sieved(119) && !Sieved(121) && !Sieved(123) && !Sieved(125);
    NextPrime(113, 127);
    assert !Sieved(129);
    NextPrime(127, 131);
  }

  lemma Roots3a()
    ensures CubeRootBits(97, K3[0])
    ensures CubeRootBits(101, K3[1])
    ensures CubeRootBits(103, K3[2])
    ensures CubeRootBits(107, K3[3])
  {
    hide CubeRootBits;
    Root(97, 4, K3[0]);
    Root(101, 4, K3[1]);
    Root(103, 4, K3[2]);
    Root(107, 4, K3[3]);
  }

  lemma Roots3b()
    ensures CubeRootBits(109, K3[4])
    ensures CubeRootBits(113, K3[5])
    ensures CubeRootBits(127, K3[6])
    ensures CubeRootBits(131, K3[7])
  {
    hide CubeRootBits;
    Root(109, 4, K3[4]);
    Root(113, 4, K3[5]);
    Root(127, 5, K3[6]);
    Root(131, 5, K3[7]);
  }

  lemma Roots3()
    ensures CubeRootsOf([97, 101, 103, 107, 109, 113, 127, 131], K3)
  {
    hide CubeRootBits;
    Roots3a();
    Roots3b();
  }

  lemma {:induction false} Primes4()
    ensures PrimesTo(173) == PrimesTo(131) + [137, 139, 149, 151, 157, 163, 167, 173]
  {
    hide PrimesTo;
    assert !Sieved(133) && !Sieved(135);
    NextPrime(131, 137);
    NextPrime(137, 139);
    assert !Sieved(141) && !Sieved(143) && !Sieved(145) && !Sieved(147);
    NextPrime(139, 149);
    NextPrime(149, 151);
    assert !Sieved(153) && !Sieved(155);
    NextPrime(151, 157);
    assert !Sieved(159) && !Sieved(161);
    NextPrime(157, 163);
    assert !Sieved(165);
    NextPrime(163, 167);
    assert !Sieved(169) && !Sieved(171);
    NextPrime(167, 173);
  }

  lemma Roots4a()
    ensures CubeRootBits(137, K4[0])
    ensures CubeRootBits(139, K4[1])
    ensures CubeRootBits(149, K4[2])
    ensures CubeRootBits(151, K4[3])
  {
    hide CubeRootBits;
    Root(137, 5, K4[0]);
    Root(139, 5, K4[1]);
    Root(149, 5, K4[2]);
    Root(151, 5, K4[3]);
  }

  lemma Roots4b()
    ensures CubeRootBits(157, K4[4])
    ensures CubeRootBits(163, K4[5])
    ensures CubeRootBits(167, K4[6])
    ensures CubeRootBits(173, K4[7])
  {
    hide CubeRootBits;
    Root(157, 5, K4[4]);
    Root(163, 5, K4[5]);
    Root(167, 5, K4[6]);
    Root(173, 5, K4[7]);
  }

  lemma Roots4()
    ensures CubeRootsOf([137, 139, 149, 151, 157, 163, 167, 173], K4)
  {
    hide CubeRootBits;
    Roots4a();
    Roots4b();
  }

  lemma {:induction false} Primes5()
    ensures PrimesTo(223) == PrimesTo(173) + [179, 181, 191, 193, 197, 199, 211, 223]
  {
    hide PrimesTo;
    assert !Sieved(175) && !Sieved(177);
    NextPrime(173, 179);
    NextPrime(179, 181);
    assert !Sieved(183) && !Sieved(185) && !Sieved(187) && !Sieved(189);
    NextPrime(181, 191);
    NextPrime(191, 193);
    assert !Sieved(195);
    NextPrime(193, 197);
    NextPrime(197, 199);
    assert !Sieved(201) && !Sieved(203) && !Sieved(205) && !Sieved(207) && !Sieved(209);
    NextPrime(199, 211);
    assert !Sieved(213) && !Sieved(215) && !Sieved(217) && !Sieved(219) && !Sieved(221);
    NextPrime(211, 223);
  }

  lemma Roots5a()
    ensures CubeRootBits(179, K5[0])
    ensures CubeRootBits(181, K5[1])
    ensures CubeRootBits(191, K5[2])
    ensures CubeRootBits(193, K5[3])
  {
    hide CubeRootBits;
    Root(179, 5, K5[0]);
    Root(181, 5, K5[1]);
    Root(191, 5, K5[2]);
    Root(193, 5, K5[3]);
  }

  lemma Roots5b()
    ensures CubeRootBits(197, K5[4])
    ensures CubeRootBits(199, K5[5])
    ensures CubeRootBits(211, K5[6])
    ensures CubeRootBits(223, K5[7])
  {
    hide CubeRootBits;
    Root(197, 5, K5[4]);
    Root(199, 5, K5[5]);
    Root(211, 5, K5[6]);
    Root(223, 6, K5[7]);
  }

  lemma Roots5()
    ensures CubeRootsOf([179, 181, 191, 193, 197, 199, 211, 223], K5)
  {
    hide CubeRootBits;
    Roots5a();
    Roots5b();
  }

  lemma {:induction false} Primes6()
    ensures PrimesTo(263) == PrimesTo(223) + [227, 229, 233, 239, 241, 251, 257, 263]
  {
    hide PrimesTo;
    assert !Sieved(225);
    NextPrime(223, 227);
    NextPrime(227, 229);
    assert !Sieved(231);
    NextPrime(229, 233);
    assert !Sieved(235) && !Sieved(237);
    NextPrime(233, 239);
    NextPrime(239, 241);
    assert !Sieved(243) && !Sieved(245) && !Sieved(247) && !Sieved(249);
    NextPrime(241, 251);
    assert !Sieved(253) && !Sieved(255);
    NextPrime(251, 257);
    assert !Sieved(259) && !Sieved(261);
    NextPrime(257, 263);
  }

  lemma Roots6a()
    ensures CubeRootBits(227, K6[0])
    ensures CubeRootBits(229, K6[1])
    ensures CubeRootBits(233, K6[2])
    ensures CubeRootBits(239, K6[3])
  {
    hide CubeRootBits;
    Root(227, 6, K6[0]);
    Root(229, 6, K6[1]);
    Root(233, 6, K6[2]);
    Root(239, 6, K6[3]);
  }

  lemma Roots6b()
    ensures CubeRootBits(241, K6[4])
    ensures CubeRootBits(251, K6[5])
    ensures CubeRootBits(257, K6[6])
    ensures CubeRootBits(263, K6[7])
  {
    hide CubeRootBits;
    Root(241, 6, K6[4]);
    Root(251, 6, K6[5]);
    Root(257, 6, K6[6]);
    Root(263, 6, K6[7]);
  }

  lemma Roots6()
    ensures CubeRootsOf([227, 229, 233, 239, 241, 251, 257, 263], K6)
  {
    hide CubeRootBits;
    Roots6a();
    Roots6b();
  }

  lemma {:induction false} Primes7()
    ensures PrimesTo(311) == PrimesTo(263) + [269, 271, 277, 281, 283, 293, 307, 311]
  {
    hide PrimesTo;
    assert !Sieved(265) && !Sieved(267);
    NextPrime(263, 269);
    NextPrime(269, 271);
    assert !Sieved(273) && !Sieved(275);
    NextPrime(271, 277);
    assert !Sieved(279);
    NextPrime(277, 281);
    NextPrime(281, 283);
    assert !Sieved(285) && !Sieved(287) && !Sieved(289) && !Sieved(291);
    NextPrime(283, 293);
    assert !Sieved(295) && !Sieved(297) && !Sieved(299) && !Sieved(301) && !Sieved(303) && !Sieved(305);
    NextPrime(293, 307);
    assert !Sieved(309);
    NextPrime(307, 311);
  }

  lemma Roots7a()
    ensures CubeRootBits(269, K7[0])
    ensures CubeRootBits(271, K7[1])
    ensures CubeRootBits(277, K7[2])
    ensures CubeRootBits(281, K7[3])
  {
    hide CubeRootBits;
    Root(269, 6, K7[0]);
    Root(271, 6, K7[1]);
    Root(277, 6, K7[2]);
    Root(281, 6, K7[3]);
  }

  lemma Roots7b()
    ensures CubeRootBits(283, K7[4])
    ensures CubeRootBits(293, K7[5])
    ensures CubeRootBits(307, K7[6])
    ensures CubeRootBits(311, K7[7])
  {
    hide CubeRootBits;
    Root(283, 6, K7[4]);
    Root(293, 6, K7[5]);
    Root(307, 6, K7[6]);
    Root(311, 6, K7[7]);
  }

  lemma Roots7()
    ensures CubeRootsOf([269, 271, 277, 281, 283, 293, 307, 311], K7)
  {
    hide CubeRootBits;
    Roots7a();
    Roots7b();
  }

  lemma Root(p: nat, a: nat, k: word)
    requires CubeRootIs(p, a, k)
    ensures CubeRootBits(p, k)
  {
  }

  lemma InitialRoots()
    ensures SquareRootBits(2, INITIAL.a) && SquareRootBits(3, INITIAL.b)
    ensures SquareRootBits(5, INITIAL.c) && SquareRootBits(7, INITIAL.d)
    ensures SquareRootBits(11, INITIAL.e) && SquareRootBits(13, INITIAL.f)
    ensures SquareRootBits(17, INITIAL.g) && SquareRootBits(19, INITIAL.h)
  {
    assert SquareRootIs(2, 1, INITIAL.a);
    assert SquareRootIs(3, 1, INITIAL.b);
    assert SquareRootIs(5, 2, INITIAL.c);
    assert SquareRootIs(7, 2, INITIAL.d);
    assert SquareRootIs(11, 3, INITIAL.e);
    assert SquareRootIs(13, 3, INITIAL.f);
    assert SquareRootIs(17, 4, INITIAL.g);
    assert SquareRootIs(19, 4, INITIAL.h);
  }

  /**
   The round constants are the first 32 bits of the fractional parts of the cube roots of
   the first sixty-four primes, and the initial hash value is made of those of the square
   roots of the first eight.
   */
  lemma ConstantsAreRoots()
    ensures
      var primes := PrimesTo(311);
      && |primes| == 64 && (forall p: nat :: p in primes <==> p <= 311 && IsPrime(p))
      && (forall i, j :: 0 <= i < j < 64 ==> primes[i] < primes[j])
      && (forall i :: 0 <= i < 64 ==> CubeRootBits(primes[i], K[i]))
      && SquareRootBits(primes[0], INITIAL.a) && SquareRootBits(primes[1], INITIAL.b)
      && SquareRootBits(primes[2], INITIAL.c) && SquareRootBits(primes[3], INITIAL.d)
      && SquareRootBits(primes[4], INITIAL.e) && SquareRootBits(primes[5], INITIAL.f)
      && SquareRootBits(primes[6], INITIAL.g) && SquareRootBits(primes[7], INITIAL.h)
  {
    hide PrimesTo, IsPrime, CubeRootBits, SquareRootBits, K, INITIAL;
    PrimesInOrder(311);
    FirstPrimes();
    InitialRoots();
    AllRoots();
  }

  lemma {:induction false} PrimesGrow(n: nat, m: nat)
    requires n <= m
    ensures PrimesTo(n) <= PrimesTo(m)
    decreases m - n
  {
    hide Sieved;
    if n < m {
      PrimesGrow(n, m - 1);
    }
  }

  lemma FirstPrimes()
    ensures |PrimesTo(311)| >= 8 && PrimesTo(311)[..8] == [2, 3, 5, 7, 11, 13, 17, 19]
  {
    hide PrimesTo;
    FirstPrime();
    Primes0();
    PrimesGrow(19, 311);
  }

  lemma AllRoots()
    ensures RootsSoFar(PrimesTo(311), K)
  {
    hide PrimesTo, CubeRootsOf, RootsSoFar, K0, K1, K2, K3, K4, K5, K6, K7;
    FirstPrime();
    NoRoots();
    Primes0();
    Roots0();
    MoreRoots(PrimesTo(1), [2, 3, 5, 7, 11, 13, 17, 19], [], K0);
    assert [] + K0 == K0;
    Primes1();
    Roots1();
    MoreRoots(PrimesTo(19), [23, 29, 31, 37, 41, 43, 47, 53], K0, K1);
    Primes2();
    Roots2();
    MoreRoots(PrimesTo(53), [59, 61, 67, 71, 73, 79, 83, 89], K0 + K1, K2);
    Primes3();
    Roots3();
    MoreRoots(PrimesTo(89), [97, 101, 103, 107, 109, 113, 127, 131], K0 + K1 + K2, K3);
    Primes4();
    Roots4();
    MoreRoots(PrimesTo(131), [137, 139, 149, 151, 157, 163, 167, 173], K0 + K1 + K2 + K3, K4);
    Primes5();
    Roots5();
    MoreRoots(PrimesTo(173), [179, 181, 191, 193, 197, 199, 211, 223], K0 + K1 + K2 + K3 + K4, K5);
    Primes6();
    Roots6();
    MoreRoots(PrimesTo(223), [227, 229, 233, 239, 241, 251, 257, 263], K0 + K1 + K2 + K3 + K4 + K5, K6);
    Primes7();
    Roots7();
    MoreRoots(PrimesTo(263), [269, 271, 277, 281, 283, 293, 307, 311], K0 + K1 + K2 + K3 + K4 + K5 + K6, K7);
  }

  ghost predicate RootsSoFar(ps: seq<nat>, ks: seq<word>) {
    |ps| == |ks| && forall i :: 0 <= i < |ps| ==> CubeRootBits(ps[i], ks[i])
  }

  lemma NoRoots()
    ensures RootsSoFar([], [])
  {
  }

  lemma MoreRoots(ps: seq<nat>, more: seq<nat>, ks: seq<word>, eight: Eight)
    requires RootsSoFar(ps, ks) && CubeRootsOf(more, eight)
    ensures RootsSoFar(ps + more, ks + eight)
  {
    hide CubeRootBits;
  }

  lemma FirstPrime()
    ensures PrimesTo(1) == [] && PrimesTo(2) == [2]
  {
  }
}
