// The constants of SHA-512 from their definition in sections 4.2.3 and 5.3.5 of FIPS 180-4: the first 64 bits of the
// fractional parts of the cube roots of the first eighty primes, and of the square roots of the first eight.
module Sha512Constants {
  import opened Bytes
  import opened Sha512Spec

  const TWO64: nat := 0x1_0000_0000_0000_0000

  // ----- primes in order -----

  ghost predicate Divides(d: nat, n: nat) {
    d > 0 && n % d == 0
  }

  ghost predicate Prime(n: nat) {
    n >= 2 && forall d :: 2 <= d < n ==> !Divides(d, n)
  }

  // The list starts with 2 and leaves no prime out.
  ghost predicate FirstPrimes(ps: seq<nat>) {
    && |ps| > 0 && ps[0] == 2
    && (forall i :: 0 <= i < |ps| ==> Prime(ps[i]))
    && (forall i, n :: 0 < i < |ps| && ps[i - 1] < n < ps[i] ==> !Prime(n))
    && (forall i :: 0 < i < |ps| ==> ps[i - 1] < ps[i])
  }

  // No factor below 20 except itself, which is enough below 23^2.
  predicate Sieved(n: nat) {
    && n >= 2
    && (n == 2 || n % 2 != 0) && (n == 3 || n % 3 != 0) && (n == 5 || n % 5 != 0) && (n == 7 || n % 7 != 0)
    && (n == 11 || n % 11 != 0) && (n == 13 || n % 13 != 0) && (n == 17 || n % 17 != 0) && (n == 19 || n % 19 != 0)
  }

  lemma SievedIsPrime(n: nat)
    requires 2 <= n < 529 && Sieved(n)
    ensures Prime(n)
  {
    hide Sieved, Divides;
    forall d | 2 <= d < n ensures !Divides(d, n) {
      if Divides(d, n) {
        FactorBelow(n, d);
      }
    }
  }

  lemma FactorBelow(n: nat, d: nat)
    requires n < 529 && 2 <= d < n && Divides(d, n)
    ensures !Sieved(n)
  {
    hide Sieved;
    var e := n / d;
    Cofactor(n, d, e);
    if d < 23 {
      SmallFactor(n, d, e);
    } else {
      assert n == e * d;
      SmallFactor(n, e, d);
    }
  }

  lemma Cofactor(n: nat, d: nat, e: nat)
    requires n < 529 && 2 <= d < n && n % d == 0 && e == n / d
    ensures n == d * e && e >= 2 && (d >= 23 ==> e < 23)
  {
    if d >= 23 && e >= 23 {
      BigProduct(d, e);
    }
  }

  lemma BigProduct(d: nat, e: nat)
    requires d >= 23 && e >= 23
    ensures d * e >= 529
  {
    assert d * e >= 23 * e;
  }

  // A number below 23 has a factor among the eight, and so has what it divides.
  lemma SmallFactor(n: nat, m: nat, k: nat)
    requires 2 <= m < 23 && n == m * k && k >= 2
    ensures !Sieved(n)
  {
    hide Sieved;
    var f := if m % 2 == 0 then 2 else if m % 3 == 0 then 3 else m;
    var g := m / f;
    assert m == f * g && g >= 1;
    assert n == f * (g * k) by {
      assert (f * g) * k == f * (g * k);
    }
    assert g * k >= k;
    FactorShows(n, f, g * k);
  }

  lemma FactorShows(n: nat, f: nat, h: nat)
    requires n == f * h && h >= 2 && f in {2, 3, 5, 7, 11, 13, 17, 19}
    ensures !Sieved(n)
  {
    DivModUnique(n, f, h, 0);
    assert n >= 2 * f;
  }

  lemma PrimeIsSieved(n: nat)
    requires Prime(n)
    ensures Sieved(n)
  {
    assert forall d :: 2 <= d < n ==> !Divides(d, n);
    assert n > 2 ==> !Divides(2, n);
    assert n > 3 ==> !Divides(3, n);
    assert n > 5 ==> !Divides(5, n);
    assert n > 7 ==> !Divides(7, n);
    assert n > 11 ==> !Divides(11, n);
    assert n > 13 ==> !Divides(13, n);
    assert n > 17 ==> !Divides(17, n);
    assert n > 19 ==> !Divides(19, n);
    Remainders(n);
  }

  lemma Remainders(n: nat)
    requires 2 <= n
    ensures n < 3 ==> n % 3 != 0
    ensures n < 5 ==> n % 5 != 0
    ensures n < 7 ==> n % 7 != 0
    ensures n < 11 ==> n % 11 != 0
    ensures n < 13 ==> n % 13 != 0
    ensures n < 17 ==> n % 17 != 0
    ensures n < 19 ==> n % 19 != 0
  {
  }

  // ----- roots -----

  ghost predicate CubeBounds(x: nat, p: nat) {
    x * x * x <= p * (TWO64 * TWO64 * TWO64) < (x + 1) * (x + 1) * (x + 1)
  }

  // x is floor(2^64 times the cube root of p); a stepped definition, as the head of Congruence explains.
  ghost predicate IsCubeRoot(x: nat, p: nat) {
    IsCubeRootSteps(x, p, 4)
  }

  ghost predicate IsCubeRootSteps(x: nat, p: nat, n: nat)
    decreases n, x, p
  {
    if n == 0 then CubeBounds(x, p) else IsCubeRootSteps(x, p, n - 1)
  }

  lemma IsCubeRootMeaning(x: nat, p: nat)
    ensures IsCubeRoot(x, p) <==> CubeBounds(x, p)
  {
    hide CubeBounds;
    assert IsCubeRootSteps(x, p, 4) == IsCubeRootSteps(x, p, 3);
    assert IsCubeRootSteps(x, p, 3) == IsCubeRootSteps(x, p, 2);
    assert IsCubeRootSteps(x, p, 2) == IsCubeRootSteps(x, p, 1);
    assert IsCubeRootSteps(x, p, 1) == IsCubeRootSteps(x, p, 0);
  }

  ghost predicate SquareBounds(x: nat, p: nat) {
    x * x <= p * (TWO64 * TWO64) < (x + 1) * (x + 1)
  }

  // x is floor(2^64 times the square root of p); a stepped definition, as the head of Congruence explains.
  ghost predicate IsSquareRoot(x: nat, p: nat) {
    IsSquareRootSteps(x, p, 4)
  }

  ghost predicate IsSquareRootSteps(x: nat, p: nat, n: nat)
    decreases n, x, p
  {
    if n == 0 then SquareBounds(x, p) else IsSquareRootSteps(x, p, n - 1)
  }

  lemma IsSquareRootMeaning(x: nat, p: nat)
    ensures IsSquareRoot(x, p) <==> SquareBounds(x, p)
  {
    hide SquareBounds;
    assert IsSquareRootSteps(x, p, 4) == IsSquareRootSteps(x, p, 3);
    assert IsSquareRootSteps(x, p, 3) == IsSquareRootSteps(x, p, 2);
    assert IsSquareRootSteps(x, p, 2) == IsSquareRootSteps(x, p, 1);
    assert IsSquareRootSteps(x, p, 1) == IsSquareRootSteps(x, p, 0);
  }

  // k is the first 64 bits of the fraction of the root: the low 64 bits of floor(2^64 times the root).
  ghost predicate CubeRootBits(k: word, p: nat) {
    exists x: nat :: IsCubeRoot(x, p) && FromWord(k) == x % TWO64
  }

  ghost predicate SquareRootBits(k: word, p: nat) {
    exists x: nat :: IsSquareRoot(x, p) && FromWord(k) == x % TWO64
  }

  // The integer part c makes the witness.
  lemma CubeRoot(k: word, p: nat, c: nat)
    requires CubeBounds(c * TWO64 + FromWord(k), p)
    ensures CubeRootBits(k, p)
  {
    hide CubeBounds, IsCubeRoot, FromWord;
    IsCubeRootMeaning(c * TWO64 + FromWord(k), p);
    DivModUnique(c * TWO64 + FromWord(k), TWO64, c, FromWord(k));
  }

  lemma SquareRoot(k: word, p: nat, c: nat)
    requires SquareBounds(c * TWO64 + FromWord(k), p)
    ensures SquareRootBits(k, p)
  {
    hide SquareBounds, IsSquareRoot, FromWord;
    IsSquareRootMeaning(c * TWO64 + FromWord(k), p);
    DivModUnique(c * TWO64 + FromWord(k), TWO64, c, FromWord(k));
  }

  // ----- the tables -----

  // The list is of the first primes, and word i of the table comes from prime i.
  ghost predicate Roots(ps: seq<nat>) {
    && FirstPrimes(ps) && |ps| <= |K|
    && forall i :: 0 <= i < |ps| ==> CubeRootBits(K[i], ps[i])
  }

  // p is the next sieved number after q.
  ghost predicate IsNext(q: nat, p: nat) {
    2 <= q < p < 529 && Sieved(p) && forall n :: q < n < p ==> !Sieved(n)
  }

  // Between odd numbers the even ones are never sieved, and the other odd ones are at most six.
  lemma Gap(q: nat, p: nat)
    requires 2 < q < p <= q + 14 && p < 529 && q % 2 == 1 && Sieved(p)
    requires q + 2 < p ==> !Sieved(q + 2)
    requires q + 4 < p ==> !Sieved(q + 4)
    requires q + 6 < p ==> !Sieved(q + 6)
    requires q + 8 < p ==> !Sieved(q + 8)
    requires q + 10 < p ==> !Sieved(q + 10)
    requires q + 12 < p ==> !Sieved(q + 12)
    ensures IsNext(q, p)
  {
    forall n | q < n < p ensures !Sieved(n) {
      if n % 2 == 1 {
        OddBetween(q, p, n);
      }
    }
  }

  lemma OddBetween(q: nat, p: nat, n: nat)
    requires q < n < p <= q + 14 && q % 2 == 1 && p % 2 == 1 && n % 2 == 1
    ensures n in {q + 2, q + 4, q + 6, q + 8, q + 10, q + 12}
  {
  }

  lemma TwoThree()
    ensures IsNext(2, 3)
  {
  }

  // One more prime, the next after the last.
  lemma OneMore(ps: seq<nat>, q: nat, p: nat, k: word) returns (more: seq<nat>)
    requires Roots(ps) && |ps| < |K| && K[|ps|] == k && ps[|ps| - 1] == q
    requires IsNext(q, p) && CubeRootBits(k, p)
    ensures Roots(more) && more == ps + [p]
  {
    hide Prime, Sieved, CubeRootBits, K;
    SievedIsPrime(p);
    more := ps + [p];
    forall i, n | 0 < i < |more| && more[i - 1] < n < more[i] ensures !Prime(n) {
      if i == |ps| && Prime(n) {
        PrimeIsSieved(n);
      }
    }
  }

  lemma Words0()
    ensures |K| == 80 && |K0| == 8
    ensures K[0] == K0[0] && K[1] == K0[1] && K[2] == K0[2] && K[3] == K0[3]
    ensures K[4] == K0[4] && K[5] == K0[5] && K[6] == K0[6] && K[7] == K0[7]
  {
    hide K0, K1, K2, K3, K4, K5, K6, K7, K8, K9;
    RowLengths();
  }

  lemma Gaps0()
    ensures IsNext(2, 3) && IsNext(3, 5) && IsNext(5, 7) && IsNext(7, 11)
    ensures IsNext(11, 13) && IsNext(13, 17) && IsNext(17, 19)
  {
    hide IsNext;
    TwoThree();
    Gap(3, 5);
    Gap(5, 7);
    Gap(7, 11);
    Gap(11, 13);
    Gap(13, 17);
    Gap(17, 19);
  }

  lemma Roots0()
    ensures |K0| == 8
    ensures CubeRootBits(K0[0], 2) && CubeRootBits(K0[1], 3)
    ensures CubeRootBits(K0[2], 5) && CubeRootBits(K0[3], 7)
    ensures CubeRootBits(K0[4], 11) && CubeRootBits(K0[5], 13)
    ensures CubeRootBits(K0[6], 17) && CubeRootBits(K0[7], 19)
  {
    hide CubeRootBits;
    CubeRoot(K0[0], 2, 1);
    CubeRoot(K0[1], 3, 1);
    CubeRoot(K0[2], 5, 1);
    CubeRoot(K0[3], 7, 1);
    CubeRoot(K0[4], 11, 2);
    CubeRoot(K0[5], 13, 2);
    CubeRoot(K0[6], 17, 2);
    CubeRoot(K0[7], 19, 2);
  }

  lemma Row0() returns (ps: seq<nat>)
    ensures |ps| == 8 && Roots(ps) && ps[7] == 19
    ensures ps == [2, 3, 5, 7, 11, 13, 17, 19]
  {
    hide *;
    Words0();
    Roots0();
    Gaps0();
    ps := FirstRoot();
    ps := OneMore(ps, 2, 3, K0[1]);
    ps := OneMore(ps, 3, 5, K0[2]);
    ps := OneMore(ps, 5, 7, K0[3]);
    ps := OneMore(ps, 7, 11, K0[4]);
    ps := OneMore(ps, 11, 13, K0[5]);
    ps := OneMore(ps, 13, 17, K0[6]);
    ps := OneMore(ps, 17, 19, K0[7]);
  }

  lemma Words1()
    ensures |K| == 80 && |K1| == 8
    ensures K[8] == K1[0] && K[9] == K1[1] && K[10] == K1[2] && K[11] == K1[3]
    ensures K[12] == K1[4] && K[13] == K1[5] && K[14] == K1[6] && K[15] == K1[7]
  {
    hide K0, K1, K2, K3, K4, K5, K6, K7, K8, K9;
    RowLengths();
  }

  lemma Gaps1()
    ensures IsNext(19, 23) && IsNext(23, 29) && IsNext(29, 31) && IsNext(31, 37)
    ensures IsNext(37, 41) && IsNext(41, 43) && IsNext(43, 47) && IsNext(47, 53)
  {
    hide IsNext;
    Gap(19, 23);
    Gap(23, 29);
    Gap(29, 31);
    Gap(31, 37);
    Gap(37, 41);
    Gap(41, 43);
    Gap(43, 47);
    Gap(47, 53);
  }

  lemma Roots1()
    ensures |K1| == 8
    ensures CubeRootBits(K1[0], 23) && CubeRootBits(K1[1], 29)
    ensures CubeRootBits(K1[2], 31) && CubeRootBits(K1[3], 37)
    ensures CubeRootBits(K1[4], 41) && CubeRootBits(K1[5], 43)
    ensures CubeRootBits(K1[6], 47) && CubeRootBits(K1[7], 53)
  {
    hide CubeRootBits;
    CubeRoot(K1[0], 23, 2);
    CubeRoot(K1[1], 29, 3);
    CubeRoot(K1[2], 31, 3);
    CubeRoot(K1[3], 37, 3);
    CubeRoot(K1[4], 41, 3);
    CubeRoot(K1[5], 43, 3);
    CubeRoot(K1[6], 47, 3);
    CubeRoot(K1[7], 53, 3);
  }

  lemma Row1(start: seq<nat>) returns (ps: seq<nat>)
    requires |start| == 8 && Roots(start) && start[7] == 19
    ensures |ps| == 16 && Roots(ps) && ps[15] == 53
  {
    hide *;
    Words1();
    Roots1();
    Gaps1();
    ps := OneMore(start, 19, 23, K1[0]);
    ps := OneMore(ps, 23, 29, K1[1]);
    ps := OneMore(ps, 29, 31, K1[2]);
    ps := OneMore(ps, 31, 37, K1[3]);
    ps := OneMore(ps, 37, 41, K1[4]);
    ps := OneMore(ps, 41, 43, K1[5]);
    ps := OneMore(ps, 43, 47, K1[6]);
    ps := OneMore(ps, 47, 53, K1[7]);
  }

  lemma Words2()
    ensures |K| == 80 && |K2| == 8
    ensures K[16] == K2[0] && K[17] == K2[1] && K[18] == K2[2] && K[19] == K2[3]
    ensures K[20] == K2[4] && K[21] == K2[5] && K[22] == K2[6] && K[23] == K2[7]
  {
    hide K0, K1, K2, K3, K4, K5, K6, K7, K8, K9;
    RowLengths();
  }

  lemma Gaps2()
    ensures IsNext(53, 59) && IsNext(59, 61) && IsNext(61, 67) && IsNext(67, 71)
    ensures IsNext(71, 73) && IsNext(73, 79) && IsNext(79, 83) && IsNext(83, 89)
  {
    hide IsNext;
    Gap(53, 59);
    Gap(59, 61);
    Gap(61, 67);
    Gap(67, 71);
    Gap(71, 73);
    Gap(73, 79);
    Gap(79, 83);
    Gap(83, 89);
  }

  lemma Roots2()
    ensures |K2| == 8
    ensures CubeRootBits(K2[0], 59) && CubeRootBits(K2[1], 61)
    ensures CubeRootBits(K2[2], 67) && CubeRootBits(K2[3], 71)
    ensures CubeRootBits(K2[4], 73) && CubeRootBits(K2[5], 79)
    ensures CubeRootBits(K2[6], 83) && CubeRootBits(K2[7], 89)
  {
    hide CubeRootBits;
    CubeRoot(K2[0], 59, 3);
    CubeRoot(K2[1], 61, 3);
    CubeRoot(K2[2], 67, 4);
    CubeRoot(K2[3], 71, 4);
    CubeRoot(K2[4], 73, 4);
    CubeRoot(K2[5], 79, 4);
    CubeRoot(K2[6], 83, 4);
    CubeRoot(K2[7], 89, 4);
  }

  lemma Row2(start: seq<nat>) returns (ps: seq<nat>)
    requires |start| == 16 && Roots(start) && start[15] == 53
    ensures |ps| == 24 && Roots(ps) && ps[23] == 89
  {
    hide *;
    Words2();
    Roots2();
    Gaps2();
    ps := OneMore(start, 53, 59, K2[0]);
    ps := OneMore(ps, 59, 61, K2[1]);
    ps := OneMore(ps, 61, 67, K2[2]);
    ps := OneMore(ps, 67, 71, K2[3]);
    ps := OneMore(ps, 71, 73, K2[4]);
    ps := OneMore(ps, 73, 79, K2[5]);
    ps := OneMore(ps, 79, 83, K2[6]);
    ps := OneMore(ps, 83, 89, K2[7]);
  }

  lemma Words3()
    ensures |K| == 80 && |K3| == 8
    ensures K[24] == K3[0] && K[25] == K3[1] && K[26] == K3[2] && K[27] == K3[3]
    ensures K[28] == K3[4] && K[29] == K3[5] && K[30] == K3[6] && K[31] == K3[7]
  {
    hide K0, K1, K2, K3, K4, K5, K6, K7, K8, K9;
    RowLengths();
  }

  lemma Gaps3()
    ensures IsNext(89, 97) && IsNext(97, 101) && IsNext(101, 103) && IsNext(103, 107)
    ensures IsNext(107, 109) && IsNext(109, 113) && IsNext(113, 127) && IsNext(127, 131)
  {
    hide IsNext;
    Gap(89, 97);
    Gap(97, 101);
    Gap(101, 103);
    Gap(103, 107);
    Gap(107, 109);
    Gap(109, 113);
    Gap(113, 127);
    Gap(127, 131);
  }

  lemma Roots3()
    ensures |K3| == 8
    ensures CubeRootBits(K3[0], 97) && CubeRootBits(K3[1], 101)
    ensures CubeRootBits(K3[2], 103) && CubeRootBits(K3[3], 107)
    ensures CubeRootBits(K3[4], 109) && CubeRootBits(K3[5], 113)
    ensures CubeRootBits(K3[6], 127) && CubeRootBits(K3[7], 131)
  {
    hide CubeRootBits;
    CubeRoot(K3[0], 97, 4);
    CubeRoot(K3[1], 101, 4);
    CubeRoot(K3[2], 103, 4);
    CubeRoot(K3[3], 107, 4);
    CubeRoot(K3[4], 109, 4);
    CubeRoot(K3[5], 113, 4);
    CubeRoot(K3[6], 127, 5);
    CubeRoot(K3[7], 131, 5);
  }

  lemma Row3(start: seq<nat>) returns (ps: seq<nat>)
    requires |start| == 24 && Roots(start) && start[23] == 89
    ensures |ps| == 32 && Roots(ps) && ps[31] == 131
  {
    hide *;
    Words3();
    Roots3();
    Gaps3();
    ps := OneMore(start, 89, 97, K3[0]);
    ps := OneMore(ps, 97, 101, K3[1]);
    ps := OneMore(ps, 101, 103, K3[2]);
    ps := OneMore(ps, 103, 107, K3[3]);
    ps := OneMore(ps, 107, 109, K3[4]);
    ps := OneMore(ps, 109, 113, K3[5]);
    ps := OneMore(ps, 113, 127, K3[6]);
    ps := OneMore(ps, 127, 131, K3[7]);
  }

  lemma Words4()
    ensures |K| == 80 && |K4| == 8
    ensures K[32] == K4[0] && K[33] == K4[1] && K[34] == K4[2] && K[35] == K4[3]
    ensures K[36] == K4[4] && K[37] == K4[5] && K[38] == K4[6] && K[39] == K4[7]
  {
    hide K0, K1, K2, K3, K4, K5, K6, K7, K8, K9;
    RowLengths();
  }

  lemma Gaps4()
    ensures IsNext(131, 137) && IsNext(137, 139) && IsNext(139, 149) && IsNext(149, 151)
    ensures IsNext(151, 157) && IsNext(157, 163) && IsNext(163, 167) && IsNext(167, 173)
  {
    hide IsNext;
    Gap(131, 137);
    Gap(137, 139);
    Gap(139, 149);
    Gap(149, 151);
    Gap(151, 157);
    Gap(157, 163);
    Gap(163, 167);
    Gap(167, 173);
  }

  lemma Roots4()
    ensures |K4| == 8
    ensures CubeRootBits(K4[0], 137) && CubeRootBits(K4[1], 139)
    ensures CubeRootBits(K4[2], 149) && CubeRootBits(K4[3], 151)
    ensures CubeRootBits(K4[4], 157) && CubeRootBits(K4[5], 163)
    ensures CubeRootBits(K4[6], 167) && CubeRootBits(K4[7], 173)
  {
    hide CubeRootBits;
    CubeRoot(K4[0], 137, 5);
    CubeRoot(K4[1], 139, 5);
    CubeRoot(K4[2], 149, 5);
    CubeRoot(K4[3], 151, 5);
    CubeRoot(K4[4], 157, 5);
    CubeRoot(K4[5], 163, 5);
    CubeRoot(K4[6], 167, 5);
    CubeRoot(K4[7], 173, 5);
  }

  lemma Row4(start: seq<nat>) returns (ps: seq<nat>)
    requires |start| == 32 && Roots(start) && start[31] == 131
    ensures |ps| == 40 && Roots(ps) && ps[39] == 173
  {
    hide *;
    Words4();
    Roots4();
    Gaps4();
    ps := OneMore(start, 131, 137, K4[0]);
    ps := OneMore(ps, 137, 139, K4[1]);
    ps := OneMore(ps, 139, 149, K4[2]);
    ps := OneMore(ps, 149, 151, K4[3]);
    ps := OneMore(ps, 151, 157, K4[4]);
    ps := OneMore(ps, 157, 163, K4[5]);
    ps := OneMore(ps, 163, 167, K4[6]);
    ps := OneMore(ps, 167, 173, K4[7]);
  }

  lemma Words5()
    ensures |K| == 80 && |K5| == 8
    ensures K[40] == K5[0] && K[41] == K5[1] && K[42] == K5[2] && K[43] == K5[3]
    ensures K[44] == K5[4] && K[45] == K5[5] && K[46] == K5[6] && K[47] == K5[7]
  {
    hide K0, K1, K2, K3, K4, K5, K6, K7, K8, K9;
    RowLengths();
  }

  lemma Gaps5()
    ensures IsNext(173, 179) && IsNext(179, 181) && IsNext(181, 191) && IsNext(191, 193)
    ensures IsNext(193, 197) && IsNext(197, 199) && IsNext(199, 211) && IsNext(211, 223)
  {
    hide IsNext;
    Gap(173, 179);
    Gap(179, 181);
    Gap(181, 191);
    Gap(191, 193);
    Gap(193, 197);
    Gap(197, 199);
    Gap(199, 211);
    Gap(211, 223);
  }

  lemma Roots5()
    ensures |K5| == 8
    ensures CubeRootBits(K5[0], 179) && CubeRootBits(K5[1], 181)
    ensures CubeRootBits(K5[2], 191) && CubeRootBits(K5[3], 193)
    ensures CubeRootBits(K5[4], 197) && CubeRootBits(K5[5], 199)
    ensures CubeRootBits(K5[6], 211) && CubeRootBits(K5[7], 223)
  {
    hide CubeRootBits;
    CubeRoot(K5[0], 179, 5);
    CubeRoot(K5[1], 181, 5);
    CubeRoot(K5[2], 191, 5);
    CubeRoot(K5[3], 193, 5);
    CubeRoot(K5[4], 197, 5);
    CubeRoot(K5[5], 199, 5);
    CubeRoot(K5[6], 211, 5);
    CubeRoot(K5[7], 223, 6);
  }

  lemma Row5(start: seq<nat>) returns (ps: seq<nat>)
    requires |start| == 40 && Roots(start) && start[39] == 173
    ensures |ps| == 48 && Roots(ps) && ps[47] == 223
  {
    hide *;
    Words5();
    Roots5();
    Gaps5();
    ps := OneMore(start, 173, 179, K5[0]);
    ps := OneMore(ps, 179, 181, K5[1]);
    ps := OneMore(ps, 181, 191, K5[2]);
    ps := OneMore(ps, 191, 193, K5[3]);
    ps := OneMore(ps, 193, 197, K5[4]);
    ps := OneMore(ps, 197, 199, K5[5]);
    ps := OneMore(ps, 199, 211, K5[6]);
    ps := OneMore(ps, 211, 223, K5[7]);
  }

  lemma Words6()
    ensures |K| == 80 && |K6| == 8
    ensures K[48] == K6[0] && K[49] == K6[1] && K[50] == K6[2] && K[51] == K6[3]
    ensures K[52] == K6[4] && K[53] == K6[5] && K[54] == K6[6] && K[55] == K6[7]
  {
    hide K0, K1, K2, K3, K4, K5, K6, K7, K8, K9;
    RowLengths();
  }

  lemma Gaps6()
    ensures IsNext(223, 227) && IsNext(227, 229) && IsNext(229, 233) && IsNext(233, 239)
    ensures IsNext(239, 241) && IsNext(241, 251) && IsNext(251, 257) && IsNext(257, 263)
  {
    hide IsNext;
    Gap(223, 227);
    Gap(227, 229);
    Gap(229, 233);
    Gap(233, 239);
    Gap(239, 241);
    Gap(241, 251);
    Gap(251, 257);
    Gap(257, 263);
  }

  lemma Roots6()
    ensures |K6| == 8
    ensures CubeRootBits(K6[0], 227) && CubeRootBits(K6[1], 229)
    ensures CubeRootBits(K6[2], 233) && CubeRootBits(K6[3], 239)
    ensures CubeRootBits(K6[4], 241) && CubeRootBits(K6[5], 251)
    ensures CubeRootBits(K6[6], 257) && CubeRootBits(K6[7], 263)
  {
    hide CubeRootBits;
    CubeRoot(K6[0], 227, 6);
    CubeRoot(K6[1], 229, 6);
    CubeRoot(K6[2], 233, 6);
    CubeRoot(K6[3], 239, 6);
    CubeRoot(K6[4], 241, 6);
    CubeRoot(K6[5], 251, 6);
    CubeRoot(K6[6], 257, 6);
    CubeRoot(K6[7], 263, 6);
  }

  lemma Row6(start: seq<nat>) returns (ps: seq<nat>)
    requires |start| == 48 && Roots(start) && start[47] == 223
    ensures |ps| == 56 && Roots(ps) && ps[55] == 263
  {
    hide *;
    Words6();
    Roots6();
    Gaps6();
    ps := OneMore(start, 223, 227, K6[0]);
    ps := OneMore(ps, 227, 229, K6[1]);
    ps := OneMore(ps, 229, 233, K6[2]);
    ps := OneMore(ps, 233, 239, K6[3]);
    ps := OneMore(ps, 239, 241, K6[4]);
    ps := OneMore(ps, 241, 251, K6[5]);
    ps := OneMore(ps, 251, 257, K6[6]);
    ps := OneMore(ps, 257, 263, K6[7]);
  }

  lemma Words7()
    ensures |K| == 80 && |K7| == 8
    ensures K[56] == K7[0] && K[57] == K7[1] && K[58] == K7[2] && K[59] == K7[3]
    ensures K[60] == K7[4] && K[61] == K7[5] && K[62] == K7[6] && K[63] == K7[7]
  {
    hide K0, K1, K2, K3, K4, K5, K6, K7, K8, K9;
    RowLengths();
  }

  lemma Gaps7()
    ensures IsNext(263, 269) && IsNext(269, 271) && IsNext(271, 277) && IsNext(277, 281)
    ensures IsNext(281, 283) && IsNext(283, 293) && IsNext(293, 307) && IsNext(307, 311)
  {
    hide IsNext;
    Gap(263, 269);
    Gap(269, 271);
    Gap(271, 277);
    Gap(277, 281);
    Gap(281, 283);
    Gap(283, 293);
    Gap(293, 307);
    Gap(307, 311);
  }

  lemma Roots7()
    ensures |K7| == 8
    ensures CubeRootBits(K7[0], 269) && CubeRootBits(K7[1], 271)
    ensures CubeRootBits(K7[2], 277) && CubeRootBits(K7[3], 281)
    ensures CubeRootBits(K7[4], 283) && CubeRootBits(K7[5], 293)
    ensures CubeRootBits(K7[6], 307) && CubeRootBits(K7[7], 311)
  {
    hide CubeRootBits;
    CubeRoot(K7[0], 269, 6);
    CubeRoot(K7[1], 271, 6);
    CubeRoot(K7[2], 277, 6);
    CubeRoot(K7[3], 281, 6);
    CubeRoot(K7[4], 283, 6);
    CubeRoot(K7[5], 293, 6);
    CubeRoot(K7[6], 307, 6);
    CubeRoot(K7[7], 311, 6);
  }

  lemma Row7(start: seq<nat>) returns (ps: seq<nat>)
    requires |start| == 56 && Roots(start) && start[55] == 263
    ensures |ps| == 64 && Roots(ps) && ps[63] == 311
  {
    hide *;
    Words7();
    Roots7();
    Gaps7();
    ps := OneMore(start, 263, 269, K7[0]);
    ps := OneMore(ps, 269, 271, K7[1]);
    ps := OneMore(ps, 271, 277, K7[2]);
    ps := OneMore(ps, 277, 281, K7[3]);
    ps := OneMore(ps, 281, 283, K7[4]);
    ps := OneMore(ps, 283, 293, K7[5]);
    ps := OneMore(ps, 293, 307, K7[6]);
    ps := OneMore(ps, 307, 311, K7[7]);
  }

  lemma Words8()
    ensures |K| == 80 && |K8| == 8
    ensures K[64] == K8[0] && K[65] == K8[1] && K[66] == K8[2] && K[67] == K8[3]
    ensures K[68] == K8[4] && K[69] == K8[5] && K[70] == K8[6] && K[71] == K8[7]
  {
    hide K0, K1, K2, K3, K4, K5, K6, K7, K8, K9;
    RowLengths();
  }

  lemma Gaps8()
    ensures IsNext(311, 313) && IsNext(313, 317) && IsNext(317, 331) && IsNext(331, 337)
    ensures IsNext(337, 347) && IsNext(347, 349) && IsNext(349, 353) && IsNext(353, 359)
  {
    hide IsNext;
    Gap(311, 313);
    Gap(313, 317);
    Gap(317, 331);
    Gap(331, 337);
    Gap(337, 347);
    Gap(347, 349);
    Gap(349, 353);
    Gap(353, 359);
  }

  lemma Roots8()
    ensures |K8| == 8
    ensures CubeRootBits(K8[0], 313) && CubeRootBits(K8[1], 317)
    ensures CubeRootBits(K8[2], 331) && CubeRootBits(K8[3], 337)
    ensures CubeRootBits(K8[4], 347) && CubeRootBits(K8[5], 349)
    ensures CubeRootBits(K8[6], 353) && CubeRootBits(K8[7], 359)
  {
    hide CubeRootBits;
    CubeRoot(K8[0], 313, 6);
    CubeRoot(K8[1], 317, 6);
    CubeRoot(K8[2], 331, 6);
    CubeRoot(K8[3], 337, 6);
    CubeRoot(K8[4], 347, 7);
    CubeRoot(K8[5], 349, 7);
    CubeRoot(K8[6], 353, 7);
    CubeRoot(K8[7], 359, 7);
  }

  lemma Row8(start: seq<nat>) returns (ps: seq<nat>)
    requires |start| == 64 && Roots(start) && start[63] == 311
    ensures |ps| == 72 && Roots(ps) && ps[71] == 359
  {
    hide *;
    Words8();
    Roots8();
    Gaps8();
    ps := OneMore(start, 311, 313, K8[0]);
    ps := OneMore(ps, 313, 317, K8[1]);
    ps := OneMore(ps, 317, 331, K8[2]);
    ps := OneMore(ps, 331, 337, K8[3]);
    ps := OneMore(ps, 337, 347, K8[4]);
    ps := OneMore(ps, 347, 349, K8[5]);
    ps := OneMore(ps, 349, 353, K8[6]);
    ps := OneMore(ps, 353, 359, K8[7]);
  }

  lemma Words9()
    ensures |K| == 80 && |K9| == 8
    ensures K[72] == K9[0] && K[73] == K9[1] && K[74] == K9[2] && K[75] == K9[3]
    ensures K[76] == K9[4] && K[77] == K9[5] && K[78] == K9[6] && K[79] == K9[7]
  {
    hide K0, K1, K2, K3, K4, K5, K6, K7, K8, K9;
    RowLengths();
  }

  lemma Gaps9()
    ensures IsNext(359, 367) && IsNext(367, 373) && IsNext(373, 379) && IsNext(379, 383)
    ensures IsNext(383, 389) && IsNext(389, 397) && IsNext(397, 401) && IsNext(401, 409)
  {
    hide IsNext;
    Gap(359, 367);
    Gap(367, 373);
    Gap(373, 379);
    Gap(379, 383);
    Gap(383, 389);
    Gap(389, 397);
    Gap(397, 401);
    Gap(401, 409);
  }

  lemma Roots9()
    ensures |K9| == 8
    ensures CubeRootBits(K9[0], 367) && CubeRootBits(K9[1], 373)
    ensures CubeRootBits(K9[2], 379) && CubeRootBits(K9[3], 383)
    ensures CubeRootBits(K9[4], 389) && CubeRootBits(K9[5], 397)
    ensures CubeRootBits(K9[6], 401) && CubeRootBits(K9[7], 409)
  {
    hide CubeRootBits;
    CubeRoot(K9[0], 367, 7);
    CubeRoot(K9[1], 373, 7);
    CubeRoot(K9[2], 379, 7);
    CubeRoot(K9[3], 383, 7);
    CubeRoot(K9[4], 389, 7);
    CubeRoot(K9[5], 397, 7);
    CubeRoot(K9[6], 401, 7);
    CubeRoot(K9[7], 409, 7);
  }

  lemma Row9(start: seq<nat>) returns (ps: seq<nat>)
    requires |start| == 72 && Roots(start) && start[71] == 359
    ensures |ps| == 80 && Roots(ps) && ps[79] == 409
  {
    hide *;
    Words9();
    Roots9();
    Gaps9();
    ps := OneMore(start, 359, 367, K9[0]);
    ps := OneMore(ps, 367, 373, K9[1]);
    ps := OneMore(ps, 373, 379, K9[2]);
    ps := OneMore(ps, 379, 383, K9[3]);
    ps := OneMore(ps, 383, 389, K9[4]);
    ps := OneMore(ps, 389, 397, K9[5]);
    ps := OneMore(ps, 397, 401, K9[6]);
    ps := OneMore(ps, 401, 409, K9[7]);
  }

  lemma FirstRoot() returns (ps: seq<nat>)
    ensures |ps| == 1 && Roots(ps) && ps[0] == 2
  {
    hide K, K0, CubeRootBits;
    Words0();
    Roots0();
    ps := [2];
  }

  // Every word of the table is the fraction of the cube root of its prime.
  lemma ConstantsAreCubeRoots() returns (ps: seq<nat>)
    ensures |ps| == |K| == 80 && FirstPrimes(ps)
    ensures forall i :: 0 <= i < 80 ==> CubeRootBits(K[i], ps[i])
  {
    hide K, CubeRootBits, FirstPrimes;
    ConstantLengths();
    ps := Row0();
    ps := Row1(ps);
    ps := Row2(ps);
    ps := Row3(ps);
    ps := Row4(ps);
    ps := Row5(ps);
    ps := Row6(ps);
    ps := Row7(ps);
    ps := Row8(ps);
    ps := Row9(ps);
  }

  // Every word of the initial value is the fraction of the square root of its prime.
  lemma InitialIsSquareRoots()
    ensures FirstPrimes([2, 3, 5, 7, 11, 13, 17, 19]) && |INITIAL| == 8
    ensures forall i :: 0 <= i < 8 ==> SquareRootBits(INITIAL[i], [2, 3, 5, 7, 11, 13, 17, 19][i])
  {
    hide SquareRootBits, FirstPrimes;
    InitialLength();
    SmallPrimes();
    SquareRoot(INITIAL[0], 2, 1);
    SquareRoot(INITIAL[1], 3, 1);
    SquareRoot(INITIAL[2], 5, 2);
    SquareRoot(INITIAL[3], 7, 2);
    SquareRoot(INITIAL[4], 11, 3);
    SquareRoot(INITIAL[5], 13, 3);
    SquareRoot(INITIAL[6], 17, 4);
    SquareRoot(INITIAL[7], 19, 4);
  }

  lemma SmallPrimes()
    ensures FirstPrimes([2, 3, 5, 7, 11, 13, 17, 19])
  {
    var ps := Row0();
    assert ps == [2, 3, 5, 7, 11, 13, 17, 19];
  }
}
