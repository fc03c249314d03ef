/** Where the constants of SHA-256 come from (sections 4.2.2 and 5.3.3 of FIPS 180-4), and what its functions do
    to single bits (section 4.1.2). */
module Sha256Constants {
  import opened Words
  import opened Radix
  import opened Sha256Spec

  // ----- the first 64 primes -----

  predicate IsPrime(n: nat) {
    n >= 2 && forall d | 2 <= d < n :: n % d != 0
  }

  function PrimesBelow(n: nat): nat {
    if n == 0 then 0 else PrimesBelow(n - 1) + if IsPrime(n - 1) then 1 else 0
  }

  /** Passes the sieve by the primes up to 17. */
  predicate Sieved(n: nat) {
    && n >= 2 && (n % 2 != 0 || n == 2) && (n % 3 != 0 || n == 3) && (n % 5 != 0 || n == 5) && (n % 7 != 0 || n == 7)
    && (n % 11 != 0 || n == 11) && (n % 13 != 0 || n == 13) && (n % 17 != 0 || n == 17)
  }

  lemma Cofactor(n: nat, d: nat)
    requires 2 <= d < n < 324 && n % d == 0
    ensures exists m :: 2 <= m <= 17 && m < n && n % m == 0
  {
    var q := n / d;
    assert n == q * d;
    if d > 17 {
      assert q > 17 ==> (q - 18) * (d - 18) >= 0;
      MultipleRemainder(d, q);
      assert 2 <= q <= 17 && q < n && n % q == 0;
    } else {
      assert 2 <= d <= 17 && d < n && n % d == 0;
    }
  }

  lemma MultipleRemainder(a: nat, q: nat)
    requires q > 0
    ensures (a * q) % q == 0
  {
    DivModUnique(a * q, q, a, 0);
  }

  lemma SieveFails(n: nat, p: nat)
    requires p in {2, 3, 5, 7, 11, 13, 17} && p < n && n % p == 0
    ensures !Sieved(n)
  {
  }

  /** A multiple of `a * p` is a multiple of `p`. */
  lemma MultipleFails(n: nat, a: nat, p: nat)
    requires p in {2, 3, 5, 7, 11, 13, 17} && 0 < a && a * p < n && n % (a * p) == 0
    ensures !Sieved(n)
  {
    var q := n / (a * p);
    assert n == q * (a * p);
    Regroup(q, a, p);
    MultipleRemainder(q * a, p);
    SieveFails(n, p);
  }

  lemma SmallFactor(n: nat, m: nat)
    requires 2 <= m <= 17 && m < n && n % m == 0
    ensures !Sieved(n)
  {
    hide Sieved;
    match m
    case 4 => MultipleFails(n, 2, 2);
    case 6 => MultipleFails(n, 3, 2);
    case 8 => MultipleFails(n, 4, 2);
    case 9 => MultipleFails(n, 3, 3);
    case 10 => MultipleFails(n, 5, 2);
    case 12 => MultipleFails(n, 6, 2);
    case 14 => MultipleFails(n, 7, 2);
    case 15 => MultipleFails(n, 5, 3);
    case 16 => MultipleFails(n, 8, 2);
    case _ => SieveFails(n, m);
  }

  lemma SievedIsPrime(n: nat)
    requires n < 324
    ensures IsPrime(n) <==> Sieved(n)
  {
    if n >= 2 && !IsPrime(n) {
      hide Sieved;
      var d :| 2 <= d < n && n % d == 0;
      Cofactor(n, d);
      var m :| 2 <= m <= 17 && m < n && n % m == 0;
      SmallFactor(n, m);
    }
  }

  /** Between a prime and the next the count goes up by one. */
  lemma {:induction false} CountOver(p: nat, n: nat)
    requires p < n < 324 && Sieved(p) && forall m | p < m < n :: !Sieved(m)
    ensures PrimesBelow(n) == PrimesBelow(p) + 1
  {
    SievedIsPrime(n - 1);
    if n - 1 > p {
      CountOver(p, n - 1);
    }
  }

  /** The first 64 primes, eight to a row. */
  function PrimeRow(j: nat): (r: seq<nat>)
    requires j < 8
    ensures |r| == 8
  {
    if j == 0 then [2, 3, 5, 7, 11, 13, 17, 19]
    else if j == 1 then [23, 29, 31, 37, 41, 43, 47, 53]
    else if j == 2 then [59, 61, 67, 71, 73, 79, 83, 89]
    else if j == 3 then [97, 101, 103, 107, 109, 113, 127, 131]
    else if j == 4 then [137, 139, 149, 151, 157, 163, 167, 173]
    else if j == 5 then [179, 181, 191, 193, 197, 199, 211, 223]
    else if j == 6 then [227, 229, 233, 239, 241, 251, 257, 263]
    else [269, 271, 277, 281, 283, 293, 307, 311]
  }

  function PrimeAt(i: nat): nat
    requires i < 64
  {
    PrimeRow(i / 8)[i % 8]
  }

  /** `p` is the prime with `i` primes below it. */
  predicate IsPrimeNumber(i: nat, p: nat) {
    IsPrime(p) && PrimesBelow(p) == i
  }

  predicate NoPrime(n: nat, q: nat) {
    n < q ==> !Sieved(n)
  }

  /** From one prime to the next, which is not far: none of the odd numbers between them is prime. */
  lemma PrimeStep(i: nat, p: nat, q: nat)
    requires PrimesBelow(p) == i && 2 <= p < q < 324 && Sieved(p)
    requires (p == 2 && q == 3) || (p % 2 == 1 && q <= p + 14)
    requires NoPrime(p + 2, q) && NoPrime(p + 4, q) && NoPrime(p + 6, q)
    requires NoPrime(p + 8, q) && NoPrime(p + 10, q) && NoPrime(p + 12, q)
    ensures IsPrimeNumber(i, p) && PrimesBelow(q) == i + 1
  {
    hide Sieved, IsPrime;
    SievedIsPrime(p);
    forall m | p < m < q ensures !Sieved(m) {
      if m % 2 == 0 {
        SieveFails(m, 2);
      } else {
        assert m == p + 2 * ((m - p) / 2);
      }
    }
    CountOver(p, q);
  }

  lemma NoPrimesBelowTwo()
    ensures PrimesBelow(2) == 0
  {
  }

  lemma PrimeRow0()
    requires PrimesBelow(2) == 0
    ensures IsPrimeNumber(0, 2) && IsPrimeNumber(1, 3) && IsPrimeNumber(2, 5) && IsPrimeNumber(3, 7)
    ensures IsPrimeNumber(4, 11) && IsPrimeNumber(5, 13) && IsPrimeNumber(6, 17) && IsPrimeNumber(7, 19)
    ensures PrimesBelow(23) == 8
  {
    hide IsPrimeNumber, PrimesBelow;
    PrimeStep(0, 2, 3); PrimeStep(1, 3, 5); PrimeStep(2, 5, 7); PrimeStep(3, 7, 11);
    PrimeStep(4, 11, 13); PrimeStep(5, 13, 17); PrimeStep(6, 17, 19); PrimeStep(7, 19, 23);
  }

  lemma PrimeRow1()
    requires PrimesBelow(23) == 8
    ensures IsPrimeNumber(8, 23) && IsPrimeNumber(9, 29) && IsPrimeNumber(10, 31) && IsPrimeNumber(11, 37)
    ensures IsPrimeNumber(12, 41) && IsPrimeNumber(13, 43) && IsPrimeNumber(14, 47) && IsPrimeNumber(15, 53)
    ensures PrimesBelow(59) == 16
  {
    hide IsPrimeNumber, PrimesBelow;
    PrimeStep(8, 23, 29); PrimeStep(9, 29, 31); PrimeStep(10, 31, 37); PrimeStep(11, 37, 41);
    PrimeStep(12, 41, 43); PrimeStep(13, 43, 47); PrimeStep(14, 47, 53); PrimeStep(15, 53, 59);
  }

  lemma PrimeRow2()
    requires PrimesBelow(59) == 16
    ensures IsPrimeNumber(16, 59) && IsPrimeNumber(17, 61) && IsPrimeNumber(18, 67) && IsPrimeNumber(19, 71)
    ensures IsPrimeNumber(20, 73) && IsPrimeNumber(21, 79) && IsPrimeNumber(22, 83) && IsPrimeNumber(23, 89)
    ensures PrimesBelow(97) == 24
  {
    hide IsPrimeNumber, PrimesBelow;
    PrimeStep(16, 59, 61); PrimeStep(17, 61, 67); PrimeStep(18, 67, 71); PrimeStep(19, 71, 73);
    PrimeStep(20, 73, 79); PrimeStep(21, 79, 83); PrimeStep(22, 83, 89); PrimeStep(23, 89, 97);
  }

  lemma PrimeRow3()
    requires PrimesBelow(97) == 24
    ensures IsPrimeNumber(24, 97) && IsPrimeNumber(25, 101) && IsPrimeNumber(26, 103) && IsPrimeNumber(27, 107)
    ensures IsPrimeNumber(28, 109) && IsPrimeNumber(29, 113) && IsPrimeNumber(30, 127) && IsPrimeNumber(31, 131)
    ensures PrimesBelow(137) == 32
  {
    hide IsPrimeNumber, PrimesBelow;
    PrimeStep(24, 97, 101); PrimeStep(25, 101, 103); PrimeStep(26, 103, 107); PrimeStep(27, 107, 109);
    PrimeStep(28, 109, 113); PrimeStep(29, 113, 127); PrimeStep(30, 127, 131); PrimeStep(31, 131, 137);
  }

  lemma PrimeRow4()
    requires PrimesBelow(137) == 32
    ensures IsPrimeNumber(32, 137) && IsPrimeNumber(33, 139) && IsPrimeNumber(34, 149) && IsPrimeNumber(35, 151)
    ensures IsPrimeNumber(36, 157) && IsPrimeNumber(37, 163) && IsPrimeNumber(38, 167) && IsPrimeNumber(39, 173)
    ensures PrimesBelow(179) == 40
  {
    hide IsPrimeNumber, PrimesBelow;
    PrimeStep(32, 137, 139); PrimeStep(33, 139, 149); PrimeStep(34, 149, 151); PrimeStep(35, 151, 157);
    PrimeStep(36, 157, 163); PrimeStep(37, 163, 167); PrimeStep(38, 167, 173); PrimeStep(39, 173, 179);
  }

  lemma PrimeRow5()
    requires PrimesBelow(179) == 40
    ensures IsPrimeNumber(40, 179) && IsPrimeNumber(41, 181) && IsPrimeNumber(42, 191) && IsPrimeNumber(43, 193)
    ensures IsPrimeNumber(44, 197) && IsPrimeNumber(45, 199) && IsPrimeNumber(46, 211) && IsPrimeNumber(47, 223)
    ensures PrimesBelow(227) == 48
  {
    hide IsPrimeNumber, PrimesBelow;
    PrimeStep(40, 179, 181); PrimeStep(41, 181, 191); PrimeStep(42, 191, 193); PrimeStep(43, 193, 197);
    PrimeStep(44, 197, 199); PrimeStep(45, 199, 211); PrimeStep(46, 211, 223); PrimeStep(47, 223, 227);
  }

  lemma PrimeRow6()
    requires PrimesBelow(227) == 48
    ensures IsPrimeNumber(48, 227) && IsPrimeNumber(49, 229) && IsPrimeNumber(50, 233) && IsPrimeNumber(51, 239)
    ensures IsPrimeNumber(52, 241) && IsPrimeNumber(53, 251) && IsPrimeNumber(54, 257) && IsPrimeNumber(55, 263)
    ensures PrimesBelow(269) == 56
  {
    hide IsPrimeNumber, PrimesBelow;
    PrimeStep(48, 227, 229); PrimeStep(49, 229, 233); PrimeStep(50, 233, 239); PrimeStep(51, 239, 241);
    PrimeStep(52, 241, 251); PrimeStep(53, 251, 257); PrimeStep(54, 257, 263); PrimeStep(55, 263, 269);
  }

  lemma PrimeRow7()
    requires PrimesBelow(269) == 56
    ensures IsPrimeNumber(56, 269) && IsPrimeNumber(57, 271) && IsPrimeNumber(58, 277) && IsPrimeNumber(59, 281)
    ensures IsPrimeNumber(60, 283) && IsPrimeNumber(61, 293) && IsPrimeNumber(62, 307) && IsPrimeNumber(63, 311)
    ensures PrimesBelow(313) == 64
  {
    hide IsPrimeNumber, PrimesBelow;
    PrimeStep(56, 269, 271); PrimeStep(57, 271, 277); PrimeStep(58, 277, 281); PrimeStep(59, 281, 283);
    PrimeStep(60, 283, 293); PrimeStep(61, 293, 307); PrimeStep(62, 307, 311); PrimeStep(63, 311, 313);
  }

  lemma FirstPrimes(i: nat)
    requires i < 64
    ensures IsPrimeNumber(i, PrimeAt(i))
  {
    hide IsPrimeNumber, PrimesBelow;
    NoPrimesBelowTwo();
    PrimeRow0(); PrimeRow1(); PrimeRow2(); PrimeRow3(); PrimeRow4(); PrimeRow5(); PrimeRow6(); PrimeRow7();
  }

  // ----- the constants -----

  /** `k` is the first 32 bits of the fractional part of the square root of `p`. */
  predicate IsSquareRootFraction(p: nat, k: word, whole: nat) {
    var r := whole * 0x1_0000_0000 + k;
    r * r <= p * 0x1_0000_0000_0000_0000 < (r + 1) * (r + 1)
  }

  /** `k` is the first 32 bits of the fractional part of the cube root of `p`. */
  predicate IsCubeRootFraction(p: nat, k: word, whole: nat) {
    var r := whole * 0x1_0000_0000 + k;
    r * r * r <= p * 0x1_0000_0000_0000_0000_0000_0000 < (r + 1) * (r + 1) * (r + 1)
  }

  function CubeRootFloor(p: nat): nat {
    if p < 8 then 1 else if p < 27 then 2 else if p < 64 then 3 else if p < 125 then 4 else if p < 216 then 5 else 6
  }

  predicate RowOfRoots(p: seq<nat>, k: seq<word>)
    requires |p| == 8 && |k| == 8
  {
    forall t | 0 <= t < 8 :: IsCubeRootFraction(p[t], k[t], CubeRootFloor(p[t]))
  }

  lemma KRow0()
    ensures RowOfRoots(PrimeRow(0), KRow(0))
  {
    var p, k := PrimeRow(0), KRow(0);
    assert IsCubeRootFraction(p[0], k[0], CubeRootFloor(p[0]));
    assert IsCubeRootFraction(p[1], k[1], CubeRootFloor(p[1]));
    assert IsCubeRootFraction(p[2], k[2], CubeRootFloor(p[2]));
    assert IsCubeRootFraction(p[3], k[3], CubeRootFloor(p[3]));
    assert IsCubeRootFraction(p[4], k[4], CubeRootFloor(p[4]));
    assert IsCubeRootFraction(p[5], k[5], CubeRootFloor(p[5]));
    assert IsCubeRootFraction(p[6], k[6], CubeRootFloor(p[6]));
    assert IsCubeRootFraction(p[7], k[7], CubeRootFloor(p[7]));
  }

  lemma KRow1()
    ensures RowOfRoots(PrimeRow(1), KRow(1))
  {
    var p, k := PrimeRow(1), KRow(1);
    assert IsCubeRootFraction(p[0], k[0], CubeRootFloor(p[0]));
    assert IsCubeRootFraction(p[1], k[1], CubeRootFloor(p[1]));
    assert IsCubeRootFraction(p[2], k[2], CubeRootFloor(p[2]));
    assert IsCubeRootFraction(p[3], k[3], CubeRootFloor(p[3]));
    assert IsCubeRootFraction(p[4], k[4], CubeRootFloor(p[4]));
    assert IsCubeRootFraction(p[5], k[5], CubeRootFloor(p[5]));
    assert IsCubeRootFraction(p[6], k[6], CubeRootFloor(p[6]));
    assert IsCubeRootFraction(p[7], k[7], CubeRootFloor(p[7]));
  }

  lemma KRow2()
    ensures RowOfRoots(PrimeRow(2), KRow(2))
  {
    var p, k := PrimeRow(2), KRow(2);
    assert IsCubeRootFraction(p[0], k[0], CubeRootFloor(p[0]));
    assert IsCubeRootFraction(p[1], k[1], CubeRootFloor(p[1]));
    assert IsCubeRootFraction(p[2], k[2], CubeRootFloor(p[2]));
    assert IsCubeRootFraction(p[3], k[3], CubeRootFloor(p[3]));
    assert IsCubeRootFraction(p[4], k[4], CubeRootFloor(p[4]));
    assert IsCubeRootFraction(p[5], k[5], CubeRootFloor(p[5]));
    assert IsCubeRootFraction(p[6], k[6], CubeRootFloor(p[6]));
    assert IsCubeRootFraction(p[7], k[7], CubeRootFloor(p[7]));
  }

  lemma KRow3()
    ensures RowOfRoots(PrimeRow(3), KRow(3))
  {
    var p, k := PrimeRow(3), KRow(3);
    assert IsCubeRootFraction(p[0], k[0], CubeRootFloor(p[0]));
    assert IsCubeRootFraction(p[1], k[1], CubeRootFloor(p[1]));
    assert IsCubeRootFraction(p[2], k[2], CubeRootFloor(p[2]));
    assert IsCubeRootFraction(p[3], k[3], CubeRootFloor(p[3]));
    assert IsCubeRootFraction(p[4], k[4], CubeRootFloor(p[4]));
    assert IsCubeRootFraction(p[5], k[5], CubeRootFloor(p[5]));
    assert IsCubeRootFraction(p[6], k[6], CubeRootFloor(p[6]));
    assert IsCubeRootFraction(p[7], k[7], CubeRootFloor(p[7]));
  }

  lemma KRow4()
    ensures RowOfRoots(PrimeRow(4), KRow(4))
  {
    var p, k := PrimeRow(4), KRow(4);
    assert IsCubeRootFraction(p[0], k[0], CubeRootFloor(p[0]));
    assert IsCubeRootFraction(p[1], k[1], CubeRootFloor(p[1]));
    assert IsCubeRootFraction(p[2], k[2], CubeRootFloor(p[2]));
    assert IsCubeRootFraction(p[3], k[3], CubeRootFloor(p[3]));
    assert IsCubeRootFraction(p[4], k[4], CubeRootFloor(p[4]));
    assert IsCubeRootFraction(p[5], k[5], CubeRootFloor(p[5]));
    assert IsCubeRootFraction(p[6], k[6], CubeRootFloor(p[6]));
    assert IsCubeRootFraction(p[7], k[7], CubeRootFloor(p[7]));
  }

  lemma KRow5()
    ensures RowOfRoots(PrimeRow(5), KRow(5))
  {
    var p, k := PrimeRow(5), KRow(5);
    assert IsCubeRootFraction(p[0], k[0], CubeRootFloor(p[0]));
    assert IsCubeRootFraction(p[1], k[1], CubeRootFloor(p[1]));
    assert IsCubeRootFraction(p[2], k[2], CubeRootFloor(p[2]));
    assert IsCubeRootFraction(p[3], k[3], CubeRootFloor(p[3]));
    assert IsCubeRootFraction(p[4], k[4], CubeRootFloor(p[4]));
    assert IsCubeRootFraction(p[5], k[5], CubeRootFloor(p[5]));
    assert IsCubeRootFraction(p[6], k[6], CubeRootFloor(p[6]));
    assert IsCubeRootFraction(p[7], k[7], CubeRootFloor(p[7]));
  }

  lemma KRow6()
    ensures RowOfRoots(PrimeRow(6), KRow(6))
  {
    var p, k := PrimeRow(6), KRow(6);
    assert IsCubeRootFraction(p[0], k[0], CubeRootFloor(p[0]));
    assert IsCubeRootFraction(p[1], k[1], CubeRootFloor(p[1]));
    assert IsCubeRootFraction(p[2], k[2], CubeRootFloor(p[2]));
    assert IsCubeRootFraction(p[3], k[3], CubeRootFloor(p[3]));
    assert IsCubeRootFraction(p[4], k[4], CubeRootFloor(p[4]));
    assert IsCubeRootFraction(p[5], k[5], CubeRootFloor(p[5]));
    assert IsCubeRootFraction(p[6], k[6], CubeRootFloor(p[6]));
    assert IsCubeRootFraction(p[7], k[7], CubeRootFloor(p[7]));
  }

  lemma KRow7()
    ensures RowOfRoots(PrimeRow(7), KRow(7))
  {
    var p, k := PrimeRow(7), KRow(7);
    assert IsCubeRootFraction(p[0], k[0], CubeRootFloor(p[0]));
    assert IsCubeRootFraction(p[1], k[1], CubeRootFloor(p[1]));
    assert IsCubeRootFraction(p[2], k[2], CubeRootFloor(p[2]));
    assert IsCubeRootFraction(p[3], k[3], CubeRootFloor(p[3]));
    assert IsCubeRootFraction(p[4], k[4], CubeRootFloor(p[4]));
    assert IsCubeRootFraction(p[5], k[5], CubeRootFloor(p[5]));
    assert IsCubeRootFraction(p[6], k[6], CubeRootFloor(p[6]));
    assert IsCubeRootFraction(p[7], k[7], CubeRootFloor(p[7]));
  }

  /** The i-th round constant is the first 32 bits of the fractional part of the cube root of the i-th prime. */
  lemma RoundConstants(i: nat)
    requires i < 64
    ensures exists p: nat, whole: nat :: IsPrimeNumber(i, p) && IsCubeRootFraction(p, K(i), whole)
  {
    hide IsPrimeNumber, IsCubeRootFraction, PrimeRow, KRow;
    FirstPrimes(i);
    KRows(i / 8);
    assert IsCubeRootFraction(PrimeAt(i), K(i), CubeRootFloor(PrimeAt(i)));
  }

  lemma KRows(j: nat)
    requires j < 8
    ensures RowOfRoots(PrimeRow(j), KRow(j))
  {
    hide RowOfRoots;
    KRow0(); KRow1(); KRow2(); KRow3(); KRow4(); KRow5(); KRow6(); KRow7();
  }

  /** The i-th word of the initial hash value is the same for the square root of the i-th prime. */
  lemma InitialHash(i: nat)
    requires i < 8
    ensures exists p: nat, whole: nat :: IsPrimeNumber(i, p) && IsSquareRootFraction(p, H0()[i], whole)
  {
    hide IsPrimeNumber;
    FirstPrimes(i);
    assert IsSquareRootFraction(2, H0()[0], 1) && IsSquareRootFraction(3, H0()[1], 1);
    assert IsSquareRootFraction(5, H0()[2], 2) && IsSquareRootFraction(7, H0()[3], 2);
    assert IsSquareRootFraction(11, H0()[4], 3) && IsSquareRootFraction(13, H0()[5], 3);
    assert IsSquareRootFraction(17, H0()[6], 4) && IsSquareRootFraction(19, H0()[7], 4);
  }

  // ----- the functions, bit by bit -----

  /** Bit `k` of a register, where bit 0 is the least significant. Bit numbers are taken modulo 32. */
  predicate BitOf(b: bv32, k: bv5) {
    (b >> k) & 1 == 1
  }

  predicate Bit(x: word, k: bv5) {
    BitOf(x as bv32, k)
  }

  function Xor3(a: bool, b: bool, c: bool): bool {
    (a != b) != c
  }

  lemma ToBits(b: bv32)
    ensures (b as word) as bv32 == b
  {
  }

  lemma PlainXorAt(a: bv32, b: bv32, k: bv5)
    ensures BitOf(a ^ b, k) == (BitOf(a, k) != BitOf(b, k))
  {
  }

  lemma XorAt(a: bv32, b: bv32, k: bv5)
    ensures BitOf(Xor(a, b), k) == (BitOf(a, k) != BitOf(b, k))
  {
    hide BitOf;
    PlainXorAt(a, b, k);
  }

  lemma Xor3At(a: bv32, b: bv32, c: bv32, k: bv5)
    ensures BitOf(Xor(Xor(a, b), c), k) == Xor3(BitOf(a, k), BitOf(b, k), BitOf(c, k))
  {
    hide BitOf, Xor;
    XorAt(a, b, k);
    XorAt(Xor(a, b), c, k);
  }

  lemma AndAt(a: bv32, b: bv32, k: bv5)
    ensures BitOf(And(a, b), k) == (BitOf(a, k) && BitOf(b, k))
  {
  }

  lemma NotAt(a: bv32, k: bv5)
    ensures BitOf(Not(a), k) == !BitOf(a, k)
  {
  }

  lemma Rotr2At(b: bv32, k: bv5)
    ensures BitOf(Rotr(b, 2), k) == BitOf(b, k + 2)
  {
  }

  lemma Rotr6At(b: bv32, k: bv5)
    ensures BitOf(Rotr(b, 6), k) == BitOf(b, k + 6)
  {
  }

  lemma Rotr7At(b: bv32, k: bv5)
    ensures BitOf(Rotr(b, 7), k) == BitOf(b, k + 7)
  {
  }

  lemma Rotr11At(b: bv32, k: bv5)
    ensures BitOf(Rotr(b, 11), k) == BitOf(b, k + 11)
  {
  }

  lemma Rotr13At(b: bv32, k: bv5)
    ensures BitOf(Rotr(b, 13), k) == BitOf(b, k + 13)
  {
  }

  lemma Rotr17At(b: bv32, k: bv5)
    ensures BitOf(Rotr(b, 17), k) == BitOf(b, k + 17)
  {
  }

  lemma Rotr18At(b: bv32, k: bv5)
    ensures BitOf(Rotr(b, 18), k) == BitOf(b, k + 18)
  {
  }

  lemma Rotr19At(b: bv32, k: bv5)
    ensures BitOf(Rotr(b, 19), k) == BitOf(b, k + 19)
  {
  }

  lemma Rotr22At(b: bv32, k: bv5)
    ensures BitOf(Rotr(b, 22), k) == BitOf(b, k + 22)
  {
  }

  lemma Rotr25At(b: bv32, k: bv5)
    ensures BitOf(Rotr(b, 25), k) == BitOf(b, k + 25)
  {
  }

  lemma Shr3At(b: bv32, k: bv5)
    ensures BitOf(Shr(b, 3), k) == (k < 29 && BitOf(b, k + 3))
  {
  }

  lemma Shr10At(b: bv32, k: bv5)
    ensures BitOf(Shr(b, 10), k) == (k < 22 && BitOf(b, k + 10))
  {
  }

  /** Bit `k` of the large sigma functions comes from three bits further on, around the word. */
  lemma BigSigma0Bit(x: word, k: bv5)
    ensures Bit(BigSigma0(x), k) == Xor3(Bit(x, k + 2), Bit(x, k + 13), Bit(x, k + 22))
  {
    hide Rotr, Shr, Xor, BitOf;
    var b := x as bv32;
    Xor3At(Rotr(b, 2), Rotr(b, 13), Rotr(b, 22), k);
    Rotr2At(b, k);
    Rotr13At(b, k);
    Rotr22At(b, k);
    ToBits(BigSigma0Bits(b));
  }

  lemma BigSigma1Bit(x: word, k: bv5)
    ensures Bit(BigSigma1(x), k) == Xor3(Bit(x, k + 6), Bit(x, k + 11), Bit(x, k + 25))
  {
    hide Rotr, Shr, Xor, BitOf;
    var b := x as bv32;
    Xor3At(Rotr(b, 6), Rotr(b, 11), Rotr(b, 25), k);
    Rotr6At(b, k);
    Rotr11At(b, k);
    Rotr25At(b, k);
    ToBits(BigSigma1Bits(b));
  }

  /** The third part of the small ones is a shift, which takes zeros from beyond the word. */
  lemma SmallSigma0Bit(x: word, k: bv5)
    ensures Bit(SmallSigma0(x), k) == Xor3(Bit(x, k + 7), Bit(x, k + 18), k < 29 && Bit(x, k + 3))
  {
    hide Rotr, Shr, Xor, BitOf;
    var b := x as bv32;
    Xor3At(Rotr(b, 7), Rotr(b, 18), Shr(b, 3), k);
    Rotr7At(b, k);
    Rotr18At(b, k);
    Shr3At(b, k);
    ToBits(SmallSigma0Bits(b));
  }

  lemma SmallSigma1Bit(x: word, k: bv5)
    ensures Bit(SmallSigma1(x), k) == Xor3(Bit(x, k + 17), Bit(x, k + 19), k < 22 && Bit(x, k + 10))
  {
    hide Rotr, Shr, Xor, BitOf;
    var b := x as bv32;
    Xor3At(Rotr(b, 17), Rotr(b, 19), Shr(b, 10), k);
    Rotr17At(b, k);
    Rotr19At(b, k);
    Shr10At(b, k);
    ToBits(SmallSigma1Bits(b));
  }

  /** Ch chooses. */
  lemma ChBit(x: word, y: word, z: word, k: bv5)
    ensures Bit(Ch(x, y, z), k) == if Bit(x, k) then Bit(y, k) else Bit(z, k)
  {
    hide And, Not, Xor, BitOf;
    var a, b, c := x as bv32, y as bv32, z as bv32;
    XorAt(And(a, b), And(Not(a), c), k);
    AndAt(a, b, k);
    AndAt(Not(a), c, k);
    NotAt(a, k);
    ToBits(ChBits(a, b, c));
  }

  /** Maj takes the majority. */
  lemma MajBit(x: word, y: word, z: word, k: bv5)
    ensures Bit(Maj(x, y, z), k) == if Bit(x, k) == Bit(y, k) then Bit(x, k) else Bit(z, k)
  {
    hide And, Xor, BitOf;
    var a, b, c := x as bv32, y as bv32, z as bv32;
    Xor3At(And(a, b), And(a, c), And(b, c), k);
    AndAt(a, b, k);
    AndAt(a, c, k);
    AndAt(b, c, k);
    ToBits(MajBits(a, b, c));
  }
}
