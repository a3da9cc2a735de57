/** Where the constants of SHA-256 come from: sections 4.2.2 and 5.3.2 of FIPS 180-2 take the first 32
    bits of the fractional parts of the cube and square roots of the first primes. */
module Sha256Constants {
  import opened Bytes
  import opened Sha256Spec

  /** More than one, and not the product of two numbers that are. */
  ghost predicate IsPrime(n: nat)
  {
    n >= 2 && forall d: nat, e: nat :: d >= 2 && e >= 2 ==> d * e != n
  }

  ghost function PrimesBelow(n: nat): nat
  {
    if n == 0 then 0 else PrimesBelow(n - 1) + if IsPrime(n - 1) then 1 else 0
  }

  /** `n` and `x` are the integer parts of the cube root and of 2^32 times it. */
  predicate CubeRoot(p: nat, n: int, x: int)
  {
    && n * n * n <= p < (n + 1) * (n + 1) * (n + 1)
    && x * x * x <= p * 0x1_00000000_00000000_00000000 < (x + 1) * (x + 1) * (x + 1)
  }

  predicate SquareRoot(p: nat, n: int, x: int)
  {
    n * n <= p < (n + 1) * (n + 1) && x * x <= p * 0x1_00000000_00000000 < (x + 1) * (x + 1)
  }

  /** A number with these 32 bits behind the point, as a multiple of 2^-32. */
  function Fixed(n: int, fraction: bv32): int { n * 0x1_0000_0000 + fraction as int }

  // The first primes

  /** No smaller prime divides the number. */
  predicate Passes(n: nat)
  {
    && (n == 2 || n % 2 != 0) && (n == 3 || n % 3 != 0) && (n == 5 || n % 5 != 0) && (n == 7 || n % 7 != 0)
    && (n == 11 || n % 11 != 0) && (n == 13 || n % 13 != 0) && (n == 17 || n % 17 != 0)
  }

  predicate Small(q: nat) { q == 2 || q == 3 || q == 5 || q == 7 || q == 11 || q == 13 || q == 17 }

  lemma Multiple(q: int, g: int)
    requires q > 0
    ensures q * g % q == 0
  {
    var d := g - q * g / q;
    assert q * d == q * g - q * (q * g / q);
    assert d >= 1 ==> q * d >= q;
    assert d <= -1 ==> q * d <= -q;
  }

  lemma Divides(n: nat, q: nat, g: nat)
    requires n == q * g && g >= 2 && Small(q)
    ensures !Passes(n)
  {
    Multiple(q, g);
    assert n != q;
  }

  /** The smaller one of two factors is less than 19. */
  lemma SmallFactor(n: nat, c: nat, f: nat)
    requires n == c * f && 2 <= c <= f && n < 361
    ensures !Passes(n)
  {
    assert c * c <= n;
    assert c < 19;
    if c % 2 == 0 {
      assert n == 2 * (c / 2 * f);
      Divides(n, 2, c / 2 * f);
    } else if c % 3 == 0 {
      assert n == 3 * (c / 3 * f);
      Divides(n, 3, c / 3 * f);
    } else {
      Divides(n, c, f);
    }
  }

  lemma NoFactor(n: nat)
    requires n >= 2 && !Passes(n)
    ensures !IsPrime(n)
  {
    var q := if n % 2 == 0 && n != 2 then 2 else if n % 3 == 0 && n != 3 then 3 else if n % 5 == 0 && n != 5 then 5
      else if n % 7 == 0 && n != 7 then 7 else if n % 11 == 0 && n != 11 then 11
      else if n % 13 == 0 && n != 13 then 13 else 17;
    assert q * (n / q) == n && n / q >= 2;
  }

  /** Up to 19 squared, seven divisions decide. */
  lemma TrialDivision(n: nat)
    requires 2 <= n < 361
    ensures IsPrime(n) <==> Passes(n)
  {
    hide Passes;
    if !IsPrime(n) {
      var d: nat, e: nat :| d >= 2 && e >= 2 && d * e == n;
      if d <= e {
        SmallFactor(n, d, e);
      } else {
        SmallFactor(n, e, d);
      }
    }
    if !Passes(n) {
      NoFactor(n);
    }
  }

  // The constants

  lemma ConstantsTo16()
    ensures K(0) == 0x428a2f98 && K(1) == 0x71374491 && K(2) == 0xb5c0fbcf && K(3) == 0xe9b5dba5
    ensures K(4) == 0x3956c25b && K(5) == 0x59f111f1 && K(6) == 0x923f82a4 && K(7) == 0xab1c5ed5
    ensures K(8) == 0xd807aa98 && K(9) == 0x12835b01 && K(10) == 0x243185be && K(11) == 0x550c7dc3
    ensures K(12) == 0x72be5d74 && K(13) == 0x80deb1fe && K(14) == 0x9bdc06a7 && K(15) == 0xc19bf174
  {
  }

  lemma ConstantsTo32()
    ensures K(16) == 0xe49b69c1 && K(17) == 0xefbe4786 && K(18) == 0x0fc19dc6 && K(19) == 0x240ca1cc
    ensures K(20) == 0x2de92c6f && K(21) == 0x4a7484aa && K(22) == 0x5cb0a9dc && K(23) == 0x76f988da
    ensures K(24) == 0x983e5152 && K(25) == 0xa831c66d && K(26) == 0xb00327c8 && K(27) == 0xbf597fc7
    ensures K(28) == 0xc6e00bf3 && K(29) == 0xd5a79147 && K(30) == 0x06ca6351 && K(31) == 0x14292967
  {
  }

  lemma ConstantsTo48()
    ensures K(32) == 0x27b70a85 && K(33) == 0x2e1b2138 && K(34) == 0x4d2c6dfc && K(35) == 0x53380d13
    ensures K(36) == 0x650a7354 && K(37) == 0x766a0abb && K(38) == 0x81c2c92e && K(39) == 0x92722c85
    ensures K(40) == 0xa2bfe8a1 && K(41) == 0xa81a664b && K(42) == 0xc24b8b70 && K(43) == 0xc76c51a3
    ensures K(44) == 0xd192e819 && K(45) == 0xd6990624 && K(46) == 0xf40e3585 && K(47) == 0x106aa070
  {
  }

  lemma ConstantsTo64()
    ensures K(48) == 0x19a4c116 && K(49) == 0x1e376c08 && K(50) == 0x2748774c && K(51) == 0x34b0bcb5
    ensures K(52) == 0x391c0cb3 && K(53) == 0x4ed8aa4a && K(54) == 0x5b9cca4f && K(55) == 0x682e6ff3
    ensures K(56) == 0x748f82ee && K(57) == 0x78a5636f && K(58) == 0x84c87814 && K(59) == 0x8cc70208
    ensures K(60) == 0x90befffa && K(61) == 0xa4506ceb && K(62) == 0xbef9a3f7 && K(63) == 0xc67178f2
  {
  }

  /** The prime with `t` primes below it. */
  ghost predicate Nth(t: nat, p: nat)
  {
    IsPrime(p) && PrimesBelow(p) == t
  }

  /** The constant comes from the cube root of the prime of the same rank. */
  ghost predicate FromCubeRoot(t: nat)
    requires t < 64
  {
    exists p: nat, n: nat :: Nth(t, p) && CubeRoot(p, n, Fixed(n, K(t)))
  }

  ghost predicate FromSquareRoot(t: nat, k: bv32)
  {
    exists p: nat, n: nat :: Nth(t, p) && SquareRoot(p, n, Fixed(n, k))
  }

  lemma NotPrime(n: nat, d: nat, e: nat)
    requires n == d * e && d >= 2 && e >= 2
    ensures PrimesBelow(n + 1) == PrimesBelow(n)
  {
  }

  /** An odd number that is no prime, and the even one in front of it. */
  lemma Composite(h: nat, d: nat, e: nat)
    requires 2 * h + 1 == d * e && h >= 2 && d >= 2 && e >= 2
    ensures PrimesBelow(2 * h + 2) == PrimesBelow(2 * h)
  {
    hide PrimesBelow;
    NotPrime(2 * h, 2, h);
    NotPrime(2 * h + 1, d, e);
  }

  /** An odd prime, and the even number in front of it. */
  lemma Prime(h: nat, t: nat, n: nat, k: bv32, x: int)
    requires 2 <= h < 180 && Passes(2 * h + 1) && PrimesBelow(2 * h) == t < 64
    requires K(t) == k && Fixed(n, k) == x && CubeRoot(2 * h + 1, n, x)
    ensures PrimesBelow(2 * h + 2) == t + 1 && Nth(t, 2 * h + 1) && FromCubeRoot(t)
  {
    hide Passes, K, CubeRoot, Fixed;
    TrialDivision(2 * h + 1);
    NotPrime(2 * h, 2, h);
    assert PrimesBelow(2 * h + 1) == t;
  }

  lemma TwoAndThree()
    ensures Nth(0, 2) && Nth(1, 3) && PrimesBelow(4) == 2
  {
    TrialDivision(2);
    TrialDivision(3);
    assert !IsPrime(0) && !IsPrime(1) && IsPrime(2) && IsPrime(3);
    hide IsPrime;
    assert PrimesBelow(2) == 0;
  }

  lemma FirstConstants()
    ensures FromCubeRoot(0) && FromCubeRoot(1)
  {
    hide Nth, PrimesBelow, K;
    TwoAndThree();
    ConstantsTo16();
    assert CubeRoot(2, 1, 0x1_428a2f98) && CubeRoot(3, 1, 0x1_71374491);
    hide CubeRoot;
    assert Fixed(1, K(0)) == 0x1_428a2f98 && Fixed(1, K(1)) == 0x1_71374491;
    hide Fixed;
  }

  lemma Constants0()
    ensures PrimesBelow(20) == 8
    ensures Nth(0, 2) && Nth(1, 3) && Nth(2, 5) && Nth(3, 7)
    ensures Nth(4, 11) && Nth(5, 13) && Nth(6, 17) && Nth(7, 19)
    ensures forall t :: 0 <= t < 8 ==> FromCubeRoot(t)
  {
    TwoAndThree();
    FirstConstants();
    ConstantsTo16();
    hide K, IsPrime, PrimesBelow, FromCubeRoot, Nth;
    assert PrimesBelow(6) == 3 && Nth(2, 5) && FromCubeRoot(2) by { Prime(2, 2, 1, 0xb5c0fbcf, 0x1_b5c0fbcf); }
    assert PrimesBelow(8) == 4 && Nth(3, 7) && FromCubeRoot(3) by { Prime(3, 3, 1, 0xe9b5dba5, 0x1_e9b5dba5); }
    Composite(4, 3, 3);
    assert PrimesBelow(12) == 5 && Nth(4, 11) && FromCubeRoot(4) by { Prime(5, 4, 2, 0x3956c25b, 0x2_3956c25b); }
    assert PrimesBelow(14) == 6 && Nth(5, 13) && FromCubeRoot(5) by { Prime(6, 5, 2, 0x59f111f1, 0x2_59f111f1); }
    Composite(7, 3, 5);
    assert PrimesBelow(18) == 7 && Nth(6, 17) && FromCubeRoot(6) by { Prime(8, 6, 2, 0x923f82a4, 0x2_923f82a4); }
    assert PrimesBelow(20) == 8 && Nth(7, 19) && FromCubeRoot(7) by { Prime(9, 7, 2, 0xab1c5ed5, 0x2_ab1c5ed5); }
  }

  lemma Constants8()
    ensures PrimesBelow(54) == 16
    ensures forall t :: 8 <= t < 16 ==> FromCubeRoot(t)
  {
    Constants0();
    ConstantsTo16();
    hide K, IsPrime, PrimesBelow, FromCubeRoot, Nth;
    Composite(10, 3, 7);
    assert PrimesBelow(24) == 9 && FromCubeRoot(8) by { Prime(11, 8, 2, 0xd807aa98, 0x2_d807aa98); }
    Composite(12, 5, 5);
    Composite(13, 3, 9);
    assert PrimesBelow(30) == 10 && FromCubeRoot(9) by { Prime(14, 9, 3, 0x12835b01, 0x3_12835b01); }
    assert PrimesBelow(32) == 11 && FromCubeRoot(10) by { Prime(15, 10, 3, 0x243185be, 0x3_243185be); }
    Composite(16, 3, 11);
    Composite(17, 5, 7);
    assert PrimesBelow(38) == 12 && FromCubeRoot(11) by { Prime(18, 11, 3, 0x550c7dc3, 0x3_550c7dc3); }
    Composite(19, 3, 13);
    assert PrimesBelow(42) == 13 && FromCubeRoot(12) by { Prime(20, 12, 3, 0x72be5d74, 0x3_72be5d74); }
    assert PrimesBelow(44) == 14 && FromCubeRoot(13) by { Prime(21, 13, 3, 0x80deb1fe, 0x3_80deb1fe); }
    Composite(22, 3, 15);
    assert PrimesBelow(48) == 15 && FromCubeRoot(14) by { Prime(23, 14, 3, 0x9bdc06a7, 0x3_9bdc06a7); }
    Composite(24, 7, 7);
    Composite(25, 3, 17);
    assert PrimesBelow(54) == 16 && FromCubeRoot(15) by { Prime(26, 15, 3, 0xc19bf174, 0x3_c19bf174); }
  }

  lemma Constants16()
    ensures PrimesBelow(90) == 24
    ensures forall t :: 16 <= t < 24 ==> FromCubeRoot(t)
  {
    Constants8();
    ConstantsTo32();
    hide K, IsPrime, PrimesBelow, FromCubeRoot, Nth;
    Composite(27, 5, 11);
    Composite(28, 3, 19);
    assert PrimesBelow(60) == 17 && FromCubeRoot(16) by { Prime(29, 16, 3, 0xe49b69c1, 0x3_e49b69c1); }
    assert PrimesBelow(62) == 18 && FromCubeRoot(17) by { Prime(30, 17, 3, 0xefbe4786, 0x3_efbe4786); }
    Composite(31, 3, 21);
    Composite(32, 5, 13);
    assert PrimesBelow(68) == 19 && FromCubeRoot(18) by { Prime(33, 18, 4, 0x0fc19dc6, 0x4_0fc19dc6); }
    Composite(34, 3, 23);
    assert PrimesBelow(72) == 20 && FromCubeRoot(19) by { Prime(35, 19, 4, 0x240ca1cc, 0x4_240ca1cc); }
    assert PrimesBelow(74) == 21 && FromCubeRoot(20) by { Prime(36, 20, 4, 0x2de92c6f, 0x4_2de92c6f); }
    Composite(37, 3, 25);
    Composite(38, 7, 11);
    assert PrimesBelow(80) == 22 && FromCubeRoot(21) by { Prime(39, 21, 4, 0x4a7484aa, 0x4_4a7484aa); }
    Composite(40, 3, 27);
    assert PrimesBelow(84) == 23 && FromCubeRoot(22) by { Prime(41, 22, 4, 0x5cb0a9dc, 0x4_5cb0a9dc); }
    Composite(42, 5, 17);
    Composite(43, 3, 29);
    assert PrimesBelow(90) == 24 && FromCubeRoot(23) by { Prime(44, 23, 4, 0x76f988da, 0x4_76f988da); }
  }

  lemma Constants24()
    ensures PrimesBelow(132) == 32
    ensures forall t :: 24 <= t < 32 ==> FromCubeRoot(t)
  {
    Constants16();
    ConstantsTo32();
    hide K, IsPrime, PrimesBelow, FromCubeRoot, Nth;
    Composite(45, 7, 13);
    Composite(46, 3, 31);
    Composite(47, 5, 19);
    assert PrimesBelow(98) == 25 && FromCubeRoot(24) by { Prime(48, 24, 4, 0x983e5152, 0x4_983e5152); }
    Composite(49, 3, 33);
    assert PrimesBelow(102) == 26 && FromCubeRoot(25) by { Prime(50, 25, 4, 0xa831c66d, 0x4_a831c66d); }
    assert PrimesBelow(104) == 27 && FromCubeRoot(26) by { Prime(51, 26, 4, 0xb00327c8, 0x4_b00327c8); }
    Composite(52, 3, 35);
    assert PrimesBelow(108) == 28 && FromCubeRoot(27) by { Prime(53, 27, 4, 0xbf597fc7, 0x4_bf597fc7); }
    assert PrimesBelow(110) == 29 && FromCubeRoot(28) by { Prime(54, 28, 4, 0xc6e00bf3, 0x4_c6e00bf3); }
    Composite(55, 3, 37);
    assert PrimesBelow(114) == 30 && FromCubeRoot(29) by { Prime(56, 29, 4, 0xd5a79147, 0x4_d5a79147); }
    Composite(57, 5, 23);
    Composite(58, 3, 39);
    Composite(59, 7, 17);
    Composite(60, 11, 11);
    Composite(61, 3, 41);
    Composite(62, 5, 25);
    assert PrimesBelow(128) == 31 && FromCubeRoot(30) by { Prime(63, 30, 5, 0x06ca6351, 0x5_06ca6351); }
    Composite(64, 3, 43);
    assert PrimesBelow(132) == 32 && FromCubeRoot(31) by { Prime(65, 31, 5, 0x14292967, 0x5_14292967); }
  }

  lemma Constants32()
    ensures PrimesBelow(174) == 40
    ensures forall t :: 32 <= t < 40 ==> FromCubeRoot(t)
  {
    Constants24();
    ConstantsTo48();
    hide K, IsPrime, PrimesBelow, FromCubeRoot, Nth;
    Composite(66, 7, 19);
    Composite(67, 3, 45);
    assert PrimesBelow(138) == 33 && FromCubeRoot(32) by { Prime(68, 32, 5, 0x27b70a85, 0x5_27b70a85); }
    assert PrimesBelow(140) == 34 && FromCubeRoot(33) by { Prime(69, 33, 5, 0x2e1b2138, 0x5_2e1b2138); }
    Composite(70, 3, 47);
    Composite(71, 11, 13);
    Composite(72, 5, 29);
    Composite(73, 3, 49);
    assert PrimesBelow(150) == 35 && FromCubeRoot(34) by { Prime(74, 34, 5, 0x4d2c6dfc, 0x5_4d2c6dfc); }
    assert PrimesBelow(152) == 36 && FromCubeRoot(35) by { Prime(75, 35, 5, 0x53380d13, 0x5_53380d13); }
    Composite(76, 3, 51);
    Composite(77, 5, 31);
    assert PrimesBelow(158) == 37 && FromCubeRoot(36) by { Prime(78, 36, 5, 0x650a7354, 0x5_650a7354); }
    Composite(79, 3, 53);
    Composite(80, 7, 23);
    assert PrimesBelow(164) == 38 && FromCubeRoot(37) by { Prime(81, 37, 5, 0x766a0abb, 0x5_766a0abb); }
    Composite(82, 3, 55);
    assert PrimesBelow(168) == 39 && FromCubeRoot(38) by { Prime(83, 38, 5, 0x81c2c92e, 0x5_81c2c92e); }
    Composite(84, 13, 13);
    Composite(85, 3, 57);
    assert PrimesBelow(174) == 40 && FromCubeRoot(39) by { Prime(86, 39, 5, 0x92722c85, 0x5_92722c85); }
  }

  lemma Constants40()
    ensures PrimesBelow(224) == 48
    ensures forall t :: 40 <= t < 48 ==> FromCubeRoot(t)
  {
    Constants32();
    ConstantsTo48();
    hide K, IsPrime, PrimesBelow, FromCubeRoot, Nth;
    Composite(87, 5, 35);
    Composite(88, 3, 59);
    assert PrimesBelow(180) == 41 && FromCubeRoot(40) by { Prime(89, 40, 5, 0xa2bfe8a1, 0x5_a2bfe8a1); }
    assert PrimesBelow(182) == 42 && FromCubeRoot(41) by { Prime(90, 41, 5, 0xa81a664b, 0x5_a81a664b); }
    Composite(91, 3, 61);
    Composite(92, 5, 37);
    Composite(93, 11, 17);
    Composite(94, 3, 63);
    assert PrimesBelow(192) == 43 && FromCubeRoot(42) by { Prime(95, 42, 5, 0xc24b8b70, 0x5_c24b8b70); }
    assert PrimesBelow(194) == 44 && FromCubeRoot(43) by { Prime(96, 43, 5, 0xc76c51a3, 0x5_c76c51a3); }
    Composite(97, 3, 65);
    assert PrimesBelow(198) == 45 && FromCubeRoot(44) by { Prime(98, 44, 5, 0xd192e819, 0x5_d192e819); }
    assert PrimesBelow(200) == 46 && FromCubeRoot(45) by { Prime(99, 45, 5, 0xd6990624, 0x5_d6990624); }
    Composite(100, 3, 67);
    Composite(101, 7, 29);
    Composite(102, 5, 41);
    Composite(103, 3, 69);
    Composite(104, 11, 19);
    assert PrimesBelow(212) == 47 && FromCubeRoot(46) by { Prime(105, 46, 5, 0xf40e3585, 0x5_f40e3585); }
    Composite(106, 3, 71);
    Composite(107, 5, 43);
    Composite(108, 7, 31);
    Composite(109, 3, 73);
    Composite(110, 13, 17);
    assert PrimesBelow(224) == 48 && FromCubeRoot(47) by { Prime(111, 47, 6, 0x106aa070, 0x6_106aa070); }
  }

  lemma Constants48()
    ensures PrimesBelow(264) == 56
    ensures forall t :: 48 <= t < 56 ==> FromCubeRoot(t)
  {
    Constants40();
    ConstantsTo64();
    hide K, IsPrime, PrimesBelow, FromCubeRoot, Nth;
    Composite(112, 3, 75);
    assert PrimesBelow(228) == 49 && FromCubeRoot(48) by { Prime(113, 48, 6, 0x19a4c116, 0x6_19a4c116); }
    assert PrimesBelow(230) == 50 && FromCubeRoot(49) by { Prime(114, 49, 6, 0x1e376c08, 0x6_1e376c08); }
    Composite(115, 3, 77);
    assert PrimesBelow(234) == 51 && FromCubeRoot(50) by { Prime(116, 50, 6, 0x2748774c, 0x6_2748774c); }
    Composite(117, 5, 47);
    Composite(118, 3, 79);
    assert PrimesBelow(240) == 52 && FromCubeRoot(51) by { Prime(119, 51, 6, 0x34b0bcb5, 0x6_34b0bcb5); }
    assert PrimesBelow(242) == 53 && FromCubeRoot(52) by { Prime(120, 52, 6, 0x391c0cb3, 0x6_391c0cb3); }
    Composite(121, 3, 81);
    Composite(122, 5, 49);
    Composite(123, 13, 19);
    Composite(124, 3, 83);
    assert PrimesBelow(252) == 54 && FromCubeRoot(53) by { Prime(125, 53, 6, 0x4ed8aa4a, 0x6_4ed8aa4a); }
    Composite(126, 11, 23);
    Composite(127, 3, 85);
    assert PrimesBelow(258) == 55 && FromCubeRoot(54) by { Prime(128, 54, 6, 0x5b9cca4f, 0x6_5b9cca4f); }
    Composite(129, 7, 37);
    Composite(130, 3, 87);
    assert PrimesBelow(264) == 56 && FromCubeRoot(55) by { Prime(131, 55, 6, 0x682e6ff3, 0x6_682e6ff3); }
  }

  lemma Constants56()
    ensures PrimesBelow(312) == 64
    ensures forall t :: 56 <= t < 64 ==> FromCubeRoot(t)
  {
    Constants48();
    ConstantsTo64();
    hide K, IsPrime, PrimesBelow, FromCubeRoot, Nth;
    Composite(132, 5, 53);
    Composite(133, 3, 89);
    assert PrimesBelow(270) == 57 && FromCubeRoot(56) by { Prime(134, 56, 6, 0x748f82ee, 0x6_748f82ee); }
    assert PrimesBelow(272) == 58 && FromCubeRoot(57) by { Prime(135, 57, 6, 0x78a5636f, 0x6_78a5636f); }
    Composite(136, 3, 91);
    Composite(137, 5, 55);
    assert PrimesBelow(278) == 59 && FromCubeRoot(58) by { Prime(138, 58, 6, 0x84c87814, 0x6_84c87814); }
    Composite(139, 3, 93);
    assert PrimesBelow(282) == 60 && FromCubeRoot(59) by { Prime(140, 59, 6, 0x8cc70208, 0x6_8cc70208); }
    assert PrimesBelow(284) == 61 && FromCubeRoot(60) by { Prime(141, 60, 6, 0x90befffa, 0x6_90befffa); }
    Composite(142, 3, 95);
    Composite(143, 7, 41);
    Composite(144, 17, 17);
    Composite(145, 3, 97);
    assert PrimesBelow(294) == 62 && FromCubeRoot(61) by { Prime(146, 61, 6, 0xa4506ceb, 0x6_a4506ceb); }
    Composite(147, 5, 59);
    Composite(148, 3, 99);
    Composite(149, 13, 23);
    Composite(150, 7, 43);
    Composite(151, 3, 101);
    Composite(152, 5, 61);
    assert PrimesBelow(308) == 63 && FromCubeRoot(62) by { Prime(153, 62, 6, 0xbef9a3f7, 0x6_bef9a3f7); }
    Composite(154, 3, 103);
    assert PrimesBelow(312) == 64 && FromCubeRoot(63) by { Prime(155, 63, 6, 0xc67178f2, 0x6_c67178f2); }
  }

  /** Every constant is what the standard says it is. */
  lemma ConstantsAreCubeRoots(t: nat)
    requires t < 64
    ensures FromCubeRoot(t)
  {
    hide FromCubeRoot, PrimesBelow, Nth;
    Constants0();
    Constants8();
    Constants16();
    Constants24();
    Constants32();
    Constants40();
    Constants48();
    Constants56();
  }

  lemma Square(t: nat, p: nat, n: nat, k: bv32)
    requires Nth(t, p) && SquareRoot(p, n, Fixed(n, k))
    ensures FromSquareRoot(t, k)
  {
    hide Nth, SquareRoot, Fixed;
  }

  lemma SquareRootsOf(h: Hash)
    requires h == H0
    ensures SquareRoot(2, 1, Fixed(1, h.a))
    ensures SquareRoot(3, 1, Fixed(1, h.b))
    ensures SquareRoot(5, 2, Fixed(2, h.c))
    ensures SquareRoot(7, 2, Fixed(2, h.d))
    ensures SquareRoot(11, 3, Fixed(3, h.e))
    ensures SquareRoot(13, 3, Fixed(3, h.f))
    ensures SquareRoot(17, 4, Fixed(4, h.g))
    ensures SquareRoot(19, 4, Fixed(4, h.h))
  {
    assert Fixed(1, h.a) == 0x1_6a09e667;
    assert Fixed(1, h.b) == 0x1_bb67ae85;
    assert Fixed(2, h.c) == 0x2_3c6ef372;
    assert Fixed(2, h.d) == 0x2_a54ff53a;
    assert Fixed(3, h.e) == 0x3_510e527f;
    assert Fixed(3, h.f) == 0x3_9b05688c;
    assert Fixed(4, h.g) == 0x4_1f83d9ab;
    assert Fixed(4, h.h) == 0x4_5be0cd19;
  }

  function Word(h: Hash, t: nat): bv32
    requires t < 8
  {
    [h.a, h.b, h.c, h.d, h.e, h.f, h.g, h.h][t]
  }

  /** So is every word of the initial hash value. */
  lemma InitialIsSquareRoots(t: nat)
    requires t < 8
    ensures FromSquareRoot(t, Word(H0, t))
  {
    hide Nth, PrimesBelow, SquareRoot, Fixed, FromSquareRoot, FromCubeRoot;
    Constants0();
    SquareRootsOf(H0);
    match t
    case 0 => Square(0, 2, 1, H0.a);
    case 1 => Square(1, 3, 1, H0.b);
    case 2 => Square(2, 5, 2, H0.c);
    case 3 => Square(3, 7, 2, H0.d);
    case 4 => Square(4, 11, 3, H0.e);
    case 5 => Square(5, 13, 3, H0.f);
    case 6 => Square(6, 17, 4, H0.g);
    case _ => Square(7, 19, 4, H0.h);
  }
}
