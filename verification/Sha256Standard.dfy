/** What FIPS 180-4 requires of the constants, functions and digests of module Sha256, stated by the roots of primes,
    by single bits and by the standard's example. */
module Sha256Standard {
  import opened ByteBuffers
  import opened Md32
  import opened Sha256
  import ModArith

  // The constants of section 4.2.2 and the start values of sections 5.3.2 and 5.3.3.

  predicate IsPrime(p: nat)
  {
    p >= 2 && forall d :: 2 <= d < p ==> p % d != 0
  }

  /** The primes up to 311, in order. */
  const PRIMES: seq<nat> :=
    [2, 3, 5, 7, 11, 13, 17, 19] +
    [23, 29, 31, 37, 41, 43, 47, 53] +
    [59, 61, 67, 71, 73, 79, 83, 89] +
    [97, 101, 103, 107, 109, 113, 127, 131] +
    [137, 139, 149, 151, 157, 163, 167, 173] +
    [179, 181, 191, 193, 197, 199, 211, 223] +
    [227, 229, 233, 239, 241, 251, 257, 263] +
    [269, 271, 277, 281, 283, 293, 307, 311]

  /** PRIMES lists exactly these, each once and in order. */
  lemma PrimesInOrder(p: nat)
    requires p <= 311
    ensures |PRIMES| == 64 && forall i :: 0 <= i < 63 ==> PRIMES[i] < PRIMES[i + 1]
    ensures IsPrime(p) <==> exists i :: 0 <= i < 64 && PRIMES[i] == p
  {
    hide Sieved, IsPrime, PRIMES;
    SieveFinds(p);
    Increasing();
    if Sieved(p) { Listed(p); }
    forall i | 0 <= i < 64
      ensures Sieved(PRIMES[i])
    {
      ListedSieved(i);
    }
  }

  lemma Increasing()
    ensures |PRIMES| == 64 && forall i :: 0 <= i < 63 ==> PRIMES[i] < PRIMES[i + 1]
  {
  }

  predicate Clear(p: nat, q: nat)
    requires q > 0
  {
    p == q || p % q != 0
  }

  /** No prime below 19 divides p, unless it is p. */
  predicate Sieved(p: nat)
  {
    p >= 2 && Clear(p, 2) && Clear(p, 3) && Clear(p, 5) && Clear(p, 7) && Clear(p, 11) && Clear(p, 13) && Clear(p, 17)
  }

  lemma SieveFinds(p: nat)
    requires p < 361
    ensures IsPrime(p) <==> Sieved(p)
  {
    if p >= 2 && !Sieved(p) {
      FactorShows(p);
    } else if p >= 2 && !IsPrime(p) {
      var d :| 2 <= d < p && p % d == 0;
      var e := p / d;
      Cofactor(p, d, e);
      if d < 19 { SmallFactor(d, e); } else { SmallFactor(e, d); }
    }
  }

  lemma FactorShows(p: nat)
    requires p >= 2 && !Sieved(p)
    ensures !IsPrime(p)
  {
  }

  lemma Cofactor(p: nat, d: nat, e: nat)
    requires p < 361 && 2 <= d < p && p % d == 0 && e == p / d
    ensures p == d * e == e * d && 2 <= e && (d < 19 || e < 19)
  {
    assert p == d * e;
    Large(d, e);
  }

  lemma Large(d: nat, e: nat)
    ensures d >= 19 && e >= 19 ==> d * e >= 361
  {
    if d >= 19 && e >= 19 {
      assert (d - 19) * (e - 19) >= 0;
    }
  }

  lemma SmallFactor(c: nat, e: nat)
    requires 2 <= c < 19 && 2 <= e
    ensures !Sieved(c * e)
  {
    hide Clear;
    var q, k := LeastFactor(c);
    assert c * e == q * (k * e) by { Regroup(q, k, e); }
    assert k * e >= 2 by { Positive(k, e); }
    NotClear(q, k * e);
  }

  lemma LeastFactor(c: nat) returns (q: nat, k: nat)
    requires 2 <= c < 19
    ensures c == q * k && k >= 1 && (q == 2 || q == 3 || q == 5 || q == 7 || q == 11 || q == 13 || q == 17)
  {
    q := if c % 2 == 0 then 2 else if c % 3 == 0 then 3 else c;
    k := if c % 2 == 0 then c / 2 else if c % 3 == 0 then c / 3 else 1;
  }

  lemma Regroup(q: nat, k: nat, e: nat)
    ensures (q * k) * e == q * (k * e)
  {
  }

  lemma Positive(k: nat, e: nat)
    requires k >= 1 && e >= 2
    ensures k * e >= 2 * k && k * e >= 2
  {
    assert k * (e - 2) >= 0;
  }

  lemma NotClear(q: nat, n: nat)
    requires n >= 2 && (q == 2 || q == 3 || q == 5 || q == 7 || q == 11 || q == 13 || q == 17)
    ensures !Clear(q * n, q)
  {
    ModArith.MultipleMod(n, q);
    assert n * q == q * n >= 2 * q by { Positive(q, n); }
  }

  lemma EvenSieved(p: nat)
    requires p % 2 == 0
    ensures Sieved(p) <==> p == 2
  {
  }

  lemma Listed(p: nat)
    requires p <= 311 && Sieved(p)
    ensures exists i :: 0 <= i < |PRIMES| && PRIMES[i] == p
  {
    hide Sieved, PRIMES;
    if p % 2 == 0 {
      EvenSieved(p); Entries0();
    } else if p <= 79 {
      ListedTo79(p);
    } else if p <= 159 {
      ListedTo159(p);
    } else if p <= 239 {
      ListedTo239(p);
    } else {
      ListedTo311(p);
    }
  }

  lemma ListedTo79(p: nat)
    requires 0 <= p <= 79 && p % 2 == 1 && Sieved(p)
    ensures exists i :: 0 <= i < |PRIMES| && PRIMES[i] == p
  {
    hide Sieved, PRIMES;
    SievedTo79(); Entries0(); Entries16();
  }

  lemma ListedTo159(p: nat)
    requires 80 <= p <= 159 && p % 2 == 1 && Sieved(p)
    ensures exists i :: 0 <= i < |PRIMES| && PRIMES[i] == p
  {
    hide Sieved, PRIMES;
    SievedTo159(); Entries16(); Entries32();
  }

  lemma ListedTo239(p: nat)
    requires 160 <= p <= 239 && p % 2 == 1 && Sieved(p)
    ensures exists i :: 0 <= i < |PRIMES| && PRIMES[i] == p
  {
    hide Sieved, PRIMES;
    SievedTo239(); Entries32(); Entries48();
  }

  lemma ListedTo311(p: nat)
    requires 240 <= p <= 311 && p % 2 == 1 && Sieved(p)
    ensures exists i :: 0 <= i < |PRIMES| && PRIMES[i] == p
  {
    hide Sieved, PRIMES;
    SievedTo311(); Entries48();
  }

  lemma ListedSieved(i: nat)
    requires i < 64
    ensures i < |PRIMES| && Sieved(PRIMES[i])
  {
    hide Sieved, PRIMES;
    EvenSieved(2); SievedTo79(); SievedTo159(); SievedTo239(); SievedTo311();
    if i < 16 {
      Entries0();
      assert i == 0 || i == 1 || i == 2 || i == 3 || i == 4 || i == 5 || i == 6 || i == 7 || i == 8
        || i == 9 || i == 10 || i == 11 || i == 12 || i == 13 || i == 14 || i == 15;
    } else if i < 32 {
      Entries16();
      assert i == 16 || i == 17 || i == 18 || i == 19 || i == 20 || i == 21 || i == 22 || i == 23
        || i == 24 || i == 25 || i == 26 || i == 27 || i == 28 || i == 29 || i == 30 || i == 31;
    } else if i < 48 {
      Entries32();
      assert i == 32 || i == 33 || i == 34 || i == 35 || i == 36 || i == 37 || i == 38 || i == 39
        || i == 40 || i == 41 || i == 42 || i == 43 || i == 44 || i == 45 || i == 46 || i == 47;
    } else {
      Entries48();
      assert i == 48 || i == 49 || i == 50 || i == 51 || i == 52 || i == 53 || i == 54 || i == 55
        || i == 56 || i == 57 || i == 58 || i == 59 || i == 60 || i == 61 || i == 62 || i == 63;
    }
  }

  ghost predicate Entry(i: nat, p: nat)
  {
    |PRIMES| == 64 && i < 64 && PRIMES[i] == p
  }

  lemma Entries0()
    ensures Entry(0, 2) && Entry(1, 3) && Entry(2, 5) && Entry(3, 7) && Entry(4, 11) && Entry(5, 13) && Entry(6, 17)
    ensures Entry(7, 19) && Entry(8, 23) && Entry(9, 29) && Entry(10, 31) && Entry(11, 37) && Entry(12, 41)
    ensures Entry(13, 43) && Entry(14, 47) && Entry(15, 53)
  {
  }

  lemma Entries16()
    ensures Entry(16, 59) && Entry(17, 61) && Entry(18, 67) && Entry(19, 71) && Entry(20, 73) && Entry(21, 79)
    ensures Entry(22, 83) && Entry(23, 89) && Entry(24, 97) && Entry(25, 101) && Entry(26, 103) && Entry(27, 107)
    ensures Entry(28, 109) && Entry(29, 113) && Entry(30, 127) && Entry(31, 131)
  {
  }

  lemma Entries32()
    ensures Entry(32, 137) && Entry(33, 139) && Entry(34, 149) && Entry(35, 151) && Entry(36, 157) && Entry(37, 163)
    ensures Entry(38, 167) && Entry(39, 173) && Entry(40, 179) && Entry(41, 181) && Entry(42, 191) && Entry(43, 193)
    ensures Entry(44, 197) && Entry(45, 199) && Entry(46, 211) && Entry(47, 223)
  {
  }

  lemma Entries48()
    ensures Entry(48, 227) && Entry(49, 229) && Entry(50, 233) && Entry(51, 239) && Entry(52, 241) && Entry(53, 251)
    ensures Entry(54, 257) && Entry(55, 263) && Entry(56, 269) && Entry(57, 271) && Entry(58, 277) && Entry(59, 281)
    ensures Entry(60, 283) && Entry(61, 293) && Entry(62, 307) && Entry(63, 311)
  {
  }

  lemma SievedTo79()
    ensures !Sieved(1) && Sieved(3) && Sieved(5) && Sieved(7) && !Sieved(9) && Sieved(11) && Sieved(13)
    ensures !Sieved(15) && Sieved(17) && Sieved(19) && !Sieved(21) && Sieved(23) && !Sieved(25) && !Sieved(27)
    ensures Sieved(29) && Sieved(31) && !Sieved(33) && !Sieved(35) && Sieved(37) && !Sieved(39) && Sieved(41)
    ensures Sieved(43) && !Sieved(45) && Sieved(47) && !Sieved(49) && !Sieved(51) && Sieved(53) && !Sieved(55)
    ensures !Sieved(57) && Sieved(59) && Sieved(61) && !Sieved(63) && !Sieved(65) && Sieved(67) && !Sieved(69)
    ensures Sieved(71) && Sieved(73) && !Sieved(75) && !Sieved(77) && Sieved(79)
  {
  }

  lemma SievedTo159()
    ensures !Sieved(81) && Sieved(83) && !Sieved(85) && !Sieved(87) && Sieved(89) && !Sieved(91) && !Sieved(93)
    ensures !Sieved(95) && Sieved(97) && !Sieved(99) && Sieved(101) && Sieved(103) && !Sieved(105) && Sieved(107)
    ensures Sieved(109) && !Sieved(111) && Sieved(113) && !Sieved(115) && !Sieved(117) && !Sieved(119)
    ensures !Sieved(121) && !Sieved(123) && !Sieved(125) && Sieved(127) && !Sieved(129) && Sieved(131)
    ensures !Sieved(133) && !Sieved(135) && Sieved(137) && Sieved(139) && !Sieved(141) && !Sieved(143)
    ensures !Sieved(145) && !Sieved(147) && Sieved(149) && Sieved(151) && !Sieved(153) && !Sieved(155) && Sieved(157)
    ensures !Sieved(159)
  {
  }

  lemma SievedTo239()
    ensures !Sieved(161) && Sieved(163) && !Sieved(165) && Sieved(167) && !Sieved(169) && !Sieved(171) && Sieved(173)
    ensures !Sieved(175) && !Sieved(177) && Sieved(179) && Sieved(181) && !Sieved(183) && !Sieved(185)
    ensures !Sieved(187) && !Sieved(189) && Sieved(191) && Sieved(193) && !Sieved(195) && Sieved(197) && Sieved(199)
    ensures !Sieved(201) && !Sieved(203) && !Sieved(205) && !Sieved(207) && !Sieved(209) && Sieved(211)
    ensures !Sieved(213) && !Sieved(215) && !Sieved(217) && !Sieved(219) && !Sieved(221) && Sieved(223)
    ensures !Sieved(225) && Sieved(227) && Sieved(229) && !Sieved(231) && Sieved(233) && !Sieved(235) && !Sieved(237)
    ensures Sieved(239)
  {
  }

  lemma SievedTo311()
    ensures Sieved(241) && !Sieved(243) && !Sieved(245) && !Sieved(247) && !Sieved(249) && Sieved(251)
    ensures !Sieved(253) && !Sieved(255) && Sieved(257) && !Sieved(259) && !Sieved(261) && Sieved(263)
    ensures !Sieved(265) && !Sieved(267) && Sieved(269) && Sieved(271) && !Sieved(273) && !Sieved(275) && Sieved(277)
    ensures !Sieved(279) && Sieved(281) && Sieved(283) && !Sieved(285) && !Sieved(287) && !Sieved(289)
    ensures !Sieved(291) && Sieved(293) && !Sieved(295) && !Sieved(297) && !Sieved(299) && !Sieved(301)
    ensures !Sieved(303) && !Sieved(305) && Sieved(307) && !Sieved(309) && Sieved(311)
  {
  }

  /** r is the whole part of the cube root of p * 2^96, that is, of 2^32 times the cube root of p. */
  predicate CubeRoot(p: nat, r: nat)
  {
    r * r * r <= p * 0x1_0000_0000_0000_0000_0000_0000 < (r + 1) * (r + 1) * (r + 1)
  }

  function Number(k: U32): (n: nat) { k as nat }

  /** k is the first 32 bits of the fraction of the cube root of p. */
  ghost predicate CubeFraction(p: nat, k: U32)
  {
    exists n: nat :: CubeRoot(p, n * 0x1_0000_0000 + Number(k))
  }

  lemma FractionUnique(p: nat, k: U32, k': U32)
    requires CubeFraction(p, k) && CubeFraction(p, k')
    ensures k == k'
  {
    hide CubeRoot;
    var n: nat :| CubeRoot(p, n * 0x1_0000_0000 + Number(k));
    var n': nat :| CubeRoot(p, n' * 0x1_0000_0000 + Number(k'));
    RootUnique(p, n * 0x1_0000_0000 + Number(k), n' * 0x1_0000_0000 + Number(k'));
    SameFraction(n, n', k, k');
  }

  lemma SameFraction(n: nat, n': nat, k: U32, k': U32)
    requires n * 0x1_0000_0000 + Number(k) == n' * 0x1_0000_0000 + Number(k')
    ensures k == k'
  {
    hide Number;
    NumberRange(k); NumberRange(k');
    assert n == n';
    SameNumber(k, k');
  }

  lemma NumberRange(k: U32)
    ensures Number(k) < 0x1_0000_0000
  {
  }

  lemma SameNumber(k: U32, k': U32)
    requires Number(k) == Number(k')
    ensures k == k'
  {
    hide Number;
    NumberRange(k);
    NumberBack(k); NumberBack(k');
  }

  function FromNumber(n: nat): (k: U32)
    requires n < 0x1_0000_0000
  {
    n as bv32
  }

  lemma NumberBack(k: U32)
    ensures Number(k) < 0x1_0000_0000 && FromNumber(Number(k)) == k
  {
  }

  lemma RootUnique(p: nat, r: nat, r': nat)
    requires CubeRoot(p, r) && CubeRoot(p, r')
    ensures r == r'
  {
    if r < r' { CubeGrows(r + 1, r'); }
    if r' < r { CubeGrows(r' + 1, r); }
  }

  lemma CubeGrows(r: nat, s: nat)
    requires r <= s
    ensures r * r * r <= s * s * s
  {
    assert r * r <= s * s by { assert (s - r) * (s + r) >= 0; }
    assert r * r * r <= s * s * r;
  }

  /** The i-th round constant comes from the i-th prime. */
  lemma RoundConstants(i: nat)
    requires i < 64
    ensures |K256| == 64 && |PRIMES| == 64 && CubeFraction(PRIMES[i], K256[i])
  {
    hide CubeRoot, PRIMES, K256;
    if i < 8 {
      Constants0();
      assert i == 0 || i == 1 || i == 2 || i == 3 || i == 4 || i == 5 || i == 6 || i == 7;
    } else if i < 16 {
      Constants8();
      assert i == 8 || i == 9 || i == 10 || i == 11 || i == 12 || i == 13 || i == 14 || i == 15;
    } else if i < 24 {
      Constants16();
      assert i == 16 || i == 17 || i == 18 || i == 19 || i == 20 || i == 21 || i == 22 || i == 23;
    } else if i < 32 {
      Constants24();
      assert i == 24 || i == 25 || i == 26 || i == 27 || i == 28 || i == 29 || i == 30 || i == 31;
    } else if i < 40 {
      Constants32();
      assert i == 32 || i == 33 || i == 34 || i == 35 || i == 36 || i == 37 || i == 38 || i == 39;
    } else if i < 48 {
      Constants40();
      assert i == 40 || i == 41 || i == 42 || i == 43 || i == 44 || i == 45 || i == 46 || i == 47;
    } else if i < 56 {
      Constants48();
      assert i == 48 || i == 49 || i == 50 || i == 51 || i == 52 || i == 53 || i == 54 || i == 55;
    } else {
      Constants56();
      assert i == 56 || i == 57 || i == 58 || i == 59 || i == 60 || i == 61 || i == 62 || i == 63;
    }
  }

  ghost predicate Constant(i: nat, k: U32, n: nat)
  {
    |K256| == 64 && |PRIMES| == 64 && i < 64 && K256[i] == k && CubeRoot(PRIMES[i], n * 0x1_0000_0000 + Number(k))
  }

  lemma Constants0()
    ensures Constant(0, 0x428a2f98, 1) && Constant(1, 0x71374491, 1) && Constant(2, 0xb5c0fbcf, 1)
    ensures Constant(3, 0xe9b5dba5, 1) && Constant(4, 0x3956c25b, 2) && Constant(5, 0x59f111f1, 2)
    ensures Constant(6, 0x923f82a4, 2) && Constant(7, 0xab1c5ed5, 2)
  {
    hide PRIMES;
    Entries0();
  }

  lemma Constants8()
    ensures Constant(8, 0xd807aa98, 2) && Constant(9, 0x12835b01, 3) && Constant(10, 0x243185be, 3)
    ensures Constant(11, 0x550c7dc3, 3) && Constant(12, 0x72be5d74, 3) && Constant(13, 0x80deb1fe, 3)
    ensures Constant(14, 0x9bdc06a7, 3) && Constant(15, 0xc19bf174, 3)
  {
    hide PRIMES;
    Entries0();
  }

  lemma Constants16()
    ensures Constant(16, 0xe49b69c1, 3) && Constant(17, 0xefbe4786, 3) && Constant(18, 0x0fc19dc6, 4)
    ensures Constant(19, 0x240ca1cc, 4) && Constant(20, 0x2de92c6f, 4) && Constant(21, 0x4a7484aa, 4)
    ensures Constant(22, 0x5cb0a9dc, 4) && Constant(23, 0x76f988da, 4)
  {
    hide PRIMES;
    Entries16();
  }

  lemma Constants24()
    ensures Constant(24, 0x983e5152, 4) && Constant(25, 0xa831c66d, 4) && Constant(26, 0xb00327c8, 4)
    ensures Constant(27, 0xbf597fc7, 4) && Constant(28, 0xc6e00bf3, 4) && Constant(29, 0xd5a79147, 4)
    ensures Constant(30, 0x06ca6351, 5) && Constant(31, 0x14292967, 5)
  {
    hide PRIMES;
    Entries16();
  }

  lemma Constants32()
    ensures Constant(32, 0x27b70a85, 5) && Constant(33, 0x2e1b2138, 5) && Constant(34, 0x4d2c6dfc, 5)
    ensures Constant(35, 0x53380d13, 5) && Constant(36, 0x650a7354, 5) && Constant(37, 0x766a0abb, 5)
    ensures Constant(38, 0x81c2c92e, 5) && Constant(39, 0x92722c85, 5)
  {
    hide PRIMES;
    Entries32();
  }

  lemma Constants40()
    ensures Constant(40, 0xa2bfe8a1, 5) && Constant(41, 0xa81a664b, 5) && Constant(42, 0xc24b8b70, 5)
    ensures Constant(43, 0xc76c51a3, 5) && Constant(44, 0xd192e819, 5) && Constant(45, 0xd6990624, 5)
    ensures Constant(46, 0xf40e3585, 5) && Constant(47, 0x106aa070, 6)
  {
    hide PRIMES;
    Entries32();
  }

  lemma Constants48()
    ensures Constant(48, 0x19a4c116, 6) && Constant(49, 0x1e376c08, 6) && Constant(50, 0x2748774c, 6)
    ensures Constant(51, 0x34b0bcb5, 6) && Constant(52, 0x391c0cb3, 6) && Constant(53, 0x4ed8aa4a, 6)
    ensures Constant(54, 0x5b9cca4f, 6) && Constant(55, 0x682e6ff3, 6)
  {
    hide PRIMES;
    Entries48();
  }

  lemma Constants56()
    ensures Constant(56, 0x748f82ee, 6) && Constant(57, 0x78a5636f, 6) && Constant(58, 0x84c87814, 6)
    ensures Constant(59, 0x8cc70208, 6) && Constant(60, 0x90befffa, 6) && Constant(61, 0xa4506ceb, 6)
    ensures Constant(62, 0xbef9a3f7, 6) && Constant(63, 0xc67178f2, 6)
  {
    hide PRIMES;
    Entries48();
  }

  predicate SquareRoot(p: nat, r: nat)
  {
    r * r <= p < (r + 1) * (r + 1)
  }

  /** The start values of SHA-256 are the first 32 bits of the fractions of the square roots of the first eight
      primes, those of SHA-224 the second 32 bits for the next eight. */
  ghost predicate SquareFraction(p: nat, h: U32)
  {
    exists n: nat :: SquareRoot(p * 0x1_0000_0000_0000_0000, n * 0x1_0000_0000 + Number(h))
  }

  ghost predicate SecondFraction(p: nat, h: U32)
  {
    exists n: nat :: SquareRoot(p * 0x1_0000_0000_0000_0000_0000_0000_0000_0000, n * 0x1_0000_0000 + Number(h))
  }

  lemma InitialValues(n: nat)
    requires n < 8
    ensures |PRIMES| == 64 && SquareFraction(PRIMES[n], Nth(INITIAL, n)) && SecondFraction(PRIMES[8 + n], Nth(INITIAL224, n))
  {
    hide PRIMES, SquareRoot;
    Entries0();
    FirstFractions();
    SecondFractions();
    assert n == 0 || n == 1 || n == 2 || n == 3 || n == 4 || n == 5 || n == 6 || n == 7;
  }

  lemma FirstFractions()
    ensures SquareRoot(2 * 0x1_0000_0000_0000_0000, 1 * 0x1_0000_0000 + 0x6a09e667)
    ensures SquareRoot(3 * 0x1_0000_0000_0000_0000, 1 * 0x1_0000_0000 + 0xbb67ae85)
    ensures SquareRoot(5 * 0x1_0000_0000_0000_0000, 2 * 0x1_0000_0000 + 0x3c6ef372)
    ensures SquareRoot(7 * 0x1_0000_0000_0000_0000, 2 * 0x1_0000_0000 + 0xa54ff53a)
    ensures SquareRoot(11 * 0x1_0000_0000_0000_0000, 3 * 0x1_0000_0000 + 0x510e527f)
    ensures SquareRoot(13 * 0x1_0000_0000_0000_0000, 3 * 0x1_0000_0000 + 0x9b05688c)
    ensures SquareRoot(17 * 0x1_0000_0000_0000_0000, 4 * 0x1_0000_0000 + 0x1f83d9ab)
    ensures SquareRoot(19 * 0x1_0000_0000_0000_0000, 4 * 0x1_0000_0000 + 0x5be0cd19)
  {
  }

  lemma SecondFractions()
    ensures SquareRoot(23 * 0x1_0000_0000_0000_0000_0000_0000_0000_0000, 0x4cbbb9d5d * 0x1_0000_0000 + 0xc1059ed8)
    ensures SquareRoot(29 * 0x1_0000_0000_0000_0000_0000_0000_0000_0000, 0x5629a292a * 0x1_0000_0000 + 0x367cd507)
    ensures SquareRoot(31 * 0x1_0000_0000_0000_0000_0000_0000_0000_0000, 0x59159015a * 0x1_0000_0000 + 0x3070dd17)
    ensures SquareRoot(37 * 0x1_0000_0000_0000_0000_0000_0000_0000_0000, 0x6152fecd8 * 0x1_0000_0000 + 0xf70e5939)
    ensures SquareRoot(41 * 0x1_0000_0000_0000_0000_0000_0000_0000_0000, 0x667332667 * 0x1_0000_0000 + 0xffc00b31)
    ensures SquareRoot(43 * 0x1_0000_0000_0000_0000_0000_0000_0000_0000, 0x68eb44a87 * 0x1_0000_0000 + 0x68581511)
    ensures SquareRoot(47 * 0x1_0000_0000_0000_0000_0000_0000_0000_0000, 0x6db0c2e0d * 0x1_0000_0000 + 0x64f98fa7)
    ensures SquareRoot(53 * 0x1_0000_0000_0000_0000_0000_0000_0000_0000, 0x747b5481d * 0x1_0000_0000 + 0xbefa4fa4)
  {
  }

  // The functions of section 4.1.2, bit by bit.

  function Half(b: U32): (r: U32) { b >> 1 }

  predicate Odd(b: U32) { b & 1 == 1 }

  /** b shifted n places to the right. */
  function Down(b: U32, n: nat): (r: U32)
  {
    if n == 0 then b else Down(Half(b), n - 1)
  }

  /** Bit j of b, bit 0 being the least significant. */
  predicate On(b: U32, j: nat)
  {
    Odd(Down(b, j))
  }

  /** Bit j of the results: ROTR is a place further round, SHR a place further up or nothing. */
  lemma Sigma0Bits(x: U32, j: nat)
    requires j < 32
    ensures On(Sigma0(x), j) <==> On(x, (j + 2) % 32) != (On(x, (j + 13) % 32) != On(x, (j + 22) % 32))
  {
    hide On, Rotate, Xor3, Sigma0;
    Sigma0Terms(x);
    ThreeBits(Rotate(x, 30), Rotate(x, 19), Rotate(x, 10), j);
    Right2(x); Right13(x); Right22(x);
  }

  lemma Sigma1Bits(x: U32, j: nat)
    requires j < 32
    ensures On(Sigma1(x), j) <==> On(x, (j + 6) % 32) != (On(x, (j + 11) % 32) != On(x, (j + 25) % 32))
  {
    hide On, Rotate, Xor3, Sigma1;
    Sigma1Terms(x);
    ThreeBits(Rotate(x, 26), Rotate(x, 21), Rotate(x, 7), j);
    Right6(x); Right11(x); Right25(x);
  }

  lemma LowSigma0Bits(x: U32, j: nat)
    requires j < 32
    ensures On(LowSigma0(x), j) <==> On(x, (j + 7) % 32) != (On(x, (j + 18) % 32) != (j + 3 < 32 && On(x, j + 3)))
  {
    hide On, Rotate, Xor3, LowSigma0;
    LowSigma0Terms(x);
    ThreeBits(Rotate(x, 25), Rotate(x, 14), x >> 3, j);
    Right7(x); Right18(x);
    Shifted3(x, j);
  }

  lemma LowSigma1Bits(x: U32, j: nat)
    requires j < 32
    ensures On(LowSigma1(x), j) <==> On(x, (j + 17) % 32) != (On(x, (j + 19) % 32) != (j + 10 < 32 && On(x, j + 10)))
  {
    hide On, Rotate, Xor3, LowSigma1;
    LowSigma1Terms(x);
    ThreeBits(Rotate(x, 15), Rotate(x, 13), x >> 10, j);
    Right17(x); Right19(x);
    Shifted10(x, j);
  }

  /** Ch chooses, Maj is the majority. */
  lemma {:induction false} ChBits(x: U32, y: U32, z: U32, j: nat)
    ensures On(Ch(x, y, z), j) <==> if On(x, j) then On(y, j) else On(z, j)
    decreases j
  {
    hide Half, Odd, Ch;
    ChStep(x, y, z);
    if j > 0 { ChBits(Half(x), Half(y), Half(z), j - 1); }
  }

  lemma {:induction false} MajBits(x: U32, y: U32, z: U32, j: nat)
    ensures On(Maj(x, y, z), j) <==> if On(x, j) == On(y, j) then On(x, j) else On(z, j)
    decreases j
  {
    hide Half, Odd, Maj;
    MajStep(x, y, z);
    if j > 0 { MajBits(Half(x), Half(y), Half(z), j - 1); }
  }

  /** The bits make up the word. */
  lemma {:induction false} BitsMakeWord(b: U32, c: U32, n: nat)
    requires n <= 32 && (forall j :: 0 <= j < n ==> (On(b, j) <==> On(c, j))) && Down(b, n) == Down(c, n)
    ensures b == c
    decreases n
  {
    hide Half, Odd;
    if n > 0 {
      assert On(b, 0) <==> On(c, 0);
      forall j | 0 <= j < n - 1
        ensures On(Half(b), j) <==> On(Half(c), j)
      {
        assert On(b, j + 1) <==> On(c, j + 1);
      }
      BitsMakeWord(Half(b), Half(c), n - 1);
      HalfAndOdd(b, c);
    }
  }

  lemma HalfAndOdd(b: U32, c: U32)
    requires Half(b) == Half(c) && (Odd(b) <==> Odd(c))
    ensures b == c
  {
  }

  function Xor3(a: U32, b: U32, c: U32): (r: U32) { a ^ b ^ c }

  lemma Sigma0Terms(x: U32)
    ensures Sigma0(x) == Xor3(Rotate(x, 30), Rotate(x, 19), Rotate(x, 10))
  {
  }

  lemma Sigma1Terms(x: U32)
    ensures Sigma1(x) == Xor3(Rotate(x, 26), Rotate(x, 21), Rotate(x, 7))
  {
  }

  lemma LowSigma0Terms(x: U32)
    ensures LowSigma0(x) == Xor3(Rotate(x, 25), Rotate(x, 14), x >> 3)
  {
  }

  lemma LowSigma1Terms(x: U32)
    ensures LowSigma1(x) == Xor3(Rotate(x, 15), Rotate(x, 13), x >> 10)
  {
  }

  lemma {:induction false} ThreeBits(a: U32, b: U32, c: U32, j: nat)
    ensures On(Xor3(a, b, c), j) <==> On(a, j) != (On(b, j) != On(c, j))
    decreases j
  {
    hide Half, Odd, Xor3;
    XorStep(a, b, c);
    if j > 0 { ThreeBits(Half(a), Half(b), Half(c), j - 1); }
  }

  lemma XorStep(a: U32, b: U32, c: U32)
    ensures Half(Xor3(a, b, c)) == Xor3(Half(a), Half(b), Half(c))
    ensures Odd(Xor3(a, b, c)) <==> Odd(a) != (Odd(b) != Odd(c))
  {
  }

  lemma Shifted3(x: U32, j: nat)
    requires j < 32
    ensures On(x >> 3, j) <==> j + 3 < 32 && On(x, j + 3)
  {
    hide Down;
    Eight(x);
    OnMore(x, 3, j);
    if j + 3 >= 32 { Above(x, j + 3); }
  }

  lemma Shifted10(x: U32, j: nat)
    requires j < 32
    ensures On(x >> 10, j) <==> j + 10 < 32 && On(x, j + 10)
  {
    hide Down;
    Ten(x);
    OnMore(x, 10, j);
    if j + 10 >= 32 { Above(x, j + 10); }
  }

  lemma Ten(x: U32)
    ensures Down(x, 10) == x >> 10
  {
    hide Down;
    Eight(x); Eight(x >> 8);
    DownMore(x, 8, 2);
    TenPlaces(x);
  }

  lemma TenPlaces(x: U32)
    ensures (x >> 8) >> 2 == x >> 10
  {
  }

  /** There is no bit 32 or higher. */
  lemma Above(b: U32, j: nat)
    requires j >= 32
    ensures !On(b, j)
  {
    hide Down;
    Beyond(b);
    OnMore(b, 32, j - 32);
    NothingOn(j - 32);
  }

  lemma {:induction false} NothingOn(j: nat)
    ensures !On(0, j)
  {
    assert Half(0) == 0;
    if j > 0 { NothingOn(j - 1); }
  }

  lemma {:induction false} DownMore(b: U32, m: nat, n: nat)
    ensures Down(Down(b, m), n) == Down(b, m + n)
    decreases m
  {
    hide Half;
    if m > 0 { DownMore(Half(b), m - 1, n); }
  }

  lemma OnMore(b: U32, m: nat, n: nat)
    ensures On(Down(b, m), n) <==> On(b, m + n)
  {
    DownMore(b, m, n);
  }

  lemma OnHalf(b: U32, j: nat)
    ensures On(Half(b), j) <==> On(b, j + 1)
  {
  }

  lemma ChStep(a: U32, b: U32, c: U32)
    ensures Half(Ch(a, b, c)) == Ch(Half(a), Half(b), Half(c)) && (Odd(Ch(a, b, c)) <==> if Odd(a) then Odd(b) else Odd(c))
  {
  }

  lemma MajStep(a: U32, b: U32, c: U32)
    ensures Half(Maj(a, b, c)) == Maj(Half(a), Half(b), Half(c))
    ensures Odd(Maj(a, b, c)) <==> if Odd(a) == Odd(b) then Odd(a) else Odd(c)
  {
  }

  lemma Eight(b: U32)
    ensures Down(b, 1) == b >> 1 && Down(b, 2) == b >> 2 && Down(b, 3) == b >> 3 && Down(b, 4) == b >> 4
    ensures Down(b, 5) == b >> 5 && Down(b, 6) == b >> 6 && Down(b, 7) == b >> 7 && Down(b, 8) == b >> 8
  {
  }

  lemma NoPlace(b: U32)
    ensures Down(b, 0) == b
  {
  }

  lemma Beyond(b: U32)
    ensures Down(b, 32) == 0
  {
    hide Down, Octet;
    EightOff(b); EightOff(Octet(b)); EightOff(Octet(Octet(b))); EightOff(Octet(Octet(Octet(b))));
    DownMore(b, 8, 8); DownMore(b, 16, 8); DownMore(b, 24, 8);
    AllOff(b);
  }

  function Octet(b: U32): (r: U32) { b >> 8 }

  lemma EightOff(b: U32)
    ensures Down(b, 8) == Octet(b)
  {
    hide Down;
    Eight(b);
  }

  lemma AllOff(b: U32)
    ensures Octet(Octet(Octet(Octet(b)))) == 0
  {
  }

  lemma Top(j: nat)
    requires j < 32
    ensures On(0x8000_0000, j) <==> j == 31
  {
    hide Down, On;
    Eight(0x8000_0000); Eight(0x80_0000); Eight(0x8000);
    DownMore(0x8000_0000, 8, 8); DownMore(0x8000_0000, 16, 8);
    assert Down(0x8000_0000, 24) == 0x80;
    OnMore(0x8000_0000, 8 * (j / 8), j % 8);
    Places(j % 8);
    assert j == 8 * (j / 8) + j % 8;
    if j < 8 {
      assert 8 * (j / 8) == 0;
      OnMore(0x8000_0000, 0, j);
    } else if j < 16 {
      assert 8 * (j / 8) == 8;
    } else if j < 24 {
      assert 8 * (j / 8) == 16;
    }
  }

  lemma Places(j: nat)
    requires j < 8
    ensures !On(0x8000_0000, j) && !On(0x80_0000, j) && !On(0x8000, j) && (On(0x80, j) <==> j == 7)
  {
    hide Down;
    Eight(0x8000_0000); Eight(0x80_0000); Eight(0x8000); Eight(0x80);
    NoPlace(0x8000_0000); NoPlace(0x80_0000); NoPlace(0x8000); NoPlace(0x80);
    if j == 0 {
    } else if j == 1 {
    } else if j == 2 {
    } else if j == 3 {
    } else if j == 4 {
    } else if j == 5 {
    } else if j == 6 {
    }
  }

  lemma Turn(b: U32)
    ensures Odd(b) ==> Rotate(b, 31) == Xor3(Half(b), 0x8000_0000, 0)
    ensures !Odd(b) ==> Rotate(b, 31) == Half(b)
  {
    hide Rotate, Half, Xor3, Odd;
    TurnRight(b);
    TurnBits(b);
  }

  lemma TurnRight(b: U32)
    ensures Rotate(b, 31) == RightTurn(b)
  {
  }

  function RightTurn(b: U32): (r: U32) { (b << 31) | (b >> 1) }

  lemma TurnBits(b: U32)
    ensures Odd(b) ==> RightTurn(b) == Xor3(Half(b), 0x8000_0000, 0)
    ensures !Odd(b) ==> RightTurn(b) == Half(b)
  {
  }

  lemma OnTurn(b: U32, j: nat)
    requires j < 32
    ensures On(Rotate(b, 31), j) <==> On(b, (j + 1) % 32)
  {
    hide Half, Rotate, Down, Xor3;
    Turn(b);
    Top(j);
    NoPlace(b);
    ThreeBits(Half(b), 0x8000_0000, 0, j);
    NothingOn(j);
    OnHalf(b, j);
    Above(b, 32);
  }

  predicate Turned(a: U32, b: U32, n: nat)
  {
    forall j :: 0 <= j < 32 ==> (On(a, j) <==> On(b, (j + n) % 32))
  }

  lemma Again(a: U32, b: U32, c: U32, m: nat, n: nat)
    requires m + n < 32 && Turned(a, b, m) && Turned(b, c, n)
    ensures Turned(a, c, m + n)
  {
    hide On;
    forall j | 0 <= j < 32
      ensures On(a, j) <==> On(c, (j + (m + n)) % 32)
    {
      assert On(a, j) <==> On(b, (j + m) % 32);
      Around(j, m, n);
    }
  }

  lemma Around(j: nat, m: nat, n: nat)
    requires j < 32 && m + n < 32
    ensures 0 <= (j + m) % 32 < 32 && ((j + m) % 32 + n) % 32 == (j + (m + n)) % 32
  {
    assert (j + m) % 32 == if j + m < 32 then j + m else j + m - 32;
  }

  lemma Right1(b: U32)
    ensures Turned(Rotate(b, 31), b, 1)
  {
    hide On, Rotate;
    forall j | 0 <= j < 32
      ensures On(Rotate(b, 31), j) <==> On(b, (j + 1) % 32)
    {
      OnTurn(b, j);
    }
  }

  lemma Right2(b: U32)
    ensures Turned(Rotate(b, 30), b, 2)
  {
    hide Turned;
    assert Rotate(Rotate(b, 31), 31) == Rotate(b, 30);
    Right1(b); Right1(Rotate(b, 31));
    Again(Rotate(b, 30), Rotate(b, 31), b, 1, 1);
  }

  lemma Right4(b: U32)
    ensures Turned(Rotate(b, 28), b, 4)
  {
    hide Turned;
    assert Rotate(Rotate(b, 30), 30) == Rotate(b, 28);
    Right2(b); Right2(Rotate(b, 30));
    Again(Rotate(b, 28), Rotate(b, 30), b, 2, 2);
  }

  lemma Right6(b: U32)
    ensures Turned(Rotate(b, 26), b, 6)
  {
    hide Turned;
    assert Rotate(Rotate(b, 28), 30) == Rotate(b, 26);
    Right4(b); Right2(Rotate(b, 28));
    Again(Rotate(b, 26), Rotate(b, 28), b, 2, 4);
  }

  lemma Right7(b: U32)
    ensures Turned(Rotate(b, 25), b, 7)
  {
    hide Turned;
    assert Rotate(Rotate(b, 26), 31) == Rotate(b, 25);
    Right6(b); Right1(Rotate(b, 26));
    Again(Rotate(b, 25), Rotate(b, 26), b, 1, 6);
  }

  lemma Right11(b: U32)
    ensures Turned(Rotate(b, 21), b, 11)
  {
    hide Turned;
    assert Rotate(Rotate(b, 25), 28) == Rotate(b, 21);
    Right7(b); Right4(Rotate(b, 25));
    Again(Rotate(b, 21), Rotate(b, 25), b, 4, 7);
  }

  lemma Right13(b: U32)
    ensures Turned(Rotate(b, 19), b, 13)
  {
    hide Turned;
    assert Rotate(Rotate(b, 21), 30) == Rotate(b, 19);
    Right11(b); Right2(Rotate(b, 21));
    Again(Rotate(b, 19), Rotate(b, 21), b, 2, 11);
  }

  lemma Right17(b: U32)
    ensures Turned(Rotate(b, 15), b, 17)
  {
    hide Turned;
    assert Rotate(Rotate(b, 19), 28) == Rotate(b, 15);
    Right13(b); Right4(Rotate(b, 19));
    Again(Rotate(b, 15), Rotate(b, 19), b, 4, 13);
  }

  lemma Right18(b: U32)
    ensures Turned(Rotate(b, 14), b, 18)
  {
    hide Turned;
    assert Rotate(Rotate(b, 15), 31) == Rotate(b, 14);
    Right17(b); Right1(Rotate(b, 15));
    Again(Rotate(b, 14), Rotate(b, 15), b, 1, 17);
  }

  lemma Right19(b: U32)
    ensures Turned(Rotate(b, 13), b, 19)
  {
    hide Turned;
    assert Rotate(Rotate(b, 14), 31) == Rotate(b, 13);
    Right18(b); Right1(Rotate(b, 14));
    Again(Rotate(b, 13), Rotate(b, 14), b, 1, 18);
  }

  lemma Right22(b: U32)
    ensures Turned(Rotate(b, 10), b, 22)
  {
    hide Turned;
    assert Rotate(Rotate(b, 14), 28) == Rotate(b, 10);
    Right18(b); Right4(Rotate(b, 14));
    Again(Rotate(b, 10), Rotate(b, 14), b, 4, 18);
  }

  lemma Right25(b: U32)
    ensures Turned(Rotate(b, 7), b, 25)
  {
    hide Turned;
    assert Rotate(Rotate(b, 14), 25) == Rotate(b, 7);
    Right18(b); Right7(Rotate(b, 14));
    Again(Rotate(b, 7), Rotate(b, 14), b, 7, 18);
  }

  // The example of FIPS 180-4: the digest of the three bytes "abc".

  const ABC: seq<Byte> := [0x61, 0x62, 0x63]

  ghost predicate Example(m: seq<U32>)
    ensures Example(m) ==> |m| == 16
  {
    m == [0x61626380, 0, 0, 0, 0, 0, 0, 0, 0, 0, 0, 0, 0, 0, 0, 0x18]
  }

  lemma NextWord(m: seq<U32>, t: nat, w: U32)
    requires |m| == 16 && 16 <= t
    requires Plus(Plus(Plus(LowSigma1(Schedule(m, t - 2)), Schedule(m, t - 7)), LowSigma0(Schedule(m, t - 15))), Schedule(m, t - 16)) == w
    ensures Schedule(m, t) == w
  {
  }

  lemma NextState(h: Regs, m: seq<U32>, t: nat, r: Regs, k: U32, w: U32, x: U32, y: U32) returns (s: Regs)
    requires |m| == 16 && t < 64 && Rounds(h, m, t) == r && Schedule(m, t) == w && |K256| == 64 && K256[t] == k
    requires Step(r, k, w) == Regs(x, r.a, r.b, r.c, y, r.e, r.f, r.g)
    ensures s == Regs(x, r.a, r.b, r.c, y, r.e, r.f, r.g) && Rounds(h, m, t + 1) == s
  {
    s := Step(r, k, w);
  }

  lemma Words0(m: seq<U32>)
    requires Example(m)
    ensures Schedule(m, 0) == 0x61626380 && Schedule(m, 1) == 0x00000000 && Schedule(m, 2) == 0x00000000 && Schedule(m, 3) == 0x00000000
    ensures Schedule(m, 4) == 0x00000000 && Schedule(m, 5) == 0x00000000 && Schedule(m, 6) == 0x00000000 && Schedule(m, 7) == 0x00000000
    ensures Schedule(m, 8) == 0x00000000 && Schedule(m, 9) == 0x00000000 && Schedule(m, 10) == 0x00000000 && Schedule(m, 11) == 0x00000000
    ensures Schedule(m, 12) == 0x00000000 && Schedule(m, 13) == 0x00000000 && Schedule(m, 14) == 0x00000000 && Schedule(m, 15) == 0x00000018
  {
  }

  lemma Words16(m: seq<U32>)
    requires Example(m)
    ensures Schedule(m, 16) == 0x61626380 && Schedule(m, 17) == 0x000f0000 && Schedule(m, 18) == 0x7da86405 && Schedule(m, 19) == 0x600003c6
    ensures Schedule(m, 20) == 0x3e9d7b78 && Schedule(m, 21) == 0x0183fc00 && Schedule(m, 22) == 0x12dcbfdb && Schedule(m, 23) == 0xe2e2c38e
    ensures Schedule(m, 24) == 0xc8215c1a && Schedule(m, 25) == 0xb73679a2 && Schedule(m, 26) == 0xe5bc3909 && Schedule(m, 27) == 0x32663c5b
    ensures Schedule(m, 28) == 0x9d209d67 && Schedule(m, 29) == 0xec8726cb && Schedule(m, 30) == 0x702138a4 && Schedule(m, 31) == 0xd3b7973b
  {
    hide Schedule;
    Words0(m);
    NextWord(m, 16, 0x61626380); NextWord(m, 17, 0x000f0000); NextWord(m, 18, 0x7da86405);
    NextWord(m, 19, 0x600003c6); NextWord(m, 20, 0x3e9d7b78); NextWord(m, 21, 0x0183fc00);
    NextWord(m, 22, 0x12dcbfdb); NextWord(m, 23, 0xe2e2c38e); NextWord(m, 24, 0xc8215c1a);
    NextWord(m, 25, 0xb73679a2); NextWord(m, 26, 0xe5bc3909); NextWord(m, 27, 0x32663c5b);
    NextWord(m, 28, 0x9d209d67); NextWord(m, 29, 0xec8726cb); NextWord(m, 30, 0x702138a4);
    NextWord(m, 31, 0xd3b7973b);
  }

  lemma Words32(m: seq<U32>)
    requires Example(m)
    ensures Schedule(m, 32) == 0x93f5997f && Schedule(m, 33) == 0x3b68ba73 && Schedule(m, 34) == 0xaff4ffc1 && Schedule(m, 35) == 0xf10a5c62
    ensures Schedule(m, 36) == 0x0a8b3996 && Schedule(m, 37) == 0x72af830a && Schedule(m, 38) == 0x9409e33e && Schedule(m, 39) == 0x24641522
    ensures Schedule(m, 40) == 0x9f47bf94 && Schedule(m, 41) == 0xf0a64f5a && Schedule(m, 42) == 0x3e246a79 && Schedule(m, 43) == 0x27333ba3
    ensures Schedule(m, 44) == 0x0c4763f2 && Schedule(m, 45) == 0x840abf27 && Schedule(m, 46) == 0x7a290d5d && Schedule(m, 47) == 0x065c43da
  {
    hide Schedule;
    Words16(m);
    NextWord(m, 32, 0x93f5997f); NextWord(m, 33, 0x3b68ba73); NextWord(m, 34, 0xaff4ffc1);
    NextWord(m, 35, 0xf10a5c62); NextWord(m, 36, 0x0a8b3996); NextWord(m, 37, 0x72af830a);
    NextWord(m, 38, 0x9409e33e); NextWord(m, 39, 0x24641522); NextWord(m, 40, 0x9f47bf94);
    NextWord(m, 41, 0xf0a64f5a); NextWord(m, 42, 0x3e246a79); NextWord(m, 43, 0x27333ba3);
    NextWord(m, 44, 0x0c4763f2); NextWord(m, 45, 0x840abf27); NextWord(m, 46, 0x7a290d5d);
    NextWord(m, 47, 0x065c43da);
  }

  lemma Words48(m: seq<U32>)
    requires Example(m)
    ensures Schedule(m, 48) == 0xfb3e89cb && Schedule(m, 49) == 0xcc7617db && Schedule(m, 50) == 0xb9e66c34 && Schedule(m, 51) == 0xa9993667
    ensures Schedule(m, 52) == 0x84badedd && Schedule(m, 53) == 0xc21462bc && Schedule(m, 54) == 0x1487472c && Schedule(m, 55) == 0xb20f7a99
    ensures Schedule(m, 56) == 0xef57b9cd && Schedule(m, 57) == 0xebe6b238 && Schedule(m, 58) == 0x9fe3095e && Schedule(m, 59) == 0x78bc8d4b
    ensures Schedule(m, 60) == 0xa43fcf15 && Schedule(m, 61) == 0x668b2ff8 && Schedule(m, 62) == 0xeeaba2cc && Schedule(m, 63) == 0x12b1edeb
  {
    hide Schedule;
    Words32(m);
    NextWord(m, 48, 0xfb3e89cb); NextWord(m, 49, 0xcc7617db); NextWord(m, 50, 0xb9e66c34);
    NextWord(m, 51, 0xa9993667); NextWord(m, 52, 0x84badedd); NextWord(m, 53, 0xc21462bc);
    NextWord(m, 54, 0x1487472c); NextWord(m, 55, 0xb20f7a99); NextWord(m, 56, 0xef57b9cd);
    NextWord(m, 57, 0xebe6b238); NextWord(m, 58, 0x9fe3095e); NextWord(m, 59, 0x78bc8d4b);
    NextWord(m, 60, 0xa43fcf15); NextWord(m, 61, 0x668b2ff8); NextWord(m, 62, 0xeeaba2cc);
    NextWord(m, 63, 0x12b1edeb);
  }

  lemma NoRounds(h: Regs, m: seq<U32>)
    requires |m| == 16
    ensures Rounds(h, m, 0) == h
  {
  }

  lemma Rounds0(h: Regs, m: seq<U32>) returns (r: Regs)
    requires Example(m) && h == INITIAL
    ensures r == Rounds(h, m, 8) == Regs(
      0x85a07b5f, 0xe5030380, 0x2b4209f5, 0x04409a6a, 0x0c657a79, 0x9b27a401, 0x714260ad, 0x43ada245)
  {
    hide Schedule, Rounds, Example, K256;
    Words0(m); Constants0();
    NoRounds(h, m);
    r := h;
    r := NextState(h, m, 0, r, 0x428a2f98, 0x61626380, 0x5d6aebcd, 0xfa2a4622);
    r := NextState(h, m, 1, r, 0x71374491, 0x00000000, 0x5a6ad9ad, 0x78ce7989);
    r := NextState(h, m, 2, r, 0xb5c0fbcf, 0x00000000, 0xc8c347a7, 0xf92939eb);
    r := NextState(h, m, 3, r, 0xe9b5dba5, 0x00000000, 0xd550f666, 0x24e00850);
    r := NextState(h, m, 4, r, 0x3956c25b, 0x00000000, 0x04409a6a, 0x43ada245);
    r := NextState(h, m, 5, r, 0x59f111f1, 0x00000000, 0x2b4209f5, 0x714260ad);
    r := NextState(h, m, 6, r, 0x923f82a4, 0x00000000, 0xe5030380, 0x9b27a401);
    r := NextState(h, m, 7, r, 0xab1c5ed5, 0x00000000, 0x85a07b5f, 0x0c657a79);
  }

  lemma Rounds8(h: Regs, m: seq<U32>) returns (r: Regs)
    requires Example(m) && Rounds(h, m, 8) == Regs(
      0x85a07b5f, 0xe5030380, 0x2b4209f5, 0x04409a6a, 0x0c657a79, 0x9b27a401, 0x714260ad, 0x43ada245)
    ensures r == Rounds(h, m, 16) == Regs(
      0xb0fa238e, 0xc0645fde, 0xd932eb16, 0x87912990, 0x07590dcd, 0x0b92f20c, 0x745a48de, 0x1e578218)
  {
    hide Schedule, Rounds, Example, K256;
    Words0(m); Constants8();
    r := Rounds(h, m, 8);
    r := NextState(h, m, 8, r, 0xd807aa98, 0x00000000, 0x8e04ecb9, 0x32ca2d8c);
    r := NextState(h, m, 9, r, 0x12835b01, 0x00000000, 0x8c87346b, 0x1cc92596);
    r := NextState(h, m, 10, r, 0x243185be, 0x00000000, 0x4798a3f4, 0x436b23e8);
    r := NextState(h, m, 11, r, 0x550c7dc3, 0x00000000, 0xf71fc5a9, 0x816fd6e9);
    r := NextState(h, m, 12, r, 0x72be5d74, 0x00000000, 0x87912990, 0x1e578218);
    r := NextState(h, m, 13, r, 0x80deb1fe, 0x00000000, 0xd932eb16, 0x745a48de);
    r := NextState(h, m, 14, r, 0x9bdc06a7, 0x00000000, 0xc0645fde, 0x0b92f20c);
    r := NextState(h, m, 15, r, 0xc19bf174, 0x00000018, 0xb0fa238e, 0x07590dcd);
  }

  lemma Rounds16(h: Regs, m: seq<U32>) returns (r: Regs)
    requires Example(m) && Rounds(h, m, 16) == Regs(
      0xb0fa238e, 0xc0645fde, 0xd932eb16, 0x87912990, 0x07590dcd, 0x0b92f20c, 0x745a48de, 0x1e578218)
    ensures r == Rounds(h, m, 24) == Regs(
      0xc5d53d8d, 0xa7a3623f, 0xc2606d6d, 0x9dc68b63, 0xaa47c347, 0x49f5114a, 0xe1257970, 0x8ada8930)
  {
    hide Schedule, Rounds, Example, K256;
    Words16(m); Constants16();
    r := Rounds(h, m, 16);
    r := NextState(h, m, 16, r, 0xe49b69c1, 0x61626380, 0x21da9a9b, 0x8034229c);
    r := NextState(h, m, 17, r, 0xefbe4786, 0x000f0000, 0xc2fbd9d1, 0x846ee454);
    r := NextState(h, m, 18, r, 0x0fc19dc6, 0x7da86405, 0xfe777bbf, 0xcc899961);
    r := NextState(h, m, 19, r, 0x240ca1cc, 0x600003c6, 0xe1f20c33, 0xb0638179);
    r := NextState(h, m, 20, r, 0x2de92c6f, 0x3e9d7b78, 0x9dc68b63, 0x8ada8930);
    r := NextState(h, m, 21, r, 0x4a7484aa, 0x0183fc00, 0xc2606d6d, 0xe1257970);
    r := NextState(h, m, 22, r, 0x5cb0a9dc, 0x12dcbfdb, 0xa7a3623f, 0x49f5114a);
    r := NextState(h, m, 23, r, 0x76f988da, 0xe2e2c38e, 0xc5d53d8d, 0xaa47c347);
  }

  lemma Rounds24(h: Regs, m: seq<U32>) returns (r: Regs)
    requires Example(m) && Rounds(h, m, 24) == Regs(
      0xc5d53d8d, 0xa7a3623f, 0xc2606d6d, 0x9dc68b63, 0xaa47c347, 0x49f5114a, 0xe1257970, 0x8ada8930)
    ensures r == Rounds(h, m, 32) == Regs(
      0x73b33bf5, 0xea992a22, 0xa0060b30, 0x363482c9, 0xba591112, 0x0109ab3a, 0xade79437, 0x6112a3b7)
  {
    hide Schedule, Rounds, Example, K256;
    Words16(m); Constants24();
    r := Rounds(h, m, 24);
    r := NextState(h, m, 24, r, 0x983e5152, 0xc8215c1a, 0x1c2c2838, 0x2823ef91);
    r := NextState(h, m, 25, r, 0xa831c66d, 0xb73679a2, 0xcde8037d, 0x14383d8e);
    r := NextState(h, m, 26, r, 0xb00327c8, 0xe5bc3909, 0xb62ec4bc, 0xc74c6516);
    r := NextState(h, m, 27, r, 0xbf597fc7, 0x32663c5b, 0x77d37528, 0xedffbff8);
    r := NextState(h, m, 28, r, 0xc6e00bf3, 0x9d209d67, 0x363482c9, 0x6112a3b7);
    r := NextState(h, m, 29, r, 0xd5a79147, 0xec8726cb, 0xa0060b30, 0xade79437);
    r := NextState(h, m, 30, r, 0x06ca6351, 0x702138a4, 0xea992a22, 0x0109ab3a);
    r := NextState(h, m, 31, r, 0x14292967, 0xd3b7973b, 0x73b33bf5, 0xba591112);
  }

  lemma Rounds32(h: Regs, m: seq<U32>) returns (r: Regs)
    requires Example(m) && Rounds(h, m, 32) == Regs(
      0x73b33bf5, 0xea992a22, 0xa0060b30, 0x363482c9, 0xba591112, 0x0109ab3a, 0xade79437, 0x6112a3b7)
    ensures r == Rounds(h, m, 40) == Regs(
      0x79ea687a, 0x6dc57a8a, 0x34df1604, 0x41a65cb1, 0x1efbc0a0, 0xf0781bc8, 0xa507a53d, 0x0772a26b)
  {
    hide Schedule, Rounds, Example, K256;
    Words32(m); Constants32();
    r := Rounds(h, m, 32);
    r := NextState(h, m, 32, r, 0x27b70a85, 0x93f5997f, 0x98e12507, 0x9cd9f5f6);
    r := NextState(h, m, 33, r, 0x2e1b2138, 0x3b68ba73, 0xfe604df5, 0x59249dd3);
    r := NextState(h, m, 34, r, 0x4d2c6dfc, 0xaff4ffc1, 0xa9a7738c, 0x085f3833);
    r := NextState(h, m, 35, r, 0x53380d13, 0xf10a5c62, 0x65a0cfe4, 0xf4b002d6);
    r := NextState(h, m, 36, r, 0x650a7354, 0x0a8b3996, 0x41a65cb1, 0x0772a26b);
    r := NextState(h, m, 37, r, 0x766a0abb, 0x72af830a, 0x34df1604, 0xa507a53d);
    r := NextState(h, m, 38, r, 0x81c2c92e, 0x9409e33e, 0x6dc57a8a, 0xf0781bc8);
    r := NextState(h, m, 39, r, 0x92722c85, 0x24641522, 0x79ea687a, 0x1efbc0a0);
  }

  lemma Rounds40(h: Regs, m: seq<U32>) returns (r: Regs)
    requires Example(m) && Rounds(h, m, 40) == Regs(
      0x79ea687a, 0x6dc57a8a, 0x34df1604, 0x41a65cb1, 0x1efbc0a0, 0xf0781bc8, 0xa507a53d, 0x0772a26b)
    ensures r == Rounds(h, m, 48) == Regs(
      0x4172328d, 0xa14c14b0, 0x72ab4b91, 0x26628815, 0xfecf0bc6, 0xd57b94a9, 0xb7755da1, 0xa80f11f0)
  {
    hide Schedule, Rounds, Example, K256;
    Words32(m); Constants40();
    r := Rounds(h, m, 40);
    r := NextState(h, m, 40, r, 0xa2bfe8a1, 0x9f47bf94, 0xd6670766, 0x26352d63);
    r := NextState(h, m, 41, r, 0xa81a664b, 0xf0a64f5a, 0xdf46652f, 0x838b2711);
    r := NextState(h, m, 42, r, 0xc24b8b70, 0x3e246a79, 0x17aa0dfe, 0xdecd4715);
    r := NextState(h, m, 43, r, 0xc76c51a3, 0x27333ba3, 0x9d4baf93, 0xfda24c2e);
    r := NextState(h, m, 44, r, 0xd192e819, 0x0c4763f2, 0x26628815, 0xa80f11f0);
    r := NextState(h, m, 45, r, 0xd6990624, 0x840abf27, 0x72ab4b91, 0xb7755da1);
    r := NextState(h, m, 46, r, 0xf40e3585, 0x7a290d5d, 0xa14c14b0, 0xd57b94a9);
    r := NextState(h, m, 47, r, 0x106aa070, 0x065c43da, 0x4172328d, 0xfecf0bc6);
  }

  lemma Rounds48(h: Regs, m: seq<U32>) returns (r: Regs)
    requires Example(m) && Rounds(h, m, 48) == Regs(
      0x4172328d, 0xa14c14b0, 0x72ab4b91, 0x26628815, 0xfecf0bc6, 0xd57b94a9, 0xb7755da1, 0xa80f11f0)
    ensures r == Rounds(h, m, 56) == Regs(
      0x38cc9913, 0x3ec45cdb, 0xf5702fdb, 0x101fd28f, 0x54cb266b, 0xe50e1b4f, 0x9f4787c3, 0x529e7d00)
  {
    hide Schedule, Rounds, Example, K256;
    Words48(m); Constants48();
    r := Rounds(h, m, 48);
    r := NextState(h, m, 48, r, 0x19a4c116, 0xfb3e89cb, 0x05757ceb, 0xbd714038);
    r := NextState(h, m, 49, r, 0x1e376c08, 0xcc7617db, 0xf11bfaa8, 0x6e5c390c);
    r := NextState(h, m, 50, r, 0x2748774c, 0xb9e66c34, 0x7a0508a1, 0x52f1ccf7);
    r := NextState(h, m, 51, r, 0x34b0bcb5, 0xa9993667, 0x886e7a22, 0x49231c1e);
    r := NextState(h, m, 52, r, 0x391c0cb3, 0x84badedd, 0x101fd28f, 0x529e7d00);
    r := NextState(h, m, 53, r, 0x4ed8aa4a, 0xc21462bc, 0xf5702fdb, 0x9f4787c3);
    r := NextState(h, m, 54, r, 0x5b9cca4f, 0x1487472c, 0x3ec45cdb, 0xe50e1b4f);
    r := NextState(h, m, 55, r, 0x682e6ff3, 0xb20f7a99, 0x38cc9913, 0x54cb266b);
  }

  lemma Rounds56(h: Regs, m: seq<U32>) returns (r: Regs)
    requires Example(m) && Rounds(h, m, 56) == Regs(
      0x38cc9913, 0x3ec45cdb, 0xf5702fdb, 0x101fd28f, 0x54cb266b, 0xe50e1b4f, 0x9f4787c3, 0x529e7d00)
    ensures r == Rounds(h, m, 64) == Regs(
      0x506e3058, 0xd39a2165, 0x04d24d6c, 0xb85e2ce9, 0x5ef50f24, 0xfb121210, 0x948d25b6, 0x961f4894)
  {
    hide Schedule, Rounds, Example, K256;
    Words48(m); Constants56();
    r := Rounds(h, m, 56);
    r := NextState(h, m, 56, r, 0x748f82ee, 0xef57b9cd, 0xfcd1887b, 0x9b5e906c);
    r := NextState(h, m, 57, r, 0x78a5636f, 0xebe6b238, 0xc062d46f, 0x7e44008e);
    r := NextState(h, m, 58, r, 0x84c87814, 0x9fe3095e, 0xffb70472, 0x6d83bfc6);
    r := NextState(h, m, 59, r, 0x8cc70208, 0x78bc8d4b, 0xb6ae8fff, 0xb21bad3d);
    r := NextState(h, m, 60, r, 0x90befffa, 0xa43fcf15, 0xb85e2ce9, 0x961f4894);
    r := NextState(h, m, 61, r, 0xa4506ceb, 0x668b2ff8, 0x04d24d6c, 0x948d25b6);
    r := NextState(h, m, 62, r, 0xbef9a3f7, 0xeeaba2cc, 0xd39a2165, 0xfb121210);
    r := NextState(h, m, 63, r, 0xc67178f2, 0x12b1edeb, 0x506e3058, 0x5ef50f24);
  }

  /** The digest of the example. */
  lemma AbcDigest()
    ensures DigestBytes(Fold(BlockOf, INITIAL, Padded(ABC)), 8) ==
      [0xba, 0x78, 0x16, 0xbf] + [0x8f, 0x01, 0xcf, 0xea] + [0x41, 0x41, 0x40, 0xde] + [0x5d, 0xae, 0x22, 0x23] +
      [0xb0, 0x03, 0x61, 0xa3] + [0x96, 0x17, 0x7a, 0x9c] + [0xb4, 0x10, 0xff, 0x61] + [0xf2, 0x00, 0x15, 0xad]
  {
    hide Fold, Padded, Words, Values, DigestBytes, Compress, Example;
    PaddedAbc();
    FoldOne(BlockOf, INITIAL, Padded(ABC));
    AbcBlock(Values(Words(Padded(ABC))));
    AbcBytes();
  }

  lemma AbcBlock(m: seq<U32>)
    requires Example(m)
    ensures Compress(INITIAL, m) == Regs(0xba7816bf, 0x8f01cfea, 0x414140de, 0x5dae2223, 0xb00361a3, 0x96177a9c, 0xb410ff61, 0xf20015ad)
  {
    hide Rounds, Example;
    var r := Rounds0(INITIAL, m);
    r := Rounds8(INITIAL, m);
    r := Rounds16(INITIAL, m);
    r := Rounds24(INITIAL, m);
    r := Rounds32(INITIAL, m);
    r := Rounds40(INITIAL, m);
    r := Rounds48(INITIAL, m);
    r := Rounds56(INITIAL, m);
  }

  lemma PaddedAbc()
    ensures |Padded(ABC)| == 64 && Example(Values(Words(Padded(ABC))))
  {
    hide Zeros;
    var p := Padded(ABC);
    assert ZeroCount(3) == 52;
    LengthOfAbc();
    assert p == ABC + [0x80] + Zeros(52) + [0, 0, 0, 0, 0, 0, 0, 0x18];
    AbcWords(p);
  }

  lemma LengthOfAbc()
    ensures LengthBytes(3) == [0, 0, 0, 0, 0, 0, 0, 0x18]
  {
    hide FromByte, ToByte;
    TwentyFour();
  }

  lemma TwentyFour()
    ensures ToByte(0) == 0 && ToByte(24) == 0x18
  {
    hide Small;
    LowByteOf(0); LowByteOf(24);
    assert FromByte(0x18) == 24 && FromByte(0) == 0;
    SameByte(ToByte(0), 0);
    SameByte(ToByte(24), 0x18);
  }

  lemma AbcWords(p: seq<Byte>)
    requires p == ABC + [0x80] + Zeros(52) + [0, 0, 0, 0, 0, 0, 0, 0x18]
    ensures Example(Values(Words(p)))
  {
    var m := Values(Words(p));
    assert Value(Word(0x61, 0x62, 0x63, 0x80)) == 0x61626380 && Value(ZERO) == 0 && Value(Word(0, 0, 0, 0x18)) == 0x18;
    assert Words(p)[0] == Word(0x61, 0x62, 0x63, 0x80);
    assert Words(p)[15] == Word(0, 0, 0, 0x18);
    assert forall i :: 1 <= i < 15 ==> Words(p)[i] == ZERO;
  }

  lemma AbcBytes()
    ensures DigestBytes(Regs(0xba7816bf, 0x8f01cfea, 0x414140de, 0x5dae2223, 0xb00361a3, 0x96177a9c, 0xb410ff61, 0xf20015ad), 8) ==
      [0xba, 0x78, 0x16, 0xbf] + [0x8f, 0x01, 0xcf, 0xea] + [0x41, 0x41, 0x40, 0xde] + [0x5d, 0xae, 0x22, 0x23] +
      [0xb0, 0x03, 0x61, 0xa3] + [0x96, 0x17, 0x7a, 0x9c] + [0xb4, 0x10, 0xff, 0x61] + [0xf2, 0x00, 0x15, 0xad]
  {
    hide WordBytes, Split, DigestBytes;
    AbcWordBytes();
    WholeDigest(Regs(0xba7816bf, 0x8f01cfea, 0x414140de, 0x5dae2223, 0xb00361a3, 0x96177a9c, 0xb410ff61, 0xf20015ad));
  }

  lemma AbcWordBytes()
    ensures WordBytes(Split(0xba7816bf)) == [0xba, 0x78, 0x16, 0xbf]
    ensures WordBytes(Split(0x8f01cfea)) == [0x8f, 0x01, 0xcf, 0xea]
    ensures WordBytes(Split(0x414140de)) == [0x41, 0x41, 0x40, 0xde]
    ensures WordBytes(Split(0x5dae2223)) == [0x5d, 0xae, 0x22, 0x23]
    ensures WordBytes(Split(0xb00361a3)) == [0xb0, 0x03, 0x61, 0xa3]
    ensures WordBytes(Split(0x96177a9c)) == [0x96, 0x17, 0x7a, 0x9c]
    ensures WordBytes(Split(0xb410ff61)) == [0xb4, 0x10, 0xff, 0x61]
    ensures WordBytes(Split(0xf20015ad)) == [0xf2, 0x00, 0x15, 0xad]
  {
  }

  lemma WholeDigest(h: Regs)
    ensures DigestBytes(h, 8) ==
      WordBytes(Split(h.a)) + WordBytes(Split(h.b)) + WordBytes(Split(h.c)) + WordBytes(Split(h.d))
      + WordBytes(Split(h.e)) + WordBytes(Split(h.f)) + WordBytes(Split(h.g)) + WordBytes(Split(h.h))
  {
    hide WordBytes, Split, DigestBytes;
    DigestMore(h, 0); DigestMore(h, 1); DigestMore(h, 2); DigestMore(h, 3);
    DigestMore(h, 4); DigestMore(h, 5); DigestMore(h, 6); DigestMore(h, 7);
    assert [] + WordBytes(Split(h.a)) == WordBytes(Split(h.a));
  }

  lemma DigestMore(h: Regs, n: nat)
    requires n < 8
    ensures DigestBytes(h, 0) == [] && DigestBytes(h, n + 1) == DigestBytes(h, n) + WordBytes(Split(Nth(h, n)))
  {
  }
}
