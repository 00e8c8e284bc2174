/** The long division inside BN_div: a normalised divisor, one estimated quotient digit per step, one
    multiply-and-subtract on a sliding window, and at most one add-back. */
module Division {
  import opened Words
  import opened HalfWords
  import opened WordQuotient
  import opened WordDivision
  import opened Kernels
  import opened Multiply
  import opened Karatsuba

  /** n3 = the top three words of the window, v2 = the top two words of the divisor, s the weight
      below them: what a trial digit is judged by. */
  ghost predicate Leading(w: int, n3: int, d: int, v2: int, s: int)
  {
    s > 0 && n3 * s <= w < (n3 + 1) * s && v2 * s <= d < (v2 + 1) * s
  }

  /** A digit that fails the two-word test is too large. */
  lemma FailedTestTooLarge(w: int, n3: int, d: int, v2: int, s: int, q: int)
    requires Leading(w, n3, d, v2, s) && q >= 0 && q * v2 > n3
    ensures q * d > w
  {
    MulMono(n3 + 1, q * v2, s);
    Assoc(q, v2, s);
    MulMono(v2 * s, d, q);
  }

  /** A digit that passes the two-word test is at most one too large. */
  lemma PassedTestNearlyExact(w: int, n3: int, d: int, v2: int, s: int, q: int)
    requires Leading(w, n3, d, v2, s) && 0 <= q < BASE && v2 >= BASE && q * v2 <= n3
    ensures (q - 1) * d <= w
  {
    if q >= 1 {
      MulMono(d, (v2 + 1) * s, q - 1);
      Assoc(q - 1, v2 + 1, s);
      assert (q - 1) * (v2 + 1) == q * v2 + q - 1 - v2;
      MulMono((q - 1) * (v2 + 1), n3, s);
    } else {
      MulMono(0, n3, s);
    }
  }

  /** With equal leading words the digit BASE - 1 is taken unrefined; since the divisor is normalised
      it too is at most one too large. */
  lemma EqualLeadingWords(w: int, n0: int, d: int, d0: int, s: int)
    requires s > 0 && n0 == d0 >= BASE / 2 && d0 < BASE
    requires n0 * (BASE * s) <= w && d < (d0 + 1) * s && 0 <= d
    ensures (BASE - 2) * d <= w
  {
    MulMono(d, (d0 + 1) * s, BASE - 2);
    assert (BASE - 2) * ((d0 + 1) * s) == ((BASE - 2) * (d0 + 1)) * s;
    MulMono((BASE - 2) * (d0 + 1), n0 * BASE, s);
  }

  /** The floor quotient of the two leading words over-estimates the digit. */
  lemma TwoWordQuotient(n0: int, n1: int, n2: int, d0: int, d1: int, q: int)
    requires 0 <= n0 && 0 <= n1 < BASE && 0 <= n2 < BASE && 0 < d0 && 0 <= d1
    requires q == (n0 * BASE + n1) / d0
    ensures q >= 0 && (q + 1) * (d0 * BASE + d1) > n0 * BASE * BASE + n1 * BASE + n2
  {
    DivBounds(n0 * BASE + n1, d0);
    assert (q + 1) * d0 >= n0 * BASE + n1 + 1;
    assert (q + 1) * (d0 * BASE + d1) == ((q + 1) * d0) * BASE + (q + 1) * d1;
    MulMono(0, d1, q + 1);
  }

  /** The refinement loop of BN_div (mul64 branch): lower q while d1 * q exceeds rem * BASE + n2,
      stopping when rem would overflow. */
  method RefineDigit(n0: Word, n1: Word, n2: Word, d0: Word, d1: Word) returns (q: Word)
    requires BASE / 2 <= d0 && n0 < d0
    ensures q as int * (d0 * BASE + d1) <= n0 * BASE * BASE + n1 * BASE + n2
    ensures (q as int + 1) * (d0 * BASE + d1) > n0 * BASE * BASE + n1 * BASE + n2
  {
    q := DivWords(n0, n1, d0);
    ghost var v2: int, n3: int := d0 * BASE + d1, n0 * BASE * BASE + n1 * BASE + n2;
    SmallMod(n0, d0);
    TwoWordQuotient(n0, n1, n2, d0, d1, q);
    RemainderWord(n0, n1, d0, q);
    var rem: int := (n1 as int - q as int * d0 as int) % BASE;
    SplitWord(d1); SplitWord(q);
    var t2l, t2h := Mul64(LBits(d1), HBits(d1), LBits(q), HBits(q));
    var tl: int, th: int := t2l, t2h;
    MulComm(d1, q);
    while !(th < rem || (th == rem && tl <= n2))
      invariant 0 <= tl < BASE && 0 <= th && tl + th * BASE == q as int * d1 as int
      invariant 0 <= rem < BASE && rem == n0 * BASE + n1 - q as int * d0 as int
      invariant (q as int + 1) * v2 > n3
      decreases q
    {
      TestFails(q, n0, n1, n2, d0, d1, rem, tl, th);
      q := q - 1;
      rem := rem + d0;
      if rem >= BASE {
        RemOverflow(q, n0, n1, n2, d0, d1, rem);
        return;
      }
      if tl < d1 { th := th - 1; tl := tl + BASE; }
      tl := tl - d1;
    }
    TestPasses(q, n0, n1, n2, d0, d1, rem, tl, th);
  }

  lemma SmallMod(x: int, d: int)
    requires 0 <= x < d
    ensures x % d == x
  {
    QuotientUnique(x, d, 0);
  }

  lemma RemainderWord(n0: Word, n1: Word, d0: Word, q: int)
    requires 0 < d0 && q == (n0 * BASE + n1) / d0
    ensures (n1 as int - q * d0 as int) % BASE == n0 * BASE + n1 - q * d0
  {
    DivBounds(n0 * BASE + n1, d0);
    assert (q + 1) * d0 == q * d0 + d0;
    ModShift(n1 as int - q * d0, -(n0 as int));
  }

  lemma TestFails(q: Word, n0: Word, n1: Word, n2: Word, d0: Word, d1: Word, rem: int, tl: int, th: int)
    requires 0 <= tl < BASE && 0 <= th && tl + th * BASE == q as int * d1 as int && 0 <= rem < BASE
    requires rem == n0 * BASE + n1 - q as int * d0 as int
    requires !(th < rem || (th == rem && tl <= n2))
    ensures q as int * (d0 * BASE + d1) > n0 * BASE * BASE + n1 * BASE + n2
    ensures q >= 1
    ensures (q as int - 1) * d1 as int == tl + th * BASE - d1
    ensures rem + d0 == n0 * BASE + n1 - (q as int - 1) * d0 as int
    ensures tl < d1 ==> th >= 1
  {
    assert tl + th * BASE > rem * BASE + n2;
    assert q as int * (d0 * BASE + d1) == (q as int * d0) * BASE + q as int * d1;
    assert (q as int - 1) * d1 == q as int * d1 - d1;
    assert (q as int - 1) * d0 == q as int * d0 - d0;
    assert q == 0 ==> q as int * d1 as int == 0;
    if q >= 1 { MulMono(1, q, d1); }
  }

  lemma RemOverflow(q: Word, n0: Word, n1: Word, n2: Word, d0: Word, d1: Word, rem: int)
    requires rem >= BASE && rem == n0 * BASE + n1 - q as int * d0 as int
    ensures q as int * (d0 * BASE + d1) <= n0 * BASE * BASE + n1 * BASE + n2
  {
    assert q as int * (d0 * BASE + d1) == (q as int * d0) * BASE + q as int * d1;
    ProductRoom(q, d1);
  }

  lemma TestPasses(q: Word, n0: Word, n1: Word, n2: Word, d0: Word, d1: Word, rem: int, tl: int, th: int)
    requires 0 <= tl < BASE && 0 <= th && tl + th * BASE == q as int * d1 as int
    requires rem == n0 * BASE + n1 - q as int * d0 as int
    requires th < rem || (th == rem && tl <= n2)
    ensures q as int * (d0 * BASE + d1) <= n0 * BASE * BASE + n1 * BASE + n2
  {
    assert q as int * (d0 * BASE + d1) == (q as int * d0) * BASE + q as int * d1;
  }

  /** The three leading words of an (n+1)-word window and the two of the divisor. */
  lemma LeadingWords(m: array<Word>, wp: nat, dp: nat, n: nat)
    requires 2 <= n && wp + n + 1 <= m.Length && dp + n <= m.Length
    ensures var n3 := m[wp + n] * BASE * BASE + m[wp + n - 1] * BASE + m[wp + n - 2];
            var v2 := m[dp + n - 1] * BASE + m[dp + n - 2];
            Leading(At(m, wp, n + 1), n3, At(m, dp, n), v2, Radix(n - 2))
  {
    hide At, Radix;
    var s := Radix(n - 2);
    assert Radix(n - 1) == BASE * s && Radix(n) == BASE * (BASE * s) by { RadixUp(n - 2); RadixUp(n - 1); }
    SliceSnoc(m, wp, n - 2); SliceSnoc(m, wp, n - 1); SliceSnoc(m, wp, n);
    SliceSnoc(m, dp, n - 2); SliceSnoc(m, dp, n - 1);
    MiddleBound(m, wp, n - 2); MiddleBound(m, dp, n - 2);
    WeighThree(At(m, wp, n - 2), m[wp + n - 2], m[wp + n - 1], m[wp + n], s);
    WeighThree(At(m, dp, n - 2), m[dp + n - 2], m[dp + n - 1], 0, s);
  }

  lemma WeighThree(low: int, x: int, y: int, z: int, s: int)
    requires 0 <= low < s
    ensures var v := z * BASE * BASE + y * BASE + x;
            v * s <= low + x * s + y * (BASE * s) + z * (BASE * (BASE * s)) < (v + 1) * s
  {
    var v := z * BASE * BASE + y * BASE + x;
    assert v * s == x * s + y * (BASE * s) + z * (BASE * (BASE * s));
    assert (v + 1) * s == v * s + s;
  }

  /** Two-word window over a one-word divisor. */
  lemma OneWordDivisor(m: array<Word>, wp: nat, dp: nat)
    requires wp + 2 <= m.Length && dp + 1 <= m.Length
    ensures At(m, wp, 2) == m[wp] + m[wp + 1] * BASE && At(m, dp, 1) == m[dp]
  {
    assert m[wp..wp + 2] == [m[wp], m[wp + 1]];
    assert m[dp..dp + 1] == [m[dp]];
    ValSingle(m[dp]);
    ValAppend([m[wp]], [m[wp + 1]]);
    ValSingle(m[wp]); ValSingle(m[wp + 1]);
    assert [m[wp]] + [m[wp + 1]] == [m[wp], m[wp + 1]];
  }

  lemma OneWordDigit(q: int, w: int, d: int, n2: int, n3: int)
    requires n3 == w * BASE + n2 && 0 <= n2 < BASE && q * (d * BASE) <= n3 && (q + 1) * (d * BASE) > n3 && d >= 0
    ensures (q - 1) * d <= w < (q + 1) * d
  {
    assert q * (d * BASE) == (q * d) * BASE;
    assert (q + 1) * (d * BASE) == ((q + 1) * d) * BASE;
    assert (q - 1) * d == q * d - d;
  }

  /** The refined digit is the true digit or one more. */
  lemma RefinedDigit(m: array<Word>, wp: nat, dp: nat, n: nat, w: int, d: int, q: Word, d1: Word, n2: Word)
    requires 1 <= n && 1 <= wp && wp + n + 1 <= m.Length && dp + n <= m.Length
    requires d1 == (if n == 1 then 0 else m[dp + n - 2]) && n2 == m[wp + n - 2] && m[dp + n - 1] >= BASE / 2
    requires At(m, wp, n + 1) == w && At(m, dp, n) == d
    requires q as int * (m[dp + n - 1] * BASE + d1) <= m[wp + n] * BASE * BASE + m[wp + n - 1] * BASE + n2
    requires (q as int + 1) * (m[dp + n - 1] * BASE + d1) > m[wp + n] * BASE * BASE + m[wp + n - 1] * BASE + n2
    ensures (q as int - 1) * d <= w < (q as int + 1) * d
  {
    hide At, Radix, Leading;
    var v2: int := m[dp + n - 1] * BASE + d1;
    var n3: int := m[wp + n] * BASE * BASE + m[wp + n - 1] * BASE + n2;
    if n == 1 {
      OneWordDivisor(m, wp, dp);
      OneWordDigit(q, w, d, n2, n3);
    } else {
      LeadingWords(m, wp, dp, n);
      FailedTestTooLarge(w, n3, d, v2, Radix(n - 2), q as int + 1);
      PassedTestNearlyExact(w, n3, d, v2, Radix(n - 2), q);
    }
  }

  /** The estimated digit is the true digit or one more. w is the window's value, d the divisor's;
      the word below the window is read too, as wnump[-2], when the divisor has one word. */
  method EstimateDigit(m: array<Word>, wp: nat, dp: nat, n: nat, ghost w: int, ghost d: int) returns (q: Word)
    requires 1 <= n && 1 <= wp && wp + n + 1 <= m.Length && dp + n <= m.Length
    requires m[dp + n - 1] >= BASE / 2
    requires At(m, wp, n + 1) == w < BASE * d && At(m, dp, n) == d
    ensures (q as int - 1) * d <= w < (q as int + 1) * d
  {
    hide At, Radix;
    var d0 := m[dp + n - 1];
    var d1: Word := if n == 1 then 0 else m[dp + n - 2];
    var n0, n1 := m[wp + n], m[wp + n - 1];
    RadixUp(n - 1);
    TopWord(m, wp, n, w, n0);
    TopWord(m, dp, n - 1, d, d0);
    if n0 == d0 {
      q := BASE - 1;
      EqualLeadingWords(w, n0, d, d0, Radix(n - 1));
    } else {
      LeadingNotAbove(w, d, n0, d0, Radix(n - 1));
      var n2 := m[wp + n - 2];
      q := RefineDigit(n0, n1, n2, d0, d1);
      RefinedDigit(m, wp, dp, n, w, d, q, d1, n2);
    }
  }

  /** A number against its top word. */
  lemma TopWord(m: array<Word>, p: nat, n: nat, v: int, x: Word)
    requires p + n + 1 <= m.Length && At(m, p, n + 1) == v && m[p + n] == x
    ensures x * Radix(n) <= v < (x + 1) * Radix(n)
  {
    SliceSnoc(m, p, n);
    MiddleBound(m, p, n);
    assert (x + 1) * Radix(n) == x * Radix(n) + Radix(n);
  }

  lemma LeadingNotAbove(w: int, d: int, n0: int, d0: int, s: int)
    requires s > 0 && w < BASE * d && n0 != d0 && n0 * (BASE * s) <= w && d < (d0 + 1) * s
    ensures n0 < d0
  {
    if n0 >= d0 + 1 {
      MulMono(d0 + 1, n0, BASE * s);
    }
    assert (d0 + 1) * (BASE * s) == BASE * ((d0 + 1) * s);
  }

  lemma HighWordZero(m: array<Word>, p: nat, n: nat)
    requires p + n + 1 <= m.Length && At(m, p, n + 1) < Radix(n)
    ensures m[p + n] == 0 && At(m, p, n) == At(m, p, n + 1)
  {
    SliceSnoc(m, p, n);
    if m[p + n] >= 1 { MulMono(1, m[p + n], Radix(n)); }
  }

  lemma BackToWide(m: array<Word>, p: nat, n: nat)
    requires p + n + 1 <= m.Length && m[p + n] == 0
    ensures At(m, p, n + 1) == At(m, p, n)
  {
    SliceSnoc(m, p, n);
  }

  /** BN_add(&wnum, &wnum, sdiv) after a negative difference -e: the window becomes d - e. */
  method AddBack(m: array<Word>, wp: nat, n: nat, dp: nat, ghost e: int, ghost d: int)
    requires wp + n + 1 <= m.Length && dp + n <= m.Length && Apart(wp, n + 1, dp, n)
    requires At(m, wp, n + 1) == e <= d == At(m, dp, n) < Radix(n)
    modifies m
    ensures At(m, wp, n + 1) == d - e
    ensures OnlyChanges(m, wp, n + 1)
  {
    hide At, Radix;
    HighWordZero(m, wp, n);
    Difference(m, wp, dp, wp, n);
    BackToWide(m, wp, n);
  }

  /** Multiply, subtract, and add back once if the digit was one too large. */
  method SubtractMultiple(m: array<Word>, wp: nat, n: nat, dp: nat, tp: nat, q0: Word, ghost w: int, ghost d: int)
    returns (q: Word)
    requires wp + n + 1 <= m.Length && dp + n <= m.Length && tp + n + 1 <= m.Length
    requires Apart(wp, n + 1, dp, n) && Apart(tp, n + 1, dp, n) && Apart(wp, n + 1, tp, n + 1)
    requires At(m, wp, n + 1) == w && At(m, dp, n) == d && d < Radix(n)
    requires (q0 as int - 1) * d <= w < (q0 as int + 1) * d
    modifies m
    ensures w == q as int * d + At(m, wp, n + 1) && At(m, wp, n + 1) < d
    ensures OnlyChanges2(m, wp, n + 1, tp, n + 1)
  {
    hide At, Radix, In;
    ghost var s0 := m[..];
    AtIn(m, wp, n + 1); AtIn(m, dp, n);
    FirstRow(m, tp, dp, n, q0);
    Framed(s0, m, tp, n + 1, wp, n + 1); Framed(s0, m, tp, n + 1, dp, n);
    ghost var t := At(m, tp, n + 1);
    DigitCases(q0, w, d, t);
    var c := CmpWords(m, wp, tp, n + 1);
    q := q0;
    if c >= 0 {
      Difference(m, wp, wp, tp, n + 1);
    } else {
      ghost var s1 := m[..];
      AtIn(m, dp, n);
      Difference(m, wp, tp, wp, n + 1);
      Framed(s1, m, wp, n + 1, dp, n);
      q := q - 1;
      AddBack(m, wp, n, dp, t - w, d);
    }
  }

  lemma DigitCases(q: Word, w: int, d: int, t: int)
    requires (q as int - 1) * d <= w < (q as int + 1) * d && t == d * q && 0 <= w && 0 <= d
    ensures t > w ==> q >= 1 && w == (q as int - 1) * d + (d - (t - w)) && 0 < t - w <= d
    ensures t <= w ==> w == q as int * d + (w - t) && w - t < d
  {
    MulComm(d, q);
    assert (q as int - 1) * d == t - d && (q as int + 1) * d == t + d;
    if q == 0 { assert t == 0; }
  }

  /** One step of the main loop: the quotient digit of the window, and the window's remainder. */
  method DivStep(m: array<Word>, wp: nat, n: nat, dp: nat, tp: nat, ghost d: int, ghost r: int) returns (q: Word)
    requires 1 <= n && 1 <= wp && wp + n + 1 <= m.Length && dp + n <= m.Length && tp + n + 1 <= m.Length
    requires Apart(wp, n + 1, dp, n) && Apart(tp, n + 1, dp, n) && Apart(wp, n + 1, tp, n + 1)
    requires m[dp + n - 1] >= BASE / 2 && At(m, dp, n) == d
    requires At(m, wp + 1, n) == r < d
    modifies m
    ensures old(m[wp]) + BASE * r == q as int * d + At(m, wp, n) && At(m, wp, n) < d
    ensures m[wp + n] == 0
    ensures OnlyChanges2(m, wp, n + 1, tp, n + 1)
  {
    hide At, Radix;
    MiddleBound(m, dp, n);
    LowWord(m, wp, n);
    ghost var w: int := m[wp] + BASE * r;
    var q0 := EstimateDigit(m, wp, dp, n, w, d);
    q := SubtractMultiple(m, wp, n, dp, tp, q0, w, d);
    HighWordZero(m, wp, n);
  }

  lemma LowWord(m: array<Word>, p: nat, n: nat)
    requires p + n + 1 <= m.Length
    ensures At(m, p, n + 1) == m[p] + BASE * At(m, p + 1, n)
  {
    assert m[p..p + n + 1][1..] == m[p + 1..p + 1 + n];
  }

  /** What holds before the window moves below word w: digits so far, and the rest of the dividend. */
  ghost predicate DividedTo(total: int, q: int, d: int, rest: int, rw: int)
  {
    total == q * (d * rw) + rest
  }

  lemma NextDigit(total: int, q: int, d: int, rw: int, low: int, x: int, r: int, digit: int, r': int)
    requires DividedTo(total, q, d, low + rw * (x + BASE * r), BASE * rw)
    requires x + BASE * r == digit * d + r'
    ensures DividedTo(total, digit + BASE * q, d, low + rw * r', rw)
  {
    assert rw * (digit * d + r') == digit * (d * rw) + rw * r';
    assert q * (d * (BASE * rw)) == (BASE * q) * (d * rw);
    assert (digit + BASE * q) * (d * rw) == digit * (d * rw) + (BASE * q) * (d * rw);
  }

  lemma WindowValue(m: array<Word>, sp: nat, w: nat, n: nat)
    requires 1 <= w && sp + w + n <= m.Length
    ensures At(m, sp, w + n) == At(m, sp, w - 1) + Radix(w - 1) * (m[sp + w - 1] + BASE * At(m, sp + w, n))
  {
    hide At, Radix;
    AtSplit(m, sp, w - 1, n + 1);
    LowWord(m, sp + w - 1, n);
  }

  /** Store a digit below the ones already there. */
  lemma DigitsStored(s: seq<Word>, m: array<Word>, p: nat, k: nat)
    requires |s| == m.Length && p + 1 + k <= |s|
    requires forall i :: p + 1 <= i < p + 1 + k ==> m[i] == s[i]
    ensures At(m, p, k + 1) == m[p] + BASE * In(s, p + 1, k)
  {
    assert m[p + 1..p + 1 + k] == s[p + 1..p + 1 + k];
    LowWord(m, p, k);
  }

  twostate predicate OnlyChanges3(m: array<Word>, p: nat, n: nat, p': nat, n': nat, q: nat, k: nat)
    reads m
  {
    forall i | 0 <= i < m.Length && !(p <= i < p + n) && !(p' <= i < p' + n') && !(q <= i < q + k) ::
      m[i] == old(m[i])
  }

  /** One pass of the main loop: window at word w - 1, digit stored at word w - 1 of the quotient. */
  method DivPass(m: array<Word>, sp: nat, w: nat, n: nat, dp: nat, tp: nat, qp: nat, k: nat,
                 ghost d: int, ghost total: int, ghost q: int)
    requires 1 <= n && 2 <= w && sp + w + n <= m.Length && dp + n <= m.Length && tp + n + 1 <= m.Length
    requires qp + w - 1 + k <= m.Length
    requires Apart(sp, w + n, dp, n) && Apart(tp, n + 1, dp, n) && Apart(sp, w + n, tp, n + 1)
    requires Apart(qp, w - 1 + k, sp, w + n) && Apart(qp, w - 1 + k, dp, n) && Apart(qp, w - 1 + k, tp, n + 1)
    requires m[dp + n - 1] >= BASE / 2 && At(m, dp, n) == d && At(m, sp + w, n) < d
    requires At(m, qp + w - 1, k) == q && DividedTo(total, q, d, At(m, sp, w + n), Radix(w))
    modifies m
    ensures At(m, sp + w - 1, n) < d && m[sp + w - 1 + n] == 0
    ensures DividedTo(total, At(m, qp + w - 2, k + 1), d, At(m, sp, w - 1 + n), Radix(w - 1))
    ensures OnlyChanges3(m, sp + w - 1, n + 1, tp, n + 1, qp + w - 2, 1)
  {
    hide At, In, Radix, DividedTo;
    WindowValue(m, sp, w, n);
    RadixUp(w - 1);
    ghost var x: int, r: int, low: int := m[sp + w - 1], At(m, sp + w, n), At(m, sp, w - 1);
    ghost var s0 := m[..];
    AtIn(m, sp, w - 1); AtIn(m, qp + w - 1, k);
    var digit := DivStep(m, sp + w - 1, n, dp, tp, d, r);
    Framed2(s0, m, sp + w - 1, n + 1, tp, n + 1, sp, w - 1);
    ghost var r' := At(m, sp + w - 1, n);
    ghost var s1 := m[..];
    AtIn(m, sp, w - 1); AtIn(m, sp + w - 1, n);
    m[qp + w - 2] := digit;
    Framed(s1, m, qp + w - 2, 1, sp, w - 1);
    Framed(s1, m, qp + w - 2, 1, sp + w - 1, n);
    DigitsStored(s0, m, qp + w - 2, k);
    AtSplit(m, sp, w - 1, n);
    NextDigit(total, q, d, Radix(w - 1), low, x, r, digit, r');
  }

  /** Before the loop: the window is reduced below the divisor by at most one subtraction. */
  method DivStart(m: array<Word>, sp: nat, loop: nat, n: nat, dp: nat, qp: nat, ghost d: int) returns (top: nat, ghost q: int)
    requires 1 <= n && 1 <= loop && sp + loop + n <= m.Length && dp + n <= m.Length && qp + loop <= m.Length
    requires Apart(sp, loop + n, dp, n) && Apart(qp, loop, sp, loop + n) && Apart(qp, loop, dp, n)
    requires m[dp + n - 1] >= BASE / 2 && At(m, dp, n) == d
    modifies m
    ensures top == loop || top == loop - 1
    ensures top == loop ==> m[qp + loop - 1] == 1
    ensures At(m, sp + loop, n) < d && At(m, qp + loop - 1, top - (loop - 1)) == q
    ensures DividedTo(old(At(m, sp, loop + n)), q, d, At(m, sp, loop + n), Radix(loop))
    ensures OnlyChanges2(m, sp + loop, n, qp + loop - 1, 1)
  {
    hide At, In, Radix;
    AtSplit(m, sp, loop, n);
    ghost var low, w := At(m, sp, loop), At(m, sp + loop, n);
    AtLeastHalf(m, dp, n, d);
    MiddleBound(m, sp + loop, n);
    var c := CmpWords(m, sp + loop, dp, n);
    if c >= 0 {
      ghost var s0 := m[..];
      AtIn(m, sp, loop);
      Difference(m, sp + loop, sp + loop, dp, n);
      Framed(s0, m, sp + loop, n, sp, loop);
      ghost var s1 := m[..];
      AtIn(m, sp, loop); AtIn(m, sp + loop, n);
      m[qp + loop - 1] := 1;
      Framed(s1, m, qp + loop - 1, 1, sp, loop);
      Framed(s1, m, qp + loop - 1, 1, sp + loop, n);
      AtSplit(m, sp, loop, n);
      top, q := loop, 1;
      OneWord(m, qp + loop - 1);
      Subtracted(low, w, d, Radix(loop));
    } else {
      top, q := loop - 1, 0;
      NoWords(m, qp + loop - 1);
    }
  }

  lemma AtLeastHalf(m: array<Word>, p: nat, n: nat, d: int)
    requires 1 <= n && p + n <= m.Length && m[p + n - 1] >= BASE / 2 && At(m, p, n) == d
    ensures 2 * d >= Radix(n)
  {
    hide At, Radix;
    SliceSnoc(m, p, n - 1);
    RadixUp(n - 1);
    var x: int := m[p + n - 1];
    MulMono(0x8000_0000, x, Radix(n - 1));
  }

  lemma OneWord(m: array<Word>, p: nat)
    requires p + 1 <= m.Length
    ensures At(m, p, 1) == m[p]
  {
    assert m[p..p + 1] == [m[p]];
    ValSingle(m[p]);
  }

  lemma NoWords(m: array<Word>, p: nat)
    requires p <= m.Length
    ensures At(m, p, 0) == 0
  {
    assert m[p..p + 0] == [];
  }

  lemma Subtracted(low: int, w: int, d: int, rw: int)
    ensures low + rw * w == 1 * (d * rw) + (low + rw * (w - d))
  {
    assert rw * (w - d) == rw * w - rw * d;
    MulComm(d, rw);
  }

  /** The division proper. sp holds the shifted dividend (loop + n words), dp the shifted divisor,
      tp scratch, qp the quotient. On return the quotient has top words and the remainder, still
      shifted, is in the low n + 1 words at sp. */
  method DivLoop(m: array<Word>, sp: nat, loop: nat, n: nat, dp: nat, tp: nat, qp: nat, ghost d: int)
    returns (top: nat)
    requires 1 <= n && 1 <= loop && sp + loop + n <= m.Length && dp + n <= m.Length
    requires tp + n + 1 <= m.Length && qp + loop <= m.Length
    requires Apart(sp, loop + n, dp, n) && Apart(tp, n + 1, dp, n) && Apart(sp, loop + n, tp, n + 1)
    requires Apart(qp, loop, sp, loop + n) && Apart(qp, loop, dp, n) && Apart(qp, loop, tp, n + 1)
    requires m[dp + n - 1] >= BASE / 2 && At(m, dp, n) == d
    modifies m
    ensures top == loop || top == loop - 1
    ensures top == loop ==> m[qp + loop - 1] == 1
    ensures old(At(m, sp, loop + n)) == At(m, qp, top) * (d * BASE) + At(m, sp, n + 1)
    ensures At(m, sp + 1, n) < d
  {
    hide At, In, Radix, DividedTo;
    ghost var total := At(m, sp, loop + n);
    ghost var s0 := m[..];
    AtIn(m, dp, n);
    ghost var q;
    top, q := DivStart(m, sp, loop, n, dp, qp, d);
    var w := loop;
    Framed2(s0, m, sp, loop + n, qp, loop, dp, n);
    while w > 1
      invariant 1 <= w <= loop && m[dp + n - 1] >= BASE / 2 && At(m, dp, n) == d
      invariant top == loop ==> m[qp + loop - 1] == 1
      invariant At(m, sp + w, n) < d && At(m, qp + w - 1, top - (w - 1)) == q
      invariant DividedTo(total, q, d, At(m, sp, w + n), Radix(w))
    {
      ghost var s1 := m[..];
      AtIn(m, dp, n);
      DivPass(m, sp, w, n, dp, tp, qp, top - (w - 1), d, total, q);
      w := w - 1;
      q := At(m, qp + w - 1, top - (w - 1));
      Framed3(s1, m, sp + w, n + 1, tp, n + 1, qp + w - 1, 1, dp, n);
    }
    Finished(total, q, d, At(m, sp, 1 + n));
  }

  lemma Finished(total: int, q: int, d: int, rest: int)
    requires DividedTo(total, q, d, rest, Radix(1))
    ensures total == q * (d * BASE) + rest
  {
    assert Radix(1) == BASE * Radix(0);
  }

  lemma Framed3(s: seq<Word>, m: array<Word>, p: nat, n: nat, p': nat, n': nat, p'': nat, n'': nat, q: nat, k: nat)
    requires |s| == m.Length && q + k <= |s| && Apart(p, n, q, k) && Apart(p', n', q, k) && Apart(p'', n'', q, k)
    requires forall i | 0 <= i < m.Length && !(p <= i < p + n) && !(p' <= i < p' + n') && !(p'' <= i < p'' + n'') ::
               m[i] == s[i]
    ensures At(m, q, k) == In(s, q, k)
  {
    assert m[q..q + k] == s[q..q + k];
  }
}
