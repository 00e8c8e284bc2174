/** The two rounds of bn_div_words: a two-word number divided by a normalised word, using only half-word
    divisions. */
module WordQuotient {
  import opened Words
  import opened HalfWords

  /** One quotient digit in base HALF is an over-estimate: the trial digit formed from the top half of
      the divisor never falls below the true digit. */
  lemma TrialDigitHigh(h: int, l: int, dh: int, dl: int, d: int, q: int)
    requires 0 <= h < d && 0 <= l < BASE && d == dh * HALF + dl && 0 <= dl < HALF && HALF / 2 <= dh < HALF
    requires q == (if h / HALF == dh then HALF - 1 else h / dh)
    ensures 0 <= q < HALF && q * dh <= h && (q + 1) * d > h * HALF + l / HALF
  {
    if h / HALF == dh {
      assert (HALF - 1) * dh <= h;
    } else {
      assert h / HALF < dh;
      DivBounds(h, dh);
      if q >= HALF {
        MulMono(HALF, q, dh);
        assert false;
      }
      assert (q + 1) * dh >= h + 1;
      MulMono(dh * HALF, d, q + 1);
      assert (q + 1) * (dh * HALF) == ((q + 1) * dh) * HALF;
    }
  }

  lemma DivBounds(h: int, dh: int)
    requires dh > 0 && h >= 0
    ensures 0 <= h / dh && (h / dh) * dh <= h < (h / dh + 1) * dh
  {
    assert h == (h / dh) * dh + h % dh;
  }

  /** The floor quotient from its two bounds. */
  lemma QuotientUnique(n: int, d: int, q: int)
    requires d > 0 && q * d <= n < (q + 1) * d
    ensures q == n / d
  {
    var r := n - q * d;
    assert (n / d) * d + n % d == q * d + r;
    assert (n / d - q) * d == r - n % d;
    if n / d - q >= 1 { MulMono(1, n / d - q, d); }
    if n / d - q <= -1 { MulMono(n / d - q, -1, d); }
  }

  /** q * d in half-word pieces. */
  lemma DigitTimesDivisor(q: int, dh: int, dl: int)
    ensures q * (dh * HALF + dl) == (q * dh) * HALF + dl * q
  {
  }

  /** One correction: the trial digit was too large, so it is positive and the next one still
      over-estimates. */
  lemma Correction(q: int, dh: int, dl: int, d: int, n: int, th: int, tl: int)
    requires d == dh * HALF + dl && 0 <= dh && 0 <= q && th == q * dh && tl == dl * q
    requires q * d == th * HALF + tl && q * d > n >= 0
    ensures q >= 1 && th - dh == (q - 1) * dh && tl - dl == dl * (q - 1)
    ensures (q - 1) * d == (th - dh) * HALF + (tl - dl)
    ensures dh <= th
  {
    if q == 0 {
      assert false;
    }
    assert (q - 1) * dh == q * dh - dh;
    assert dl * (q - 1) == dl * q - dl;
    DigitTimesDivisor(q - 1, dh, dl);
    MulMono(1, q, dh);
  }

  /** The trial digit and its corrections: the loop ends with the exact digit. */
  method TrialDigit(h: Word, l: Word, d: Word) returns (q: int, th: int, tl: int)
    requires BASE / 2 <= d && h < d
    ensures 0 <= q < HALF && q == (h * HALF + l / HALF) / d
    ensures 0 <= tl < HALF * HALF && q * d == th * HALF + tl <= h * HALF + l / HALF
  {
    var dh: int := d / HALF;
    var dl: int := d % HALF;
    if h / HALF == dh { q := HALF - 1; } else { q := h / dh; }
    TrialDigitHigh(h, l, dh, dl, d, q);
    ghost var n := h * HALF + l / HALF;
    th := q * dh;
    tl := dl * q;
    var t: int := h - th;
    DigitTimesDivisor(q, dh, dl);
    while !(t >= HALF || tl <= t * HALF + l / HALF)
      invariant 0 <= q < HALF && th == q * dh && tl == dl * q && t == h - th && 0 <= t
      invariant q * d == th * HALF + tl
      invariant (q + 1) * d > n
      decreases q
    {
      Correction(q, dh, dl, d, n, th, tl);
      q := q - 1;
      th := th - dh;
      tl := tl - dl;
      t := h - th;
    }
    TailBound(dl, q, tl);
    QuotientUnique(n, d, q);
  }

  /** Subtracting q * d, aligned to the current half-word, from the running remainder. */
  lemma PartialRemainder(h: Word, l: Word, th: int, tl: int, low: int, th': int)
    requires 0 <= tl < HALF * HALF && th * HALF + tl <= h * HALF + l / HALF
    requires low == (tl % HALF) * HALF
    requires th' == th + tl / HALF + (if l < low then 1 else 0)
    ensures (h - th') * BASE + (l - low) % BASE == h * BASE + l - (th * HALF + tl) * HALF
    ensures th' <= h
  {
    var k := tl / HALF;
    var j := tl % HALF;
    assert tl == k * HALF + j;
    assert (l - low) % BASE == l - low + (if l < low then BASE else 0);
  }

  /** One pass of the loop: the digit and the partial remainder. h0 and l0 are the running two-word
      remainder; h0 < d on entry. */
  method DivRound(h0: Word, l0: Word, d: Word) returns (q: int, h: Word, l: Word)
    requires BASE / 2 <= d && h0 < d
    ensures 0 <= q < HALF
    ensures q == (h0 * HALF + l0 / HALF) / d
    ensures h * BASE + l == h0 * BASE + l0 - q * d * HALF
  {
    var th, tl;
    q, th, tl := TrialDigit(h0, l0, d);
    var low: int := (tl % HALF) * HALF;
    ghost var th0 := th;
    th := th + tl / HALF;
    if l0 < low { th := th + 1; }
    PartialRemainder(h0, l0, th0, tl, low, th);
    assert q * d * HALF == (th0 * HALF + tl) * HALF;
    l := (l0 - low) % BASE;
    var hh: int := h0;
    if hh < th { hh := hh + d; q := q - 1; }     // never taken: q is already the exact digit
    h := hh - th;
  }

  lemma TailBound(dl: int, q: int, tl: int)
    requires 0 <= dl < HALF && 0 <= q < HALF && tl == dl * q
    ensures 0 <= tl < HALF * HALF
  {
    HalfProduct(dl, q);
  }

  /** The loop of bn_div_words: both half-word digits, for a normalised divisor above the high word. */
  method DivNormalised(h: Word, l0: Word, d: Word) returns (ret: Word)
    requires BASE / 2 <= d && h < d
    ensures ret == (h * BASE + l0) / d
  {
    var q1, h1, l1 := DivRound(h, l0, d);
    FirstRemainder(h, l0, d, q1, h1, l1);
    var h2: Word := (h1 * HALF) % BASE + l1 / HALF;
    var l2: Word := (l1 % HALF) * HALF;
    var q2, _, _ := DivRound(h2, l2, d);
    TwoDigits(h, l0, d, q1, h1, l1, h2, l2, q2);
    ret := q1 * HALF + q2;
  }

  /** After the first digit the remainder, shifted left by a half-word, is again below the divisor. */
  lemma FirstRemainder(h: Word, l: Word, d: Word, q1: int, h1: Word, l1: Word)
    requires BASE / 2 <= d && h < d && q1 == (h * HALF + l / HALF) / d
    requires h1 * BASE + l1 == h * BASE + l - q1 * d * HALF
    ensures h1 < HALF && h1 * HALF + l1 / HALF < d
  {
    var m := h * HALF + l / HALF;
    DivBounds(m, d);
    var r := m - q1 * d;
    assert 0 <= r < d;
    assert h1 * BASE + l1 == r * HALF + l % HALF;
  }

  lemma TwoDigits(h: Word, l: Word, d: Word, q1: int, h1: Word, l1: Word, h2: Word, l2: Word, q2: int)
    requires BASE / 2 <= d && h < d && 0 <= q1 < HALF
    requires h1 * BASE + l1 == h * BASE + l - q1 * d * HALF
    requires h1 < HALF && h2 == h1 * HALF + l1 / HALF && l2 == (l1 % HALF) * HALF
    requires h2 < d && q2 == (h2 * HALF + l2 / HALF) / d && 0 <= q2 < HALF
    ensures q1 * HALF + q2 == (h * BASE + l) / d
  {
    var r := h1 * BASE + l1;
    assert h2 * HALF + l2 / HALF == r;
    DivBounds(r, d);
    var q := q1 * HALF + q2;
    assert q * d == q1 * d * HALF + q2 * d;
    assert (q + 1) * d == q * d + d;
    assert (q2 + 1) * d == q2 * d + d;
    QuotientUnique(h * BASE + l, d, q);
  }
}
