/** bn_div_words: a two-word number divided by one word of any size. */
module WordDivision {
  import opened Words
  import opened WordQuotient
  import opened Bits
  import opened Shifts

  /** The shift that sets the top bit of the divisor. */
  lemma TopBitSet(d: Word, i: nat)
    requires d > 0 && i == BitLen(d)
    ensures 1 <= i <= 32 && Two(i) * Two(32 - i) == BASE
    ensures BASE / 2 <= d * Two(32 - i) < BASE
  {
    hide Two, BitLen;
    BitLenBounds(d);
    TwoWord();
    if i > 32 { TwoMonotone(32, i - 1); }
    TwoAdd(i, 32 - i);
    TwoAdd(i - 1, 32 - i);
    HalfWordPower();
    MulMono(Two(i - 1), d, Two(32 - i));
    MulMono(d + 1, Two(i), Two(32 - i));
    assert (d + 1) * Two(32 - i) == d * Two(32 - i) + Two(32 - i);
  }

  /** Shifting both words of the dividend with the divisor: the high word stays below the divisor. */
  lemma ShiftedDividend(h: Word, l: Word, d: Word, f: nat, c: nat)
    requires h < d && f > 0 && c > 0 && f * c == BASE && d * f < BASE
    ensures h * f + l / c < d * f
    ensures (h * f + l / c) * BASE + (l * f) % BASE == (h * BASE + l) * f
  {
    SplitShift(l, f, c);
    MulMono(h + 1, d, f);
    assert (h + 1) * f == h * f + f;
    assert (h * f + l / c) * BASE == (h * BASE) * f + (l / c) * BASE;
  }

  lemma ScaledBounds(n: int, d: int, f: int, q: int)
    requires f > 0 && q * d <= n < (q + 1) * d
    ensures q * (d * f) <= n * f < (q + 1) * (d * f)
  {
    MulMono(q * d, n, f);
    MulMono(n + 1, (q + 1) * d, f);
    assert (n + 1) * f == n * f + f;
    Assoc(q, d, f); Assoc(q + 1, d, f);
  }

  /** The quotient is that of the numbers before the shift. */
  lemma SameQuotient(n: nat, d: nat, f: nat, n': int, d': int)
    requires d > 0 && f > 0 && n' == n * f && d' == d * f
    ensures d' > 0 && n' / d' == n / d
  {
    DivBounds(n, d);
    ScaledBounds(n, d, f, n / d);
    MulMono(1, d, f);
    QuotientUnique(n', d', n / d);
  }

  lemma ReduceOnce(h: Word, d: Word)
    requires d > 0 && h < 2 * d
    ensures h % d == if h >= d then h - d else h
  {
    QuotientUnique(h, d, if h >= d then 1 else 0);
  }

  /** d <<= i; h = (h << i) | (l >> (32 - i)); l <<= i, where f is 2^i and c is 2^(32 - i). */
  method ShiftedUp(h: Word, l: Word, d: Word, f: nat, c: nat) returns (d': Word, h': Word, l': Word)
    requires h < d && f > 0 && c > 0 && f * c == BASE && BASE / 2 <= d * f < BASE
    ensures BASE / 2 <= d' && h' < d' && (h' * BASE + l') / d' == (h * BASE + l) / d
  {
    ShiftedDividend(h, l, d, f, c);
    ShiftNonNegative(h, l, f, c);
    d' := d * f;
    h' := h * f + l / c;
    l' := (l * f) % BASE;
    SameQuotient(h * BASE + l, d, f, h' * BASE + l', d');
  }

  lemma ShiftNonNegative(h: Word, l: Word, f: nat, c: nat)
    requires c > 0
    ensures h * f + l / c >= 0
  {
    MulMono(0, h, f);
    DivBounds(l, c);
  }

  /** bn_div_words. The high word is reduced by the divisor once, so the quotient of what remains is
      exact for every high word below twice the divisor; a normalised divisor, such as BN_div passes,
      leaves no other. */
  method DivWords(h0: Word, l0: Word, d0: Word) returns (ret: Word)
    requires d0 == 0 || h0 < 2 * d0
    ensures d0 == 0 ==> ret == BASE - 1
    ensures d0 != 0 ==> ret == ((h0 % d0) * BASE + l0) / d0
  {
    hide Two, BitLen;
    if d0 == 0 { return BASE - 1; }
    var i := NumBitsWord(d0);
    TopBitSet(d0, i);
    i := 32 - i;
    var h, l, d := h0, l0, d0;
    if h >= d { h := h - d; }
    ReduceOnce(h0, d0);
    NoShift();
    if i != 0 {
      d, h, l := ShiftedUp(h, l, d, Two(i), Two(32 - i));
    }
    ret := DivNormalised(h, l, d);
  }

  lemma NoShift()
    ensures Two(0) == 1
  {
  }
}
