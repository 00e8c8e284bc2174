/** BN_div on BIGNUM objects, and the non-negative remainder BN_nnmod. */
module BigDivision {
  import opened Words
  import opened WordQuotient
  import opened Division
  import opened Bits
  import opened Magnitudes
  import opened Shifts
  import opened BigNums
  import opened BigProducts

  /** After normalisation the top bit of the divisor is set. */
  lemma NormalisedTop(s: seq<Word>, bits: nat)
    requires Normal(s) && s != [] && BitLen(Val(s)) == bits && bits % 32 == 0
    ensures s[|s| - 1] >= BASE / 2
  {
    hide Val, Two, BitLen;
    NumBitsOf(s);
    var x: nat := s[|s| - 1];
    BitLenBounds(x);
    TwoWord();
    BitLenAtMost(x, 32);
    BitLenNonzero(x);
    HalfWordPower();
  }

  lemma BitLenNonzero(x: nat)
    requires x > 0
    ensures BitLen(x) >= 1
  {
  }

  lemma BitLenAtMost(x: nat, n: nat)
    requires x < Two(n)
    ensures BitLen(x) <= n
  {
    if BitLen(x) > n { BitLenAtLeast(x, n); }
  }

  lemma BitLenAtLeast(x: nat, n: nat)
    requires BitLen(x) > n
    ensures x >= Two(n)
  {
    BitLenBounds(x);
    TwoMonotone(n, BitLen(x) - 1);
  }

  /** The shift that normalises the divisor moves its length to a multiple of the word size. */
  lemma ShiftedLength(x: nat, n: nat)
    requires x > 0
    ensures BitLen(x * Two(n)) == BitLen(x) + n
  {
    BitLenBounds(x);
    var k := BitLen(x);
    TwoAdd(k, n); TwoAdd(k - 1, n);
    MulMono(x + 1, Two(k), Two(n));
    MulMono(Two(k - 1), x, Two(n));
    assert (x + 1) * Two(n) == x * Two(n) + Two(n);
    BitLenUnique(x * Two(n), k + n);
  }

  /** The dividend, shifted one word further than the divisor, is at least a word longer. */
  lemma OneWordLonger(s: seq<Word>, t: seq<Word>)
    requires Normal(s) && Normal(t) && t != [] && Val(s) >= Val(t) * BASE
    ensures |s| >= |t| + 1
  {
    NormalBound(t);
    ValBound(s);
    if |s| <= |t| { RadixMonotone(|s|, |t|); }
    assert Radix(|t|) == BASE * Radix(|t| - 1);
  }

  /** Undoing the normalisation: quotient and remainder of the original numbers. */
  lemma Denormalise(num: nat, div: nat, f: nat, q: nat, rest: nat)
    requires div > 0 && f > 0
    requires num * (f * BASE) == q * ((div * f) * BASE) + rest && rest < (div * f) * BASE
    ensures q == num / div && rest / (f * BASE) == num % div
  {
    var g := f * BASE;
    assert q * ((div * f) * BASE) == (q * div) * g;
    assert (div * f) * BASE == div * g;
    var r := num - q * div;
    assert rest == r * g by { assert num * g - (q * div) * g == (num - q * div) * g; }
    if r >= div { MulMono(div, r, g); }
    if r < 0 { MulMono(r, -1, g); }
    assert (q + 1) * div == q * div + div;
    QuotientUnique(num, div, q);
    assert num == (num / div) * div + num % div;
    assert (r + 1) * g == r * g + g;
    QuotientUnique(rest, g, r);
  }

  /** The quotient digits have no leading zero. */
  lemma QuotientNormal(q: seq<Word>, loop: nat, n: nat, snum: seq<Word>, d: nat, rest: nat)
    requires 1 <= loop && 1 <= n && |snum| == loop + n && Normal(snum)
    requires |q| == loop || |q| == loop - 1
    requires |q| == loop ==> q[loop - 1] == 1
    requires d < Radix(n) && rest < d * BASE && Val(snum) == Val(q) * (d * BASE) + rest
    ensures Normal(q)
  {
    if |q| == loop - 1 && loop >= 2 {
      NormalBound(snum);
      hide Val;
      LongQuotient(Val(q), d, rest, loop, n);
      TopNonzero(q);
    }
  }

  lemma LongQuotient(q: nat, d: nat, rest: nat, loop: nat, n: nat)
    requires loop >= 2 && d < Radix(n) && rest < d * BASE
    requires q * (d * BASE) + rest >= Radix(loop + n - 1)
    ensures q >= Radix(loop - 2)
  {
    RadixAdd(loop - 2, n + 1);
    assert loop - 2 + (n + 1) == loop + n - 1;
    var p, r := Radix(loop - 2), Radix(n + 1);
    assert r == BASE * Radix(n);
    hide Radix;
    if q + 1 <= p {
      assert (q + 1) * (d * BASE) == q * (d * BASE) + d * BASE;
      MulMono(q + 1, p, d * BASE);
      MulMono(d * BASE, r, p);
    }
  }

  /** Unsigned long division of word lists, num not below div. */
  method DivideMagnitudes(num: seq<Word>, div: seq<Word>) returns (q: seq<Word>, r: seq<Word>)
    requires Normal(num) && Normal(div) && div != [] && Val(div) <= Val(num)
    ensures Normal(q) && Normal(r) && Val(div) > 0
    ensures Val(q) == Val(num) / Val(div) && Val(r) == Val(num) % Val(div)
  {
    hide Val, Radix, Two, BitLen;
    NormalBound(div);
    var bits := NumBits(div);
    var normShift := 32 - bits % 32;
    var sdiv := LShift(div, normShift);
    ShiftedLength(Val(div), normShift);
    normShift := normShift + 32;
    var snum := LShift(num, normShift);
    ghost var f := Two(normShift - 32);
    TwoAdd(normShift - 32, 32); TwoWord();
    MulMono(0, Val(div), f);
    NonZero(sdiv, Val(div), f);
    NormalisedTop(sdiv, bits + (normShift - 32));
    ShiftedOrder(Val(num), Val(div), f);
    OneWordLonger(snum, sdiv);
    var n, loop := |sdiv|, |snum| - |sdiv|;
    var m := Workspace(sdiv, snum, n + 1 + loop);
    assert m[0..0 + n] == sdiv;
    assert m[n..n + (loop + n)] == snum;
    var sp, tp, qp := n, 2 * n + loop, 3 * n + loop + 1;
    var top := DivLoop(m, sp, loop, n, 0, tp, qp, Val(sdiv));
    q := m[qp..qp + top];
    var rest := m[sp..sp + (n + 1)];
    LowWord(m, sp, n);
    ValBound(sdiv);
    QuotientNormal(q, loop, n, snum, Val(sdiv), Val(rest));
    Denormalise(Val(num), Val(div), f, Val(q), Val(rest));
    r := RShift(rest, normShift);
  }

  lemma NonZero(s: seq<Word>, x: int, f: int)
    requires Val(s) == x * f && x > 0 && f > 0
    ensures s != []
  {
    MulMono(1, x, f);
  }

  lemma ShiftedOrder(x: nat, y: nat, f: nat)
    requires y <= x
    ensures x * (f * BASE) >= (y * f) * BASE
  {
    MulMono(y, x, f * BASE);
  }

  /** Quotient and remainder of a division rounding towards zero. */
  function Quo(num: int, div: int): (q: int)
    requires div != 0
  {
    SignedValue((num < 0) != (div < 0), Absolute(num) / Absolute(div))
  }

  function Rem(num: int, div: int): (r: int)
    requires div != 0
  {
    SignedValue(num < 0, Absolute(num) % Absolute(div))
  }

  /** What the comment above BN_div promises of dv and rm. */
  ghost predicate Truncated(num: int, div: int, q: int, r: int)
  {
    && num == q * div + r
    && Absolute(r) < Absolute(div)
    && (q != 0 ==> (q < 0 <==> (num < 0) != (div < 0)))
    && (r != 0 ==> (r < 0 <==> num < 0))
  }

  /** Quo and Rem keep the promise. */
  lemma QuoRemTruncated(num: int, div: int)
    requires div != 0
    ensures Truncated(num, div, Quo(num, div), Rem(num, div))
  {
    var n: nat, v: nat := Absolute(num), Absolute(div);
    ModBounds(n, v);
    SignedDivision(n / v, v, n % v, num < 0, div < 0);
  }

  lemma SignedDivision(q: int, v: int, r: int, s: bool, t: bool)
    ensures SignedValue(s, q * v + r) == SignedValue(s != t, q) * SignedValue(t, v) + SignedValue(s, r)
  {
    assert (-q) * v == -(q * v) && (-q) * (-v) == q * v && q * (-v) == -(q * v);
  }

  lemma ModBounds(n: nat, v: nat)
    requires v > 0
    ensures n == (n / v) * v + n % v && 0 <= n % v < v && n / v >= 0
  {
    DivBounds(n, v);
  }

  /** And nothing else does. */
  lemma TruncatedUnique(num: int, div: int, q: int, r: int, q': int, r': int)
    requires div != 0 && Truncated(num, div, q, r) && Truncated(num, div, q', r')
    ensures q == q' && r == r'
  {
    var k := q - q';
    assert k * div == r' - r;
    assert k * (-div) == -(k * div);
    if k != 0 {
      NonzeroMultiple(k, Absolute(div));
    }
  }

  lemma NonzeroMultiple(k: int, v: int)
    requires k != 0 && v >= 0
    ensures Absolute(k * v) >= v
  {
    if k >= 1 { MulMono(1, k, v); } else { MulMono(k, -1, v); }
  }

  /** BN_div. Either result may be left out; dv, rm and the operands may coincide, except that dv and
      rm are two objects. When dv is num, rm is what AliasedRem says. */
  method Div(dv: BigNum?, rm: BigNum?, num: BigNum, divisor: BigNum) returns (ok: bool)
    requires num.Valid() && divisor.Valid() && (dv != null ==> dv != rm)
    modifies dv, rm
    ensures ok == old(divisor.Value() != 0)
    ensures ok && dv != null ==> dv.Valid() && dv.Value() == Quo(old(num.Value()), old(divisor.Value()))
    ensures ok && rm != null ==> rm.Valid()
    ensures ok && rm != null && dv != num ==> rm.Value() == Rem(old(num.Value()), old(divisor.Value()))
    ensures ok && rm != null && dv == num ==> rm.Value() == AliasedRem(old(num.Value()), old(divisor.Value()))
    ensures ok && rm != null ==> (rm.NegativeZero() <==> old(num.NegativeZero()))
    ensures !ok ==> (dv != null ==> dv.d == old(dv.d) && dv.neg == old(dv.neg))
    ensures !ok ==> (rm != null ==> rm.d == old(rm.d) && rm.neg == old(rm.neg))
  {
    hide Val, Truncated;
    ZeroMagnitude(divisor.d);
    if divisor.d == [] { return false; }
    ghost var n, v, s, t := Val(num.d), Val(divisor.d), num.neg, divisor.neg;
    var c := num.UCmp(divisor);
    if c < 0 {
      SmallDividend(s, n, t, v);
      if rm != null { rm.Copy(num); }
      if dv != null { dv.SetWord(0); }
      return true;
    }
    EmptyVal();
    assert num.d != [];
    var q, r := DivideMagnitudes(num.d, divisor.d);
    Signs(s, n, t, v, q, r);
    if dv != null {
      var negate := num.neg != divisor.neg;
      if q == [] { negate := false; }
      dv.neg := negate;
      dv.d := q;
    }
    if rm != null {
      var negate := num.neg;
      rm.d := r;
      rm.neg := r != [] && negate;
    }
    return true;
  }

  /** The remainder BN_div leaves when dv is num. A dividend smaller than the divisor is copied before
      dv is written; otherwise the sign is read from num after dv has been given the quotient's. */
  function AliasedRem(num: int, div: int): (r: int)
    requires div != 0
  {
    if Absolute(num) < Absolute(div) then num
    else SignedValue((num < 0) != (div < 0), Absolute(num) % Absolute(div))
  }

  /** With dv == num the promise about rm holds exactly for a positive divisor, a dividend smaller
      than the divisor, or an exact division. */
  lemma AliasedRemainder(num: int, div: int)
    requires div != 0
    ensures Truncated(num, div, Quo(num, div), AliasedRem(num, div)) <==>
      div > 0 || Absolute(num) < Absolute(div) || Absolute(num) % Absolute(div) == 0
  {
    QuoRemTruncated(num, div);
    if Absolute(num) < Absolute(div) {
      SmallDividend(num < 0, Absolute(num), div < 0, Absolute(div));
    } else if Truncated(num, div, Quo(num, div), AliasedRem(num, div)) {
      TruncatedUnique(num, div, Quo(num, div), Rem(num, div), Quo(num, div), AliasedRem(num, div));
    }
  }

  /** One failing case: 6 divided by -5 in place leaves quotient -1 and remainder -1. */
  lemma SixByMinusFive()
    ensures Quo(6, -5) == -1 && AliasedRem(6, -5) == -1
    ensures !Truncated(6, -5, Quo(6, -5), AliasedRem(6, -5))
  {
  }

  lemma SmallDividend(s: bool, n: nat, t: bool, v: nat)
    requires n < v
    ensures Quo(SignedValue(s, n), SignedValue(t, v)) == 0
    ensures Rem(SignedValue(s, n), SignedValue(t, v)) == SignedValue(s, n)
    ensures AliasedRem(SignedValue(s, n), SignedValue(t, v)) == SignedValue(s, n)
  {
    QuotientUnique(n, v, 0);
    assert n == (n / v) * v + n % v;
  }

  lemma Signs(s: bool, n: nat, t: bool, v: nat, q: seq<Word>, r: seq<Word>)
    requires 0 < v <= n && Val(q) == n / v && Val(r) == n % v && Normal(q) && Normal(r)
    ensures q != []
    ensures Quo(SignedValue(s, n), SignedValue(t, v)) == SignedValue(s != t, Val(q))
    ensures Rem(SignedValue(s, n), SignedValue(t, v)) == SignedValue(r != [] && s, Val(r))
    ensures AliasedRem(SignedValue(s, n), SignedValue(t, v)) == SignedValue(r != [] && (s != t), Val(r))
  {
    ZeroMagnitude(q); ZeroMagnitude(r);
    DivBounds(n, v);
    var k := n / v;
    assert k == 0 ==> k * v == 0;
  }

  /** BN_nnmod: BN_mod, then one correction by |d| if the remainder is negative. It looks at the sign
      flag, so for a zero whose flag is set it returns |d| instead of 0; for every other m the
      result is m mod |d|. If the result object is the modulus, the correction subtracts the negative
      remainder from itself. */
  method NNMod(r: BigNum, m: BigNum, d: BigNum) returns (ok: bool)
    requires m.Valid() && d.Valid()
    modifies r
    ensures ok == old(d.Value() != 0)
    ensures ok ==> r.Valid()
    ensures ok && r != d && !old(m.NegativeZero()) ==>
      r.Value() == old(m.Value()) % d.Mag() && 0 <= r.Value() < d.Mag() && !r.neg
    ensures ok && r != d && old(m.NegativeZero()) ==> r.Value() == d.Mag()
    ensures ok && r == d ==> r.Value() == AliasedMod(old(m.Value()), old(d.Value()))
  {
    hide Rem, AliasedMod;
    ghost var x, y := m.Value(), d.Value();
    ok := Div(null, r, m, d);
    if !ok { return; }
    NonNegativeRemainder(x, y);
    AliasedModCases(x, y);
    ZeroMagnitude(r.d);
    if !r.neg { return; }
    if d.neg { r.Sub(r, d); } else { r.Add(r, d); }
  }

  /** What BN_nnmod leaves when the result object is the modulus. */
  function AliasedMod(m: int, d: int): (r: int)
    requires d != 0
  {
    if Rem(m, d) < 0 then 0 else Rem(m, d)
  }

  lemma AliasedModCases(m: int, d: int)
    requires d != 0
    ensures Rem(m, d) < 0 ==> AliasedMod(m, d) == 0
    ensures Rem(m, d) >= 0 ==> AliasedMod(m, d) == Rem(m, d)
    ensures Absolute(Rem(m, d)) < Absolute(d)
  {
  }

  /** That is m mod |d| exactly for non-negative m and for multiples of d. */
  lemma AliasedModulus(m: int, d: int)
    requires d != 0
    ensures AliasedMod(m, d) == m % Absolute(d) <==> m >= 0 || Absolute(m) % Absolute(d) == 0
  {
    NonNegativeRemainder(m, d);
    QuoRemTruncated(m, d);
  }

  lemma NonNegativeRemainder(x: int, y: int)
    requires y != 0
    ensures x % Absolute(y) == (if Rem(x, y) < 0 then Rem(x, y) + Absolute(y) else Rem(x, y))
  {
    QuoRemTruncated(x, y);
    var q, r, v := Quo(x, y), Rem(x, y), Absolute(y);
    var k := if y < 0 then -q else q;
    assert k * v == q * y;
    if r < 0 {
      assert (k - 1) * v == k * v - v;
      RemainderUnique(x, v, k - 1, r + v);
    } else {
      RemainderUnique(x, v, k, r);
    }
  }

  lemma RemainderUnique(x: int, v: int, k: int, r: int)
    requires v > 0 && x == k * v + r && 0 <= r < v
    ensures x % v == r && x / v == k
  {
    assert (k + 1) * v == k * v + v;
    QuotientUnique(x, v, k);
    assert x == (x / v) * v + x % v;
  }
}
