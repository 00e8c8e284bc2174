/** Word-by-word Montgomery reduction and the context it needs. R is Radix(nl), nl the length of the
    modulus N in words. */
module Montgomery {
  import opened Words
  import opened WordQuotient
  import opened Kernels
  import opened Multiply
  import opened Ripple
  import opened Karatsuba
  import opened Bits
  import opened Magnitudes
  import opened BigNums
  import opened BigProducts
  import opened BigDivision
  import opened ModArith
  import opened ModInverse

  /** r is the reduced representative of T / BASE^n modulo m. */
  ghost predicate Reduction(r: int, t: int, n: nat, m: int)
  {
    0 <= r < m && Cong(r * Radix(n), t, m)
  }

  /** Factors of an odd modulus' word radix cancel. */
  lemma {:induction false} CancelTwo(x: int, y: int, k: nat, m: int)
    requires m > 0 && m % 2 == 1 && Cong(x * Two(k), y * Two(k), m)
    ensures Cong(x, y, m)
  {
    if k > 0 {
      var p: int := Two(k - 1);
      assert x * (2 * p) == 2 * (x * p) && y * (2 * p) == 2 * (y * p);
      HalveCong(x * p, y * p, m);
      CancelTwo(x, y, k - 1, m);
    }
  }

  lemma CancelRadix(x: int, y: int, n: nat, m: int)
    requires m > 0 && m % 2 == 1 && Cong(x * Radix(n), y * Radix(n), m)
    ensures Cong(x, y, m)
  {
    RadixTwo(n);
    CancelTwo(x, y, 32 * n, m);
  }

  /** There is only one such representative. */
  lemma ReductionUnique(r: int, r': int, t: int, n: nat, m: int)
    requires m > 0 && m % 2 == 1 && Reduction(r, t, n, m) && Reduction(r', t, n, m)
    ensures r == r'
  {
    CongSym(r' * Radix(n), t, m);
    CongTrans(r * Radix(n), t, r' * Radix(n), m);
    CancelRadix(r, r', n, m);
    CongUnique(r, r', m);
  }

  /** One pass adds N*w with a zero low word; the carry stops inside the number. */
  method AddMultiple(m: array<Word>, p: nat, k: nat, np: nat, nl: nat, w: Word, ghost s: nat, ghost n: nat)
    requires p + k <= m.Length && np + nl <= m.Length && 1 <= nl < k && Apart(p, k, np, nl)
    requires s == At(m, p, k) && n == At(m, np, nl) && s + n * w < Radix(k)
    modifies m
    ensures At(m, p, k) == s + n * w
    ensures OnlyChanges(m, p, k)
  {
    hide At, Val, Radix;
    AtSplit(m, p, nl, k - nl);
    ghost var lo, hi := At(m, p, nl), At(m, p + nl, k - nl);
    ghost var s0 := m[..];
    AtIn(m, p + nl, k - nl);
    var v := MulAddWords(m, p, np, nl, w);
    Framed(s0, m, p, nl, p + nl, k - nl);
    ghost var lo' := At(m, p, nl);
    RadixAdd(nl, k - nl);
    CarryFits(lo, hi, lo', v, s, n * w, Radix(nl), Radix(k - nl));
    ghost var s1 := m[..];
    AtIn(m, p, nl);
    AddCarry(m, p + nl, k - nl, v);
    Framed(s1, m, p + nl, k - nl, p, nl);
    AtSplit(m, p, nl, k - nl);
    assert Radix(nl) * (hi + v) == Radix(nl) * hi + v * Radix(nl);
  }

  lemma CarryFits(lo: nat, hi: nat, lo': nat, v: nat, s: nat, x: nat, r: nat, r': nat)
    requires s == lo + r * hi && lo' + v * r == lo + x && s + x < r * r' && r > 0
    ensures hi + v < r'
  {
    assert r * (hi + v) == r * hi + v * r;
    if hi + v >= r' { MulMono(r', hi + v, r); }
  }

  /** n0 is -1/w modulo the word base. */
  predicate NegatesInverse(n0: int, w: int)
  {
    (n0 * w) % BASE == BASE - 1
  }

  /** The multiplier chosen by n0 clears the low word. */
  lemma ClearsLow(s: nat, n: nat, sl: int, nw: int, n0: int, w: int, sh: int, nh: int)
    requires s == sl + BASE * sh && n == nw + BASE * nh
    requires NegatesInverse(n0, nw) && w == (sl * n0) % BASE
    ensures (s + n * w) % BASE == 0
  {
    var i, j := (sl * n0) / BASE, (n0 * nw) / BASE;
    assert n * w == nw * w + BASE * (nh * w) by {
      assert (nw + BASE * nh) * w == nw * w + BASE * (nh * w);
    }
    assert w == sl * n0 - BASE * i && n0 * nw == BASE * j + BASE - 1;
    assert nw * w == sl * (n0 * nw) - BASE * (nw * i) by {
      assert nw * (sl * n0 - BASE * i) == sl * (n0 * nw) - BASE * (nw * i);
    }
    assert sl * (BASE * j + BASE - 1) == BASE * (sl * j + sl) - sl;
    var k := sl * j + sl - nw * i + nh * w + sh;
    assert s + n * w == k * BASE;
    MultipleMod(k, BASE);
  }

  /** Dropping a zero low word divides by the base. */
  lemma DropLow(m: array<Word>, p: nat, k: nat)
    requires 1 <= k && p + k <= m.Length && At(m, p, k) % BASE == 0
    ensures At(m, p, k) == BASE * At(m, p + 1, k - 1)
  {
    FirstWord(m, p, k);
  }

  /** The sum of the multiples added so far stays below the weight of the words cleared. */
  lemma NextMultiple(t: int, s: int, s': int, n: int, u: int, w: int, p: int)
    requires p * s == t + n * u && s + n * w == BASE * s' && 0 <= u < p && 0 <= w < BASE
    ensures (BASE * p) * s' == t + n * (u + w * p) && 0 <= u + w * p < BASE * p
  {
    assert (BASE * p) * s' == p * (s + n * w);
    assert n * (u + w * p) == n * u + p * (n * w);
    MulMono(w, BASE - 1, p); MulMono(0, w, p);
  }

  /** Every sum that occurs fits its words. */
  lemma SumFits(t: int, s: int, n: int, u: int, w: int, p: int, q: int, r: int)
    requires p * s == t + n * u && 0 <= u < p && 0 <= w < BASE && 0 <= n < r && 0 <= t < n * r
    requires p * q == (BASE * r) * r && q > 0 && BASE * p <= r
    ensures s + n * w < q
  {
    var v := u + w * p;
    MulMono(w, BASE - 1, p);
    assert n * v == n * u + p * (n * w);
    TwiceBelow(t, n, v, r);
    var x := s + n * w;
    assert p * x == t + n * v;
    if x >= q { MulMono(q, x, p); }
  }

  lemma TwiceBelow(t: int, n: int, v: int, r: int)
    requires 0 <= n < r && 0 <= t < n * r && v <= r
    ensures t + n * v < (BASE * r) * r
  {
    MulMono(v, r, n);
    assert n * r + n * r == (2 * n) * r;
    MulMono(2 * n, BASE * r, r);
  }

  /** The reduction loop on a buffer of 2*nl + 1 words: nl passes, each clearing one low word. */
  method Passes(m: array<Word>, nl: nat, np: nat, n0: Word, ghost n: nat, ghost t: nat) returns (ghost u: nat)
    requires 1 <= nl && 2 * nl + 1 <= np && np + nl <= m.Length
    requires n == At(m, np, nl) && t == At(m, 0, 2 * nl + 1) && t < n * Radix(nl)
    requires NegatesInverse(n0, m[np])
    modifies m
    ensures Radix(nl) * At(m, nl, nl + 1) == t + n * u && 0 <= u < Radix(nl)
    ensures OnlyChanges(m, 0, 2 * nl + 1)
  {
    hide At, Val, Radix;
    u := 0;
    RadixZero();
    ghost var s00 := m[..];
    AtIn(m, np, nl);
    var i := 0;
    while i < nl
      invariant 0 <= i <= nl && 0 <= u < Radix(i)
      invariant Radix(i) * At(m, i, 2 * nl + 1 - i) == t + n * u
      invariant OnlyChanges(m, 0, 2 * nl + 1)
    {
      var w: Word := (m[i] as int * n0 as int) % BASE;
      ghost var k := 2 * nl + 1 - i;
      Framed(s00, m, 0, 2 * nl + 1, np, nl);
      u := Pass(m, i, nl, np, n0, w, n, t, u);
      i := i + 1;
    }
  }

  /** One pass. */
  method Pass(m: array<Word>, i: nat, nl: nat, np: nat, n0: Word, w: Word, ghost n: nat, ghost t: nat, ghost u: nat)
    returns (ghost u': nat)
    requires i < nl && 2 * nl + 1 <= np && np + nl <= m.Length
    requires n == At(m, np, nl) && t < n * Radix(nl) && NegatesInverse(n0, m[np])
    requires w == (m[i] as int * n0 as int) % BASE && u < Radix(i)
    requires Radix(i) * At(m, i, 2 * nl + 1 - i) == t + n * u
    modifies m
    ensures u' < Radix(i + 1) && Radix(i + 1) * At(m, i + 1, 2 * nl - i) == t + n * u'
    ensures OnlyChanges(m, i, 2 * nl + 1 - i)
  {
    hide At, Val, Radix;
    var k := 2 * nl + 1 - i;
    ghost var s := At(m, i, k);
    FirstWord(m, i, k); FirstWord(m, np, nl);
    ClearsLow(s, n, m[i], m[np], n0, w, At(m, i + 1, k - 1), At(m, np + 1, nl - 1));
    PassFits(nl, i, t, s, n, u, w, m, np);
    AddMultiple(m, i, k, np, nl, w, s, n);
    DropLow(m, i, k);
    NextMultiple(t, s, At(m, i + 1, k - 1), n, u, w, Radix(i));
    RadixUp(i);
    u' := u + w * Radix(i);
  }

  lemma PassFits(nl: nat, i: nat, t: int, s: int, n: int, u: int, w: int, m: array<Word>, np: nat)
    requires i < nl && np + nl <= m.Length && n == At(m, np, nl)
    requires Radix(i) * s == t + n * u && 0 <= u < Radix(i) && 0 <= w < BASE && 0 <= t < n * Radix(nl)
    ensures s + n * w < Radix(2 * nl + 1 - i)
  {
    hide Val, Radix;
    ValBound(m[np..np + nl]);
    var k := 2 * nl + 1 - i;
    RadixAdd(i, k);
    assert i + k == 2 * nl + 1 && 2 * nl + 1 == 1 + 2 * nl;
    RadixUp(2 * nl);
    RadixDouble(nl);
    RadixMonotone(i, nl);
    var r := Radix(nl);
    assert BASE * (r * r) == (BASE * r) * r;
    SumFits(t, s, n, u, w, Radix(i), Radix(k), r);
  }

  lemma {:induction false} CoprimeToTwo(w: nat, k: nat)
    requires w % 2 == 1
    ensures Gcd(w, Two(k)) == 1
  {
    if k == 0 {
      assert Two(0) == 1 && w % 1 == 0;
      assert Gcd(1, 0) == 1;
    } else {
      GcdHalf(w, Two(k));
      CoprimeToTwo(w, k - 1);
    }
  }

  /** BASE is invertible modulo a word exactly when the word is odd. */
  lemma BaseInvertible(w: nat)
    requires w > 0
    ensures Gcd(w, BASE % w) == 1 <==> w % 2 == 1
  {
    assert Gcd(BASE, w) == Gcd(w, BASE % w);
    if w % 2 == 1 {
      TwoWord();
      CoprimeToTwo(w, 32);
      GcdComm(w, BASE);
    } else {
      GcdGreatest(BASE, w, 2);
    }
  }

  /** Ni = (BASE * Ri - 1) / w, and its low word is the negated inverse. */
  lemma NegatedInverse(w: nat, ri: nat, x: nat, q: nat)
    requires 0 < w < BASE && 0 <= ri < w && Cong(ri * BASE, 1, w)
    requires x == (if ri == 0 then BASE - 1 else ri * BASE - 1) && q == x / w
    ensures NegatesInverse(q % BASE, w)
  {
    var k := CongWitness(ri * BASE, 1, w);
    if ri == 0 {
      DivideOne(w, -k);
      assert q == BASE - 1;
    } else {
      RemainderUnique(x, w, k, 0);
      assert q * w == ri * BASE - 1;
      var h := q / BASE;
      assert (q % BASE) * w == (ri - 1 - h * w) * BASE + (BASE - 1) by {
        assert (q - BASE * h) * w == q * w - (h * w) * BASE;
        assert (ri - 1 - h * w) * BASE == ri * BASE - BASE - (h * w) * BASE;
      }
      RemainderUnique((q % BASE) * w, BASE, ri - 1 - h * w, BASE - 1);
    }
  }

  lemma DivideOne(w: nat, k: int)
    requires w > 0 && k * w == 1
    ensures w == 1
  {
    if k >= 1 { MulMono(1, k, w); } else { MulMono(k, 0, w); }
  }

  /** Ri := BASE^-1 mod w. */
  method BaseInverse(Ri: BigNum, tmod: BigNum, w: Word, limit: nat) returns (ok: bool)
    requires Ri != tmod && tmod.Valid() && tmod.Value() == w
    modifies Ri
    ensures ok == (w % 2 == 1)
    ensures ok ==> Ri.Valid() && !Ri.neg && 0 <= Ri.Value() < w && Cong(Ri.Value() * BASE, 1, w)
  {
    hide Val, Two, Cong, Gcd;
    if w > 0 { BaseInvertible(w); }
    var R := new BigNum.Pooled();
    R.SetWord(0);
    R.SetBit(32);
    ZeroBit(32);
    TwoWord();
    ok := Inverse(Ri, R, tmod, limit);
  }

  /** The n0 part of BN_MONT_CTX_set: -1/w modulo the word base, failing for even w. */
  method NegInverse(w: Word, limit: nat) returns (ok: bool, n0: Word)
    ensures ok == (w % 2 == 1)
    ensures ok ==> NegatesInverse(n0, w)
  {
    hide Val, Two, Cong, Gcd, NegatesInverse;
    n0 := 0;
    var tmod := new BigNum.Pooled();
    var Ri := new BigNum.Pooled();
    tmod.SetWord(w);
    ok := BaseInverse(Ri, tmod, w, limit);
    if !ok { return; }
    ghost var ri: nat := Ri.Mag();
    TwoWord();
    Ri.ShiftLeft(Ri, 32);
    ZeroMagnitude(Ri.d);
    WordPositive(ri);
    if Ri.d != [] {
      Ri.MinusWord(1);
    } else {
      Ri.SetWord(BASE - 1);
    }
    ghost var x: nat := Ri.Mag();
    var _ := Div(Ri, null, Ri, tmod);
    QuoPositive(x, w);
    NegatedInverse(w, ri, x, x / w);
    LowWordMod(Ri.d);
    n0 := if Ri.d != [] then Ri.d[0] else 0;
  }

  lemma WordPositive(x: nat)
    ensures x * BASE == 0 <==> x == 0
  {
  }

  lemma QuoPositive(x: nat, w: nat)
    requires w > 0
    ensures Quo(x, w) == x / w && x / w >= 0
  {
    assert Absolute(x) == x && Absolute(w) == w;
    assert SignedValue(false, x / w) == x / w;
    ModBounds(x, w);
  }

  lemma ZeroBit(n: nat)
    ensures !Bit(0, n)
  {
    QuotientUnique(0, Two(n), 0);
  }

  lemma LowWordMod(s: seq<Word>)
    ensures Val(s) % BASE == if s == [] then 0 else s[0]
  {
    if s != [] {
      RemainderUnique(Val(s), BASE, Val(s[1..]), s[0]);
    }
  }

  /** BN_MONT_CTX: the modulus, R^2 mod N, the length of R in bits and n0 with n0 * N == -1 mod BASE. */
  class Context {
    const N: BigNum
    const RR: BigNum
    var ri: nat
    var n0: Word

    ghost predicate Valid()
      reads this, N, RR
    {
      && N != RR && N.Valid() && RR.Valid() && !N.neg && !RR.neg
      && N.d != [] && N.Mag() % 2 == 1 && ri == 32 * |N.d|
      && NegatesInverse(n0, N.d[0])
      && RR.Mag() == Radix(2 * |N.d|) % N.Mag()
    }

    ghost function Modulus(): (m: nat)
      reads this, N
    {
      N.Mag()
    }

    /** The length of the modulus in words. */
    ghost function Len(): (n: nat)
      reads this, N
    {
      |N.d|
    }

    constructor ()
      ensures fresh(N) && fresh(RR) && N != RR && N.Valid() && RR.Valid()
    {
      N := new BigNum();
      RR := new BigNum();
      ri := 0;
      n0 := 0;
    }

    /** BN_MONT_CTX_set succeeds exactly for odd moduli. */
    method Set(mod: BigNum, limit: nat) returns (ok: bool)
      requires mod.Valid() && mod.d != [] && N != RR && mod != N && mod != RR
      modifies this, N, RR
      ensures ok == (mod.Mag() % 2 == 1)
      ensures ok ==> Valid() && N.d == mod.d
    {
      hide Val, Two, Radix;
      N.Copy(mod);
      N.neg := false;
      var bits := mod.Bits();
      ri := (bits + 31) / 32 * 32;
      LowBit(mod.d);
      var inverse;
      ok, inverse := NegInverse(mod.d[0], limit);
      if !ok { return; }
      n0 := inverse;
      WordsOfBits(mod.d);
      RR.SetWord(0);
      RR.SetBit(2 * ri);
      ZeroBit(2 * ri);
      RadixTwo(2 * |N.d|);
      var _ := Div(null, RR, RR, N);
      ZeroMagnitude(RR.d);
    }
  }

  /** The bit length rounded up to words is the length in words. */
  lemma WordsOfBits(s: seq<Word>)
    requires Normal(s) && s != []
    ensures (BitLen(Val(s)) + 31) / 32 == |s|
  {
    NumBitsOf(s);
    var x: nat := s[|s| - 1];
    BitLenBounds(x);
    TwoWord();
    BitLenAtMost(x, 32);
  }

  /** What the words copied out above position x stand for. */
  lemma TrimShift(s: seq<Word>, x: nat)
    requires x <= |s|
    ensures |Trim(s)| < x ==> Val(s[x..]) == 0
    ensures |Trim(s)| >= x ==> Normal(Trim(s)[x..]) && Val(Trim(s)[x..]) == Val(s[x..])
  {
    var t := Trim(s);
    if |t| < x {
      ValZeros(s[x..]);
    } else {
      var zeros := s[|t|..];
      ValZeros(zeros);
      assert s[x..] == t[x..] + zeros;
      ValAppend(t[x..], zeros);
      assert Radix(|t| - x) * 0 == 0;
    }
  }

  /** A number below N*R has at most 2*nl words. */
  lemma OperandLength(a: seq<Word>, n: seq<Word>)
    requires Normal(a) && Val(a) < Val(n) * Radix(|n|)
    ensures |a| <= 2 * |n|
  {
    hide Radix, Val;
    if |a| > 2 * |n| {
      NormalBound(a);
      ValBound(n);
      RadixDouble(|n|);
      RadixMonotone(2 * |n|, |a| - 1);
      MulMono(Val(n), Radix(|n|), Radix(|n|));
    }
  }

  /** The quotient before the last subtraction is below 2N and represents T / R. */
  lemma Quotient(r: int, q: int, t: int, n: int, u: int)
    requires n > 0 && r > 0 && r * q == t + n * u && 0 <= u < r && 0 <= t < n * r
    ensures q < 2 * n && Cong(q * r, t, n)
    ensures q * r == t + n * u
  {
    StrictlyBelow(u, r, n);
    MulMono(u, r, n);
    assert n * r + n * r == (2 * n) * r;
    MulComm(r, q);
    if q >= 2 * n {
      MulMono(2 * n, q, r);
    }
    MulComm(n, u);
    CongBy(q * r, t, n, u);
  }

  lemma StrictlyBelow(u: int, r: int, n: int)
    requires u < r && n > 0
    ensures n * u < n * r
  {
    MulMono(1, r - u, n);
    assert n * r == n * u + (r - u) * n;
  }

  /** Taking the modulus off once more keeps the congruence. */
  lemma SubtractOnce(q: int, r: int, t: int, n: int)
    requires n > 0 && Cong(q * r, t, n)
    ensures Cong((q - n) * r, t, n)
  {
    assert (q - n) * r - q * r == (-r) * n;
    CongBy((q - n) * r, q * r, n, -r);
    CongTrans((q - n) * r, q * r, t, n);
  }

  /** The words of T / R before the last subtraction; u is the multiple of N the passes have added to T. */
  method Reduce(a: seq<Word>, n: seq<Word>, n0: Word) returns (q: seq<Word>, ghost u: nat)
    requires Normal(a) && n != [] && Val(a) < Val(n) * Radix(|n|)
    requires NegatesInverse(n0, n[0])
    ensures Normal(q) && Val(q) < 2 * Val(n) && Val(n) > 0 && Cong(Val(q) * Radix(|n|), Val(a), Val(n))
    ensures Val(q) * Radix(|n|) == Val(a) + Val(n) * u && u < Radix(|n|)
  {
    hide Val, Radix;
    var nl := |n|;
    var max := 2 * nl + 1;
    OperandLength(a, n);
    var zeros := seq(max - |a|, k requires 0 <= k < max - |a| => 0 as Word);
    ValAppend(a, zeros);
    ValZeros(zeros);
    var m := Workspace(a + zeros, n, 0);
    assert m[0..0 + max] == a + zeros;
    assert m[max..max + nl] == n;
    u := Passes(m, nl, max, n0, Val(n), Val(a));
    PositiveProduct(Val(n), Radix(nl), Val(a));
    Quotient(Radix(nl), Val(m[nl..nl + (nl + 1)]), Val(a), Val(n), u);
    var s := m[..max];
    assert s[nl..] == m[nl..nl + (nl + 1)];
    TrimShift(s, nl);
    var r := Trim(s);
    EmptyVal();
    q := if |r| < nl then [] else r[nl..];
  }

  lemma PositiveProduct(n: nat, r: nat, t: nat)
    requires t < n * r
    ensures n > 0
  {
    assert n == 0 ==> n * r == 0;
  }

  lemma ZeroReduction(r: int, n: nat, m: int)
    requires m > 0 && m % 2 == 1 && Reduction(r, 0, n, m)
    ensures r == 0
  {
    assert 0 * Radix(n) == 0;
    CongRefl(0, m);
    ReductionUnique(r, 0, 0, n, m);
  }

  // The sign of the result.

  /** The multiple of n that clears the low k bits of t, bit by bit. */
  function Multiplier(t: nat, n: nat, k: nat): (u: nat)
  {
    if k == 0 then 0
    else
      var v := Multiplier(t, n, k - 1);
      if (t + n * v) / Two(k - 1) % 2 == 0 then v else v + Two(k - 1)
  }

  /** u is below 2^k and makes t + n * u a multiple of it. */
  ghost predicate Clears(u: nat, t: nat, n: nat, k: nat)
  {
    u < Two(k) && (t + n * u) % Two(k) == 0
  }

  lemma {:induction false} MultiplierClears(t: nat, n: nat, k: nat)
    requires n % 2 == 1
    ensures Clears(Multiplier(t, n, k), t, n, k)
  {
    if k > 0 {
      MultiplierClears(t, n, k - 1);
      ClearsOneMore(Multiplier(t, n, k - 1), t, n, Two(k - 1), (t + n * Multiplier(t, n, k - 1)) / Two(k - 1));
    } else {
      assert (t + n * 0) % 1 == 0;
    }
  }

  lemma ClearsOneMore(v: nat, t: nat, n: nat, p: nat, s: int)
    requires n % 2 == 1 && p > 0 && v < p && (t + n * v) % p == 0 && s == (t + n * v) / p
    ensures s % 2 == 0 ==> (t + n * v) % (2 * p) == 0
    ensures s % 2 == 1 ==> (t + n * (v + p)) % (2 * p) == 0
  {
    var x := t + n * v;
    ExactQuotient(x, p, s);
    assert n * (v + p) == n * v + n * p;
    if s % 2 == 0 {
      EvenMultiple(s, p);
    } else {
      assert (s + n) * p == s * p + n * p;
      EvenMultiple(s + n, p);
    }
  }

  lemma ExactQuotient(x: int, p: int, s: int)
    requires p > 0 && x % p == 0 && s == x / p
    ensures x == s * p
  {
    assert x == (x / p) * p + x % p;
  }

  lemma EvenMultiple(s: int, p: int)
    requires p > 0 && s % 2 == 0
    ensures (s * p) % (2 * p) == 0
  {
    var h := s / 2;
    assert s == 2 * h;
    assert s * p == h * (2 * p);
    MultipleMod(h, 2 * p);
  }

  /** There is only one. */
  lemma ClearsUnique(u: nat, v: nat, t: nat, n: nat, k: nat)
    requires n % 2 == 1 && Clears(u, t, n, k) && Clears(v, t, n, k)
    ensures u == v
  {
    if u < v {
      ClearsApart(u, v, t, n, k);
    } else if v < u {
      ClearsApart(v, u, t, n, k);
    }
  }

  lemma ClearsApart(u: nat, v: nat, t: nat, n: nat, k: nat)
    requires n % 2 == 1 && (t + n * u) % Two(k) == 0 && (t + n * v) % Two(k) == 0 && u < v
    ensures v - u >= Two(k)
  {
    hide Two;
    var p: int := Two(k);
    var x, y := (t + n * u) / p, (t + n * v) / p;
    ExactQuotient(t + n * u, p, x);
    ExactQuotient(t + n * v, p, y);
    var c := y - x;
    assert c * p == y * p - x * p;
    assert n * (v - u) == n * v - n * u;
    MulComm(n, v - u);
    assert 0 * p == 0;
    CongBy(c * p, 0, n, v - u);
    CancelTwo(c, 0, k, n);
    var d := CongWitness(c, 0, n);
    SameFactor(d, n, p, v - u);
    if d >= 1 { MulMono(1, d, p); } else { MulMono(d, 0, p); }
  }

  lemma SameFactor(d: int, n: int, p: int, w: int)
    requires n > 0 && (d * n) * p == n * w
    ensures w == d * p
  {
    Assoc(n, d, p); MulComm(n, d);
    var e := d * p - w;
    assert n * e == n * (d * p) - n * w;
    if e >= 1 { MulMono(1, e, n); }
    if e <= -1 { MulMono(e, -1, n); }
  }

  /** The last subtraction is made: t + n * u, which is R times the value compared with n, is not below n * R. */
  predicate Subtracts(t: nat, n: nat, len: nat)
  {
    t + n * Multiplier(t, n, 32 * len) >= n * Radix(len)
  }

  /** The value the passes leave is not below n exactly then. */
  lemma SubtractsExactly(q: nat, t: nat, n: nat, u: nat, len: nat)
    requires n % 2 == 1 && q * Radix(len) == t + n * u && u < Radix(len)
    ensures q >= n <==> Subtracts(t, n, len)
  {
    hide Radix, Two;
    RadixTwo(len);
    var r: int := Radix(len);
    MultiplierClears(t, n, 32 * len);
    MultipleMod(q, r);
    ClearsUnique(u, Multiplier(t, n, 32 * len), t, n, 32 * len);
    if q >= n { MulMono(n, q, r); } else { MulMono(q + 1, n, r); assert (q + 1) * r == q * r + r; }
  }

  /** For a negative operand the reduced magnitude is right with the flag set, and without it only if it is zero. */
  lemma SignOfReduction(r: int, t: int, n: nat, m: int)
    requires m > 0 && m % 2 == 1 && Reduction(r, t, n, m)
    ensures Cong(-r * Radix(n), -t, m)
    ensures Cong(r * Radix(n), -t, m) <==> r == 0
  {
    hide Radix;
    var p := Radix(n);
    assert -r * p == -(r * p);
    CongNegate(r * p, t, m);
    if Cong(r * p, -t, m) {
      CongSym(-r * p, -t, m);
      CongTrans(r * p, -t, -r * p, m);
      CancelRadix(r, -r, n, m);
      SelfNegative(r, m);
    }
    if r == 0 { assert r * p == -r * p; }
  }

  lemma CongNegate(x: int, y: int, m: int)
    requires m > 0 && Cong(x, y, m)
    ensures Cong(-x, -y, m)
  {
    CongScale(-1, x, y, m);
    assert x * -1 == -x && y * -1 == -y && -1 * x == -x && -1 * y == -y;
  }

  lemma SelfNegative(r: int, m: int)
    requires m > 0 && m % 2 == 1 && 0 <= r < m && Cong(r, -r, m)
    ensures r == 0
  {
    HalveCong(r, 0, m);
    CongUnique(r, 0, m);
  }

  /** When the signed value of a reduction is right: always for an operand that is not negative, and for a negative
      one exactly if the last subtraction is not made or the operand is a multiple of the modulus. */
  lemma SignRight(r: int, neg: bool, v: int, t: nat, len: nat, n: nat)
    requires n % 2 == 1 && Reduction(r, t, len, n) && Absolute(v) == t
    requires v >= 0 ==> SignedValue(neg, r) == r
    requires v < 0 ==> (neg <==> !Subtracts(t, n, len))
    ensures Cong(SignedValue(neg, r) * Radix(len), v, n) <==> v >= 0 || !Subtracts(t, n, len) || t % n == 0
  {
    hide Radix, Subtracts, Cong;
    if v < 0 {
      SignOfReduction(r, t, len, n);
      ZeroExactly(r, t, len, n);
    }
  }

  lemma ZeroExactly(r: int, t: nat, len: nat, n: nat)
    requires n % 2 == 1 && Reduction(r, t, len, n)
    ensures r == 0 <==> t % n == 0
  {
    hide Radix;
    assert 0 * Radix(len) == 0;
    if t % n == 0 {
      assert t == (t / n) * n;
      CongBy(0, t, n, -(t / n));
      ReductionUnique(r, 0, t, len, n);
    }
    if r == 0 {
      CongSym(0, t, n);
    }
  }

  /** BN_from_montgomery. The sign flag is carried over, except when the last subtraction clears it. */
  method FromMontgomery(ret: BigNum, a: BigNum, mont: Context)
    requires a.Valid() && mont.Valid() && ret != mont.N && ret != mont.RR
    requires a.Mag() < mont.Modulus() * Radix(mont.Len())
    modifies ret
    ensures ret.Valid() && Reduction(ret.Mag(), old(a.Mag()), mont.Len(), mont.Modulus())
    ensures ret.neg <==> old(a.neg) && !Subtracts(old(a.Mag()), mont.Modulus(), mont.Len())
    ensures old(a.Value()) >= 0 ==> ret.Value() == ret.Mag()
    ensures Cong(ret.Value() * Radix(mont.Len()), old(a.Value()), mont.Modulus()) <==>
      old(a.Value()) >= 0 || !Subtracts(old(a.Mag()), mont.Modulus(), mont.Len()) || old(a.Mag()) % mont.Modulus() == 0
  {
    hide Val, Radix, Cong, Subtracts;
    ghost var v := a.Value();
    ghost var t, n := a.Mag(), mont.N.Mag();
    ghost var u;
    var q;
    q, u := Reduce(a.d, mont.N.d, mont.n0);
    SubtractsExactly(Val(q), t, n, u, mont.Len());
    ret.neg := a.neg;
    ret.d := q;
    var order := ret.UCmp(mont.N);
    if order >= 0 {
      SubtractOnce(Val(q), Radix(mont.Len()), t, n);
      var _ := ret.USub(ret, mont.N);
    }
    if v >= 0 && ret.neg { ZeroReduction(ret.Mag(), mont.Len(), n); }
    SignRight(ret.Mag(), ret.neg, v, t, mont.Len(), n);
  }

  /** BN_mod_mul_montgomery: a square when both operands are the same object. */
  method MulMontgomery(r: BigNum, a: BigNum, b: BigNum, mont: Context)
    requires a.Valid() && b.Valid() && mont.Valid() && r != mont.N && r != mont.RR
    requires a.Mag() * b.Mag() < mont.Modulus() * Radix(mont.Len())
    modifies r
    ensures r.Valid() && Reduction(r.Mag(), old(a.Mag()) * old(b.Mag()), mont.Len(), mont.Modulus())
    ensures old(a.Value()) * old(b.Value()) >= 0 ==> r.Value() == r.Mag()
    ensures old(a.Value()) * old(b.Value()) < 0 ==>
      (r.neg <==> !Subtracts(old(a.Mag()) * old(b.Mag()), mont.Modulus(), mont.Len()))
    ensures Cong(r.Value() * Radix(mont.Len()), old(a.Value()) * old(b.Value()), mont.Modulus()) <==>
      || old(a.Value()) * old(b.Value()) >= 0
      || !Subtracts(old(a.Mag()) * old(b.Mag()), mont.Modulus(), mont.Len())
      || (old(a.Mag()) * old(b.Mag())) % mont.Modulus() == 0
  {
    hide Val, Radix, Cong, Subtracts;
    var tmp := new BigNum.Pooled();
    ghost var x, y := a.Mag(), b.Mag();
    ghost var v := a.Value() * b.Value();
    if a == b {
      Sqr(tmp, a);
    } else {
      Mul(tmp, a, b);
    }
    SignsMultiply(a.neg, b.neg, x, y);
    NonNegative(x, y);
    ProductMagnitude(tmp, a.neg != b.neg, x * y);
    FromMontgomery(r, tmp, mont);
  }

  lemma ProductMagnitude(t: BigNum, s: bool, v: nat)
    requires t.Value() == SignedValue(s, v)
    ensures t.Mag() == v && (t.Value() < 0 ==> t.neg)
  {
    hide Val;
  }

  lemma NonNegative(x: nat, y: nat)
    ensures x * y >= 0
  {
  }

  /** For the modulus B - 1 and the operand (B - 1) * B - 1 the last subtraction is made. */
  lemma LargestOperand()
    ensures var n, t := BASE - 1, (BASE - 1) * BASE - 1;
      t < n * Radix(1) && Subtracts(t, n, 1) && Reduction(BASE - 2, t, 1, n) && t % n != 0
  {
    hide Two;
    var n, t := BASE - 1, (BASE - 1) * BASE - 1;
    RadixOne();
    assert (2 * n - 1) * BASE == t + n * (BASE - 1);
    SubtractsExactly(2 * n - 1, t, n, BASE - 1, 1);
    CongBy((BASE - 2) * BASE, t, n, -1);
    RemainderUnique(t, n, BASE - 1, n - 1);
  }

  lemma RadixOne()
    ensures Radix(1) == BASE
  {
    assert Radix(0) == 1;
  }

  /** So the negative of that operand loses its sign: what is left is not its reduction. */
  method SignLost(ret: BigNum, a: BigNum, mont: Context)
    requires a.Valid() && mont.Valid() && ret != mont.N && ret != mont.RR
    requires mont.Modulus() == BASE - 1 && mont.Len() == 1 && a.Value() == -((BASE - 1) * BASE - 1)
    modifies ret
    ensures ret.Value() == BASE - 2 && !Cong(ret.Value() * Radix(1), old(a.Value()), mont.Modulus())
  {
    hide Val, Radix, Cong, Subtracts;
    LargestOperand();
    ghost var n := mont.Modulus();
    FromMontgomery(ret, a, mont);
    ReductionUnique(ret.Mag(), BASE - 2, (BASE - 1) * BASE - 1, 1, n);
  }
}
