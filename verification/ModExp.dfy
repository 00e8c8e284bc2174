/** BN_mod_exp_mont: the sliding window over a table of odd powers in Montgomery form. */
module ModExp {
  import opened Words
  import opened WordQuotient
  import opened Bits
  import opened Magnitudes
  import opened BigNums
  import opened BigDivision
  import opened ModArith
  import opened Montgomery

  /** r is the Montgomery form of x: reduced and congruent to x*R. */
  ghost predicate InForm(r: int, x: int, n: nat, m: int)
  {
    0 <= r < m && Cong(r, x * Radix(n), m)
  }

  /** Montgomery multiplication multiplies the numbers the forms stand for. */
  lemma FormsMultiply(a: int, x: int, b: int, y: int, r: int, n: nat, m: int)
    requires m > 0 && m % 2 == 1 && InForm(a, x, n, m) && InForm(b, y, n, m) && Reduction(r, a * b, n, m)
    ensures InForm(r, x * y, n, m)
  {
    var p: int := Radix(n);
    CongMul(a, x * p, b, y * p, m);
    RegroupForms(x, y, p);
    hide Cong;
    CongTrans(r * p, a * b, ((x * y) * p) * p, m);
    CancelRadix(r, (x * y) * p, n, m);
  }

  lemma RegroupForms(x: int, y: int, p: int)
    ensures (x * p) * (y * p) == ((x * y) * p) * p
  {
    var k := y * p;
    assert (x * p) * k == x * (p * k) == x * (k * p) == (x * k) * p;
    assert x * k == (x * y) * p;
  }

  /** Multiplying by R^2 mod N brings a number into the form. */
  lemma IntoForm(a: int, rr: int, r: int, n: nat, m: int)
    requires m > 0 && m % 2 == 1 && rr == Radix(2 * n) % m && Reduction(r, a * rr, n, m)
    ensures InForm(r, a, n, m)
  {
    var p: int := Radix(n);
    ModCong(Radix(2 * n), m);
    Multiply.RadixDouble(n);
    CongScale(a, rr, p * p, m);
    Associate(a, p);
    hide Cong, Radix;
    CongTrans(r * p, a * rr, (a * p) * p, m);
    CancelRadix(r, a * p, n, m);
  }

  lemma Associate(a: int, p: int)
    ensures a * (p * p) == (a * p) * p
  {
  }

  /** Reducing a form gives the number itself, reduced. */
  lemma OutOfForm(r: int, x: int, out: int, n: nat, m: int)
    requires m > 0 && m % 2 == 1 && InForm(r, x, n, m) && Reduction(out, r, n, m)
    ensures out == x % m
  {
    CongTrans(out * Radix(n), r, x * Radix(n), m);
    CancelRadix(out, x, n, m);
    ModIs(x, out, m);
  }

  /** The object r holds the form of x. */
  ghost predicate Holds(r: BigNum, x: int, mont: Context)
    reads r, mont, mont.N
  {
    r.Valid() && InForm(r.Value(), x, mont.Len(), mont.Modulus())
  }

  lemma ProductBelow(a: int, b: int, m: int, r: int)
    requires 0 <= a < r && 0 <= b < m
    ensures a * b < m * r && a * b >= 0
  {
    MulMono(a, r - 1, b);
    assert (r - 1) * b == r * b - b;
    MulMono(b + 1, m, r);
    assert (b + 1) * r == r * b + r;
  }

  method MulForms(r: BigNum, a: BigNum, b: BigNum, mont: Context, ghost x: int, ghost y: int)
    requires mont.Valid() && r != mont.N && r != mont.RR && Holds(a, x, mont) && Holds(b, y, mont)
    modifies r
    ensures Holds(r, x * y, mont)
  {
    hide Val, Radix, Cong;
    ValBound(mont.N.d);
    ghost var v, w := a.Value(), b.Value();
    ProductBelow(v, w, mont.Modulus(), Radix(mont.Len()));
    MulMontgomery(r, a, b, mont);
    FormsMultiply(v, x, w, y, r.Value(), mont.Len(), mont.Modulus());
  }

  /** BN_to_montgomery. */
  method ToMontgomery(r: BigNum, a: BigNum, mont: Context)
    requires mont.Valid() && r != mont.N && r != mont.RR && a.Valid()
    requires 0 <= a.Value() < Radix(mont.Len())
    modifies r
    ensures Holds(r, old(a.Value()), mont)
  {
    hide Val, Radix, Cong;
    ghost var v, rr := a.Value(), mont.RR.Value();
    ModCong(Radix(2 * mont.Len()), mont.Modulus());
    ProductBelow(v, rr, mont.Modulus(), Radix(mont.Len()));
    MulMontgomery(r, a, mont.RR, mont);
    IntoForm(v, rr, r.Value(), mont.Len(), mont.Modulus());
  }

  /** The table of odd powers: entry k holds x^(2k+1). */
  method OddPowers(v0: BigNum, count: nat, mont: Context, ghost x: int) returns (val: seq<BigNum>)
    requires count >= 1 && mont.Valid() && Holds(v0, x, mont)
    ensures |val| == count && forall k :: 0 <= k < count ==> Holds(val[k], Power(x, 2 * k + 1), mont)
    ensures val[0] == v0 && forall k :: 1 <= k < count ==> fresh(val[k])
  {
    hide Holds;
    var d := new BigNum.Pooled();
    MulForms(d, v0, v0, mont, x, x);
    val := [v0];
    FirstPowers(x);
    var i := 1;
    while i < count
      invariant 1 <= i <= count && |val| == i && val[0] == v0
      invariant forall k :: 0 <= k < i ==> Holds(val[k], Power(x, 2 * k + 1), mont)
      invariant forall k :: 1 <= k < i ==> fresh(val[k])
      invariant Holds(d, x * x, mont)
    {
      var v := new BigNum.Pooled();
      NextOddPower(x, i);
      MulForms(v, val[i - 1], d, mont, Power(x, 2 * i - 1), x * x);
      val := val + [v];
      i := i + 1;
    }
  }

  lemma FirstPowers(x: int)
    ensures Power(x, 0) == 1 && Power(x, 1) == x && Power(x, 2) == x * x
  {
    assert Power(x, 0) == 1;
    assert Power(x, 1) == x * Power(x, 0);
    assert Power(x, 2) == x * Power(x, 1);
  }

  lemma NextOddPower(x: int, i: nat)
    requires i >= 1
    ensures Power(x, 2 * i + 1) == Power(x, 2 * i - 1) * (x * x)
  {
    FirstPowers(x);
    PowerAdd(x, 2 * i - 1, 2);
  }

  /** The top bits of p, from bit k up. */
  function Prefix(p: nat, k: nat): (e: nat)
  {
    DivBounds(p, Two(k));
    p / Two(k)
  }

  lemma PrefixStep(p: nat, k: nat)
    ensures Prefix(p, k) == 2 * Prefix(p, k + 1) + (if Bit(p, k) then 1 else 0)
  {
    var t := Two(k);
    assert Two(k + 1) == 2 * t;
    var q := p / t;
    DivBounds(p, t);
    assert (q / 2) * (2 * t) == (2 * (q / 2)) * t;
    MulMono(q % 2, 1, t);
    assert q * t == (2 * (q / 2)) * t + (q % 2) * t;
    RemainderUnique(p, 2 * t, q / 2, (q % 2) * t + p % t);
  }

  lemma PrefixEnds(p: nat)
    ensures Prefix(p, 0) == p && Prefix(p, BitLen(p)) == 0
  {
    hide BitLen, Two;
    BitLenBounds(p);
    FirstTwos();
    QuotientUnique(p, Two(BitLen(p)), 0);
  }

  /** From a set bit at the top, the longest window of at most size bits that ends in a set bit: its value
      and its width less one. */
  method ScanWindow(p: BigNum, top: nat, size: nat) returns (wvalue: nat, wend: nat)
    requires p.Valid() && Bit(p.Mag(), top) && size >= 1
    ensures wend <= top && wend < size && wvalue % 2 == 1 && wvalue < Two(wend + 1)
    ensures Prefix(p.Mag(), top - wend) == Prefix(p.Mag(), top + 1) * Two(wend + 1) + wvalue
  {
    hide Two, Prefix, Bit;
    ghost var v, e := p.Mag(), Prefix(p.Mag(), top + 1);
    wvalue, wend := 1, 0;
    PrefixStep(v, top);
    FirstTwos();
    var i := 1;
    while i < size
      invariant 1 <= i <= size && wend < i && wend <= top && i <= top + 1
      invariant wvalue % 2 == 1 && wvalue < Two(wend + 1)
      invariant Prefix(v, top - wend) == e * Two(wend + 1) + wvalue
      invariant Prefix(v, top - (i - 1)) == Prefix(v, top - wend) * Two(i - 1 - wend)
    {
      if top < i { break; }
      PrefixStep(v, top - i);
      UpTwo(i - 1 - wend);
      DoubleProduct(Prefix(v, top - wend), Two(i - 1 - wend));
      var isSet := p.BitSet(top - i);
      if isSet {
        ExtendWindow(e, wvalue, wend, i);
        wvalue := wvalue * Two(i - wend) + 1;
        wend := i;
        assert Prefix(v, top - i) * 1 == Prefix(v, top - i);
      }
      i := i + 1;
    }
  }

  lemma FirstTwos()
    ensures Two(0) == 1 && Two(1) == 2
  {
  }

  lemma UpTwo(k: nat)
    ensures Two(k + 1) == 2 * Two(k)
  {
  }

  lemma DoubleProduct(x: int, t: int)
    ensures x * (2 * t) == 2 * (x * t)
  {
  }

  lemma ExtendWindow(e: nat, w: nat, wend: nat, i: nat)
    requires wend < i && w < Two(wend + 1)
    ensures (e * Two(wend + 1) + w) * Two(i - wend) + 1 == e * Two(i + 1) + (w * Two(i - wend) + 1)
    ensures (w * Two(i - wend) + 1) % 2 == 1 && w * Two(i - wend) + 1 < Two(i + 1)
  {
    hide Two;
    TwoAdd(wend + 1, i - wend);
    assert wend + 1 + (i - wend) == i + 1;
    UpTwo(i - wend - 1);
    DoubleProduct(w, Two(i - wend - 1));
    WindowArithmetic(e, w, Two(wend + 1), Two(i - wend));
  }

  lemma WindowArithmetic(e: int, w: int, t: int, u: int)
    requires w < t && u >= 2
    ensures (e * t + w) * u == e * (t * u) + w * u && w * u + 1 < t * u
  {
    assert (e * t + w) * u == (e * t) * u + w * u;
    assert (e * t) * u == e * (t * u);
    MulMono(w + 1, t, u);
    assert (w + 1) * u == w * u + u;
  }

  /** Square j times. */
  method SquareTimes(r: BigNum, j: nat, mont: Context, ghost x: int, ghost e: nat)
    requires mont.Valid() && r != mont.N && r != mont.RR && Holds(r, Power(x, e), mont)
    modifies r
    ensures Holds(r, Power(x, e * Two(j)), mont)
  {
    hide Holds, Two;
    FirstTwos();
    var i := 0;
    while i < j
      invariant 0 <= i <= j && Holds(r, Power(x, e * Two(i)), mont)
    {
      ghost var f := e * Two(i);
      UpTwo(i);
      DoubleProduct(e, Two(i));
      PowerAdd(x, f, f);
      MulForms(r, r, r, mont, Power(x, f), Power(x, f));
      i := i + 1;
    }
  }

  /** One window: square past it and multiply by its odd power. */
  method UseWindow(r: BigNum, v: BigNum, start: bool, wend: nat, mont: Context, ghost x: int, ghost e: nat,
                   ghost w: nat)
    requires mont.Valid() && r != mont.N && r != mont.RR && Holds(r, Power(x, e), mont)
    requires r != v && Holds(v, Power(x, w), mont) && (start ==> e == 0)
    modifies r
    ensures Holds(r, Power(x, e * Two(wend + 1) + w), mont)
  {
    hide Holds, Two;
    if !start {
      SquareTimes(r, wend + 1, mont, x, e);
    } else {
      assert 0 * Two(wend + 1) == 0;
    }
    PowerAdd(x, e * Two(wend + 1), w);
    MulForms(r, r, v, mont, Power(x, e * Two(wend + 1)), Power(x, w));
  }

  /** The main loop: r holds x to the bits of p above wstart; nothing but 1 while start holds. */
  method SlidingWindow(r: BigNum, val: seq<BigNum>, p: BigNum, size: nat, mont: Context, ghost x: int)
    requires p.Valid() && mont.Valid() && r != mont.N && r != mont.RR && r != p && r !in val
    requires size >= 1 && |val| >= Two(size - 1) && p.Mag() > 0
    requires forall k :: 0 <= k < |val| ==> Holds(val[k], Power(x, 2 * k + 1), mont)
    requires Holds(r, 1, mont)
    modifies r
    ensures Holds(r, Power(x, p.Mag()), mont)
  {
    hide Holds, Two, Prefix, Bit, BitLen;
    ghost var v := p.Mag();
    PrefixEnds(v);
    FirstPowers(x);
    BitLenBounds(v);
    var bits := p.Bits();
    var start, wstart: int := true, bits - 1;
    while wstart >= 0
      invariant -1 <= wstart && Holds(r, Power(x, Prefix(v, wstart + 1)), mont)
      invariant start ==> Prefix(v, wstart + 1) == 0
    {
      ghost var e := Prefix(v, wstart + 1);
      var isSet := p.BitSet(wstart);
      if !isSet {
        PrefixStep(v, wstart);
        if !start {
          PowerAdd(x, e, e);
          MulForms(r, r, r, mont, Power(x, e), Power(x, e));
        }
        wstart := wstart - 1;
      } else {
        var wvalue, wend := ScanWindow(p, wstart, size);
        InTable(wvalue, wend, size);
        UseWindow(r, val[wvalue / 2], start, wend, mont, x, e, wvalue);
        wstart := wstart - (wend + 1);
        start := false;
      }
    }
  }

  lemma InTable(w: nat, wend: nat, size: nat)
    requires w % 2 == 1 && w < Two(wend + 1) && wend < size
    ensures w / 2 < Two(size - 1) && 2 * (w / 2) + 1 == w
  {
    TwoMonotone(wend, size - 1);
    UpTwo(wend);
  }

  /** BN_window_bits_for_exponent_size. */
  function WindowBits(b: nat): (w: nat)
    ensures 1 <= w <= 6
  {
    if b > 671 then 6 else if b > 239 then 5 else if b > 79 then 4 else if b > 23 then 3 else 1
  }

  /** The expected number of multiplications for an exponent of b bits and windows of w bits, up to a constant: the odd
      powers, and a window every w + 1 bits. */
  function Cost(b: nat, w: nat): (c: real)
    requires w >= 2
  {
    Two(w - 1) as real + (b as real - w as real) / (w + 1) as real
  }

  /** From 24 bits on no other window of up to six bits costs less; one costs the same exactly at the thresholds. */
  lemma WindowBest(b: nat, w: nat)
    requires b > 23 && 2 <= w <= 6
    ensures WindowBits(b) >= 2 && Cost(b, WindowBits(b)) <= Cost(b, w)
    ensures w != WindowBits(b) ==>
      (Cost(b, WindowBits(b)) == Cost(b, w) <==> w == WindowBits(b) + 1 && b in {79, 239, 671})
  {
    assert Two(1) == 2 && Two(2) == 4 && Two(3) == 8;
    assert Two(4) == 16 && Two(5) == 32;
  }

  method TableSize(window: nat) returns (count: nat)
    requires 1 <= window
    ensures count == Two(window - 1) && count >= 1
  {
    count := Two(window - 1);
  }

  /** The context the caller passed, or a new one for m. */
  method PrepareContext(inMont: Context?, m: BigNum, limit: nat) returns (mont: Context)
    requires m.Valid() && m.d != [] && m.Mag() % 2 == 1
    requires inMont != null ==> inMont.Valid() && inMont.Modulus() == m.Mag()
    ensures mont.Valid() && mont.Modulus() == m.Mag()
    ensures mont == inMont || (fresh(mont) && fresh(mont.N) && fresh(mont.RR))
  {
    if inMont != null {
      mont := inMont;
    } else {
      mont := new Context();
      var ok := mont.Set(m, limit);
    }
  }

  /** The base, reduced unless it is already. A zero with its sign flag set becomes |m|. */
  method ReduceBase(a: BigNum, m: BigNum) returns (aa: BigNum)
    requires a.Valid() && m.Valid() && m.Mag() > 0
    ensures aa.Valid() && (aa == a || fresh(aa)) && 0 <= aa.Value() <= m.Mag()
    ensures Cong(aa.Value(), a.Value(), m.Mag())
  {
    hide Val;
    ZeroMagnitude(a.d);
    CongRefl(a.Value(), m.Mag());
    CongBy(m.Mag(), 0, m.Mag(), 1);
    var order := a.UCmp(m);
    if a.neg || order >= 0 {
      aa := new BigNum.Pooled();
      var _ := NNMod(aa, a, m);
      ModCong(a.Value(), m.Mag());
    } else {
      aa := a;
    }
  }

  /** What both exponentiations return: a^p mod m, except that an exponent of zero gives 1 at once. */
  function ExpResult(a: int, p: nat, m: int): (r: int)
    requires m > 0
  {
    if p == 0 then 1 else Power(a, p) % m
  }

  /** The early return is wrong exactly for the modulus 1. */
  lemma ExpResultExact(a: int, p: nat, m: int)
    requires m > 0
    ensures ExpResult(a, p, m) == Power(a, p) % m <==> !(p == 0 && m == 1)
  {
  }

  lemma ExpOfCongruent(a: int, b: int, p: nat, m: int)
    requires m > 0 && p > 0 && Cong(a, b, m)
    ensures Power(a, p) % m == ExpResult(b, p, m)
    ensures a == 0 ==> ExpResult(b, p, m) == 0
  {
    PowerCong(a, b, p, m);
    ModCong(Power(a, p), m);
    CongTrans(Power(a, p) % m, Power(a, p), Power(b, p), m);
    ModIs(Power(b, p), Power(a, p) % m, m);
  }

  /** The Montgomery part of BN_mod_exp_mont: r holds the form of aa^p. */
  method ExpForm(r: BigNum, aa: BigNum, p: BigNum, mont: Context, ghost x: int)
    requires aa.Valid() && p.Valid() && p.Mag() > 0 && mont.Valid() && x == aa.Value()
    requires 0 <= x <= mont.Modulus() && r != mont.N && r != mont.RR && r != aa && r != p
    modifies r
    ensures Holds(r, Power(x, p.Mag()), mont)
  {
    hide Holds, Val, Radix, Two, Cong, BitLen, Power, NegatesInverse;
    ValBound(mont.N.d);
    RadixAtLeast(mont.N.d);
    var v0 := new BigNum.Pooled();
    ToMontgomery(v0, aa, mont);
    var bits := p.Bits();
    var window := WindowBits(bits);
    var val := [v0];
    FirstPowers(x);
    var count := TableSize(window);
    if window > 1 { val := OddPowers(v0, count, mont, x); }
    FirstTwos();
    var one := new BigNum.Pooled();
    one.SetWord(1);
    ToMontgomery(r, one, mont);
    SlidingWindow(r, val, p, window, mont, x);
  }

  lemma RadixAtLeast(s: seq<Word>)
    requires s != []
    ensures Radix(|s|) >= BASE
  {
    assert Radix(|s|) == BASE * Radix(|s| - 1);
    MulMono(1, Radix(|s| - 1), BASE);
  }

  /** BN_mod_exp_mont fails for an even modulus; otherwise it computes a^p mod |m| for a of either sign.
      rr may be any of the operands. */
  method ModExpMont(rr: BigNum, a: BigNum, p: BigNum, m: BigNum, inMont: Context?, limit: nat) returns (ok: bool)
    requires a.Valid() && p.Valid() && m.Valid() && m.d != []
    requires inMont != null && m.Mag() % 2 == 1 ==>
      inMont.Valid() && inMont.Modulus() == m.Mag() && rr != inMont.N && rr != inMont.RR
    modifies rr
    ensures ok == old(m.Mag() % 2 == 1)
    ensures ok ==> rr.Valid() && rr.Value() == ExpResult(old(a.Value()), old(p.Mag()), old(m.Mag()))
  {
    hide Val, Radix, Cong, Holds, Reduction, InForm, Power;
    ghost var x, e, n: nat := a.Value(), p.Mag(), m.Mag();
    ok := m.IsOdd();
    if !ok { return; }
    ZeroMagnitude(p.d);
    var bits := p.Bits();
    BitLenBounds(e);
    if bits == 0 {
      rr.SetWord(1);
      return;
    }
    var mont := PrepareContext(inMont, m, limit);
    var aa := ReduceBase(a, m);
    ghost var y := aa.Value();
    ExpOfCongruent(y, x, e, n);
    ZeroMagnitude(aa.d);
    if aa.d == [] {
      rr.SetWord(0);
      return;
    }
    var r := new BigNum.Pooled();
    ExpForm(r, aa, p, mont, y);
    LeaveForm(rr, r, mont, Power(y, e));
  }

  method LeaveForm(rr: BigNum, r: BigNum, mont: Context, ghost x: int)
    requires mont.Valid() && rr != mont.N && rr != mont.RR && Holds(r, x, mont)
    modifies rr
    ensures rr.Valid() && mont.Modulus() > 0 && rr.Value() == x % mont.Modulus()
  {
    hide Val, Radix, Cong;
    ghost var v := r.Value();
    FormRoom(r, mont);
    FromMontgomery(rr, r, mont);
    OutOfForm(v, x, rr.Value(), mont.Len(), mont.Modulus());
  }

  lemma FormRoom(r: BigNum, mont: Context)
    requires mont.Valid() && r.Valid() && 0 <= r.Value() < mont.Modulus()
    ensures r.Mag() == r.Value() < mont.Modulus() * Radix(mont.Len())
  {
    hide Val, Radix;
    MulMono(1, Radix(mont.Len()), mont.Modulus());
  }
}
