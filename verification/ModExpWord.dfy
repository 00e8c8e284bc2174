/** BN_mod_exp_mont_word: a one-word base. The running power is kept as a product r*w, w being collected
    in a word until it overflows. */
module ModExpWord {
  import opened Words
  import opened WordQuotient
  import opened Bits
  import opened Magnitudes
  import opened BigNums
  import opened BigDivision
  import opened ModArith
  import opened Montgomery
  import opened ModExp
  import ModInverse

  /** The product of two words in one word. */
  function WrappedProduct(w: int, f: int): (r: Word)
  {
    (w * f) % BASE
  }

  /** Dividing the wrapped product by one factor gives the other back exactly if nothing was lost. */
  lemma OverflowShows(w: nat, f: nat)
    requires f >= 1
    ensures WrappedProduct(w, f) / f == w <==> w * f < BASE
    ensures w * f < BASE ==> WrappedProduct(w, f) == w * f
  {
    var x := w * f;
    if x < BASE {
      RemainderUnique(x, f, w, 0);
    } else {
      DivBounds(x, BASE);
      var k := x / BASE;
      assert k <= 0 ==> k * BASE <= 0;
      var y := x % BASE;
      DivBounds(y, f);
      if y / f >= w { MulMono(w, y / f, f); }
    }
  }

  /** What r stands for: the form of y, or nothing yet while isOne holds. */
  ghost predicate Stands(r: BigNum, isOne: bool, y: int, mont: Context)
    reads r, mont, mont.N
  {
    if isOne then y == 1 else Holds(r, y, mont)
  }

  ghost predicate Usable(r: BigNum, t: BigNum, m: BigNum, mont: Context)
    reads m, mont, mont.N, mont.RR
  {
    && r != t && mont.Valid() && m.Valid() && m.Mag() == mont.Modulus()
    && r != m && t != m && r != mont.N && r != mont.RR && t != mont.N && t != mont.RR
  }

  /** The two objects, possibly exchanged. */
  predicate SamePair(r: BigNum, t: BigNum, r': BigNum, t': BigNum)
  {
    (r' == r && t' == t) || (r' == t && t' == r)
  }

  /** A form times a word, reduced, is the form of the product. */
  lemma ScaleForm(v: int, y: int, w: int, n: nat, m: int)
    requires InForm(v, y, n, m)
    ensures InForm((v * w) % m, y * w, n, m)
  {
    var p: int := Radix(n);
    ModCong(v * w, m);
    CongScale(w, v, y * p, m);
    MulComm(w, v);
    assert w * (y * p) == (y * w) * p;
    CongTrans((v * w) % m, v * w, (y * w) * p, m);
  }

  /** Multiply r by the collected word: BN_TO_MONTGOMERY_WORD while r is one, BN_MOD_MUL_WORD afterwards. */
  method FoldWord(r: BigNum, t: BigNum, isOne: bool, w: Word, m: BigNum, mont: Context, ghost y: int)
    returns (r': BigNum, t': BigNum)
    requires Usable(r, t, m, mont) && Stands(r, isOne, y, mont)
    modifies r, t
    ensures SamePair(r, t, r', t') && Holds(r', y * w, mont)
  {
    hide Val, Radix, Cong, InForm, Two, Truncated;
    r', t' := r, t;
    if isOne {
      RadixAtLeast(mont.N.d);
      r.SetWord(w);
      ToMontgomery(r, r, mont);
    } else {
      ghost var v := r.Value();
      FormRange(v, y, mont.Len(), mont.Modulus());
      r.TimesWord(w);
      MulMono(0, v, w);
      ScaleForm(v, y, w, mont.Len(), mont.Modulus());
      ZeroMagnitude(m.d);
      var _ := Div(null, t, r, m);
      PositiveRem(v * w, m.Value());
      r', t' := t, r;
    }
  }

  lemma FormRange(v: int, y: int, n: nat, m: int)
    requires InForm(v, y, n, m)
    ensures 0 <= v < m
  {
  }

  lemma PositiveRem(x: nat, m: int)
    requires m != 0
    ensures Rem(x, m) == x % Absolute(m)
  {
  }

  /** First half of a round: square r*w. */
  method SquareProduct(r: BigNum, t: BigNum, isOne: bool, w: Word, m: BigNum, mont: Context, ghost y: int)
    returns (r': BigNum, t': BigNum, isOne': bool, w': Word, ghost y': int)
    requires Usable(r, t, m, mont) && Stands(r, isOne, y, mont) && w >= 1
    modifies r, t
    ensures SamePair(r, t, r', t') && Stands(r', isOne', y', mont) && w' >= 1
    ensures y' * w' == (y * w) * (y * w)
  {
    hide Holds, Val, Radix, Cong, WrappedProduct;
    r', t', isOne', w', y' := r, t, isOne, w, y;
    var next: Word := WrappedProduct(w, w);
    OverflowShows(w, w);
    MulMono(1, w, w);
    if next / w != w {
      r', t' := FoldWord(r, t, isOne, w, m, mont, y);
      y', isOne' := y * w, false;
      next := 1;
    }
    w' := next;
    SquareRegroup(y, w);
    if !isOne' {
      MulForms(r', r', r', mont, y', y');
      y' := y' * y';
    }
  }

  lemma SquareRegroup(y: int, w: int)
    ensures (y * y) * (w * w) == (y * w) * (y * w)
  {
    var k := y * w;
    assert k * k == y * (w * k) == y * (w * (y * w)) == y * (y * (w * w));
  }

  /** Second half of a round: multiply by the base if the exponent bit is set. */
  method TimesBase(r: BigNum, t: BigNum, isOne: bool, w: Word, a: Word, m: BigNum, mont: Context, ghost y: int)
    returns (r': BigNum, t': BigNum, isOne': bool, w': Word, ghost y': int)
    requires Usable(r, t, m, mont) && Stands(r, isOne, y, mont) && w >= 1 && a >= 1
    modifies r, t
    ensures SamePair(r, t, r', t') && Stands(r', isOne', y', mont) && w' >= 1
    ensures y' * w' == (y * w) * a
  {
    hide Holds, WrappedProduct;
    r', t', isOne', y' := r, t, isOne, y;
    var next: Word := WrappedProduct(w, a);
    OverflowShows(w, a);
    MulMono(1, w, a);
    Assoc(y, w, a);
    if next / a != w {
      r', t' := FoldWord(r, t, isOne, w, m, mont, y);
      y', isOne' := y * w, false;
      next := a;
    }
    w' := next;
  }

  lemma TopPrefix(p: nat)
    requires p > 0
    ensures BitLen(p) >= 1 && Prefix(p, BitLen(p) - 1) == 1
  {
    PrefixEnds(p);
    BitLenBounds(p);
    PrefixStep(p, BitLen(p) - 1);
    var t := Two(BitLen(p) - 1);
    QuotientUnique(p, t, 1);
  }

  /** The loop over the exponent bits below the top one. */
  method WordPowers(r0: BigNum, t0: BigNum, a: Word, p: BigNum, m: BigNum, mont: Context)
    returns (r: BigNum, t: BigNum, isOne: bool, w: Word, ghost y: int)
    requires Usable(r0, t0, m, mont) && p.Valid() && p.Mag() > 0 && r0 != p && t0 != p && a >= 1
    modifies r0, t0
    ensures SamePair(r0, t0, r, t) && Stands(r, isOne, y, mont) && w >= 1
    ensures y * w == Power(a, p.Mag())
  {
    hide Holds, Stands, Prefix, Bit, BitLen, Val;
    ghost var v := p.Mag();
    PrefixEnds(v);
    TopPrefix(v);
    FirstPowers(a);
    r, t, isOne, w, y := r0, t0, true, a, 1;
    NothingYet(r, mont);
    var bits := p.Bits();
    var b := bits as int - 2;
    while b >= 0
      invariant -1 <= b && SamePair(r0, t0, r, t) && Stands(r, isOne, y, mont) && w >= 1
      invariant y * w == Power(a, Prefix(v, b + 1))
    {
      ghost var e := Prefix(v, b + 1);
      PrefixStep(v, b);
      PowerAdd(a, e, e);
      r, t, isOne, w, y := SquareProduct(r, t, isOne, w, m, mont, y);
      var isSet := p.BitSet(b);
      if isSet {
        PowerAdd(a, 2 * e, 1);
        r, t, isOne, w, y := TimesBase(r, t, isOne, w, a, m, mont, y);
      }
      b := b - 1;
    }
  }

  lemma NothingYet(r: BigNum, mont: Context)
    ensures Stands(r, true, 1, mont)
  {
  }

  /** A base reduced modulo a one-word modulus gives the same power. */
  lemma ReducedWord(a: int, b: int, p: nat, m: int)
    requires m > 0 && p > 0 && (b == a || b == a % m)
    ensures Power(b, p) % m == ExpResult(a, p, m)
    ensures b == 0 ==> ExpResult(a, p, m) == 0
  {
    ModCong(a, m);
    CongRefl(a, m);
    ExpOfCongruent(b, a, p, m);
  }

  /** The last step: multiply by what is left in w and leave the form. */
  method FinishWord(rr: BigNum, r: BigNum, t: BigNum, isOne: bool, w: Word, m: BigNum, mont: Context, ghost y: int)
    requires Usable(r, t, m, mont) && Stands(r, isOne, y, mont) && rr != mont.N && rr != mont.RR
    requires mont.Modulus() > 1
    modifies rr, r, t
    ensures rr.Valid() && mont.Modulus() > 0 && rr.Value() == (y * w) % mont.Modulus()
  {
    hide Holds, Val, Cong, Radix;
    var r', isOne' := r, isOne;
    ghost var y' := y;
    OneLeft(y, mont.Modulus());
    if w != 1 {
      var t';
      r', t' := FoldWord(r, t, isOne, w, m, mont, y);
      y', isOne' := y * w, false;
    }
    if isOne' {
      rr.SetWord(1);
    } else {
      LeaveForm(rr, r', mont, y');
    }
  }

  lemma OneLeft(y: int, m: int)
    requires m > 1
    ensures y * 1 == y && 1 % m == 1
  {
  }

  /** BN_mod_exp_mont_word fails for an even modulus (0 included); otherwise it agrees with
      BN_mod_exp_mont on the same base. */
  method ModExpMontWord(rr: BigNum, a0: Word, p: BigNum, m: BigNum, inMont: Context?, limit: nat) returns (ok: bool)
    requires p.Valid() && m.Valid()
    requires inMont != null && m.Mag() % 2 == 1 ==>
      inMont.Valid() && inMont.Modulus() == m.Mag() && rr != inMont.N && rr != inMont.RR
    modifies rr
    ensures ok == old(m.Mag() % 2 == 1)
    ensures ok ==> rr.Valid() && rr.Value() == ExpResult(a0, old(p.Mag()), old(m.Mag()))
  {
    hide Val, Radix, Cong, Holds, Stands, Power;
    ghost var e, n: nat := p.Mag(), m.Mag();
    var a := a0;
    ok := m.IsOdd();
    if !ok { return; }
    ZeroMagnitude(m.d);
    ModInverse.WordList(m.d);
    if |m.d| == 1 { a := a % m.d[0]; }
    ZeroMagnitude(p.d);
    var bits := p.Bits();
    BitLenBounds(e);
    if bits == 0 {
      rr.SetWord(1);
      return;
    }
    ReducedWord(a0, a, e, n);
    if a == 0 {
      rr.SetWord(0);
      return;
    }
    LongModulus(m.d, a);
    var r := new BigNum.Pooled();
    var t := new BigNum.Pooled();
    var mont := PrepareContext(inMont, m, limit);
    var isOne, w;
    ghost var y;
    r, t, isOne, w, y := WordPowers(r, t, a, p, m, mont);
    FinishWord(rr, r, t, isOne, w, m, mont, y);
  }

  lemma LongModulus(s: seq<Word>, a: nat)
    requires Normal(s) && s != [] && a >= 1 && (|s| == 1 ==> a < Val(s))
    ensures Val(s) > 1
  {
    NormalBound(s);
    if |s| > 1 { RadixAtLeast(s[1..]); }
  }
}
