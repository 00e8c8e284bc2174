/** BIGNUM objects: a sign and a word list that every operation may reallocate. An operand may be
    the result object itself, as bn.c allows ("r can == a or b"). */
module BigNums {
  import opened Words
  import opened Bits
  import opened Magnitudes
  import opened Shifts

  class BigNum {
    var neg: bool
    var d: seq<Word>

    ghost predicate Valid()
      reads this
    {
      Normal(d)
    }

    /** The integer this object stands for. */
    ghost function Value(): (v: int)
      reads this
    {
      SignedValue(neg, Val(d))
    }

    /** A zero with its sign flag set; bn.c can produce one (BN_lshift, BN_copy keep the flag). */
    predicate NegativeZero()
      reads this
    {
      neg && d == []
    }

    ghost function Mag(): (v: nat)
      reads this
    {
      Val(d)
    }

    constructor ()
      ensures Valid() && Value() == 0 && !neg
    {
      neg, d := false, [];
    }

    /** A temporary taken from the context pool: it still holds whatever was left in it. */
    constructor Pooled()
    {
      neg := *;
      d := *;
    }

    /** BN_copy. */
    method Copy(a: BigNum)
      requires a.Valid()
      modifies this
      ensures Valid() && d == old(a.d) && neg == old(a.neg)
    {
      d, neg := a.d, a.neg;
    }

    /** BN_set_word, BN_zero and BN_one. */
    method SetWord(w: Word)
      modifies this
      ensures Valid() && !neg && Value() == w && d == (if w == 0 then [] else [w])
    {
      ValSingle(w);
      neg := false;
      d := if w == 0 then [] else [w];
    }

    /** BN_uadd: magnitudes only, result non-negative. */
    method UAdd(a: BigNum, b: BigNum)
      requires a.Valid() && b.Valid()
      modifies this
      ensures Valid() && !neg && Value() == old(a.Mag()) + old(b.Mag())
    {
      var r := AddMagnitudes(a.d, b.d);
      d, neg := r, false;
    }

    /** BN_usub: refuses when a is shorter than b. */
    method USub(a: BigNum, b: BigNum) returns (ok: bool)
      requires a.Valid() && b.Valid() && b.Mag() <= a.Mag()
      modifies this
      ensures ok && Valid() && !neg && Value() == old(a.Mag()) - old(b.Mag())
    {
      ValMonotoneLength(a.d, b.d);
      if |a.d| < |b.d| { return false; }
      var r := SubMagnitudes(a.d, b.d);
      d, neg := r, false;
      ok := true;
    }

    /** BN_ucmp. */
    method UCmp(b: BigNum) returns (r: int)
      requires Valid() && b.Valid()
      ensures r < 0 <==> Mag() < b.Mag()
      ensures r > 0 <==> Mag() > b.Mag()
    {
      r := CompareMagnitudes(d, b.d);
    }

    /** BN_add: for unlike signs the smaller magnitude is taken from the larger. */
    method Add(a0: BigNum, b0: BigNum)
      requires a0.Valid() && b0.Valid()
      modifies this
      ensures Valid() && Value() == old(a0.Value()) + old(b0.Value())
      ensures NegativeZero() ==> old(a0.NegativeZero())
    {
      ZeroMagnitude(a0.d); ZeroMagnitude(b0.d);
      var a, b := a0, b0;
      var aNeg := a.neg;
      if aNeg != b.neg {
        if aNeg { a, b := b0, a0; }
        var c := a.UCmp(b);
        if c < 0 {
          var _ := USub(b, a);
          ZeroMagnitude(d);
          neg := true;
        } else {
          var _ := USub(a, b);
          neg := false;
        }
        return;
      }
      UAdd(a, b);
      ZeroMagnitude(d);
      neg := aNeg;
    }

    /** BN_sub. */
    method Sub(a0: BigNum, b0: BigNum)
      requires a0.Valid() && b0.Valid()
      modifies this
      ensures Valid() && Value() == old(a0.Value()) - old(b0.Value())
      ensures NegativeZero() ==> old(a0.NegativeZero())
    {
      ZeroMagnitude(a0.d); ZeroMagnitude(b0.d);
      var a, b := a0, b0;
      var add, negate := false, false;
      if a.neg {
        if b.neg { a, b := b0, a0; } else { add, negate := true, true; }
      } else {
        if b.neg { add, negate := true, false; }
      }
      if add {
        UAdd(a, b);
        ZeroMagnitude(d);
        neg := negate;
        return;
      }
      var c := a.UCmp(b);
      if c < 0 {
        var _ := USub(b, a);
        ZeroMagnitude(d);
        neg := true;
      } else {
        var _ := USub(a, b);
        neg := false;
      }
    }

    /** BN_lshift keeps the sign. */
    method ShiftLeft(a: BigNum, n: nat)
      requires a.Valid()
      modifies this
      ensures Valid() && neg == old(a.neg) && Mag() == old(a.Mag()) * Two(n)
    {
      var r := LShift(a.d, n);
      neg := a.neg;
      d := r;
    }

    method ShiftLeft1(a: BigNum)
      requires a.Valid()
      modifies this
      ensures Valid() && neg == old(a.neg) && Mag() == 2 * old(a.Mag())
    {
      var r := LShift1(a.d);
      neg := a.neg;
      d := r;
    }

    /** BN_rshift keeps the sign unless everything is shifted out as whole words. */
    method ShiftRight(a: BigNum, n: nat)
      requires a.Valid()
      modifies this
      ensures Valid() && Mag() == old(a.Mag()) / Two(n) && (neg ==> old(a.neg))
      ensures Mag() != 0 ==> neg == old(a.neg)
    {
      if n / 32 > |a.d| || a.d == [] {
        ShiftedOut(a.d, n);
        neg, d := false, [];
        return;
      }
      var r := RShift(a.d, n);
      neg := a.neg;
      d := r;
    }

    method ShiftRight1(a: BigNum)
      requires a.Valid()
      modifies this
      ensures Valid() && Mag() == old(a.Mag()) / 2 && (Mag() != 0 ==> neg == old(a.neg)) && (neg ==> old(a.neg))
    {
      if a.d == [] {
        neg, d := false, [];
        return;
      }
      var r := RShift1(a.d);
      neg := a.neg;
      d := r;
    }

    /** BN_mul_word. */
    method TimesWord(w: Word)
      requires Valid()
      modifies this
      ensures Valid() && Value() == old(Value()) * w && (neg ==> old(neg))
    {
      ghost var v := Val(d);
      var wasZero := d == [];
      var r := MulWord(d, w);
      d := r;
      if !wasZero && w == 0 { neg := false; }
      SignTimes(neg, v, w);
    }

    /** BN_add_word. Zero plus zero comes out as a zero word, which is not normalised. */
    method PlusWord(w: Word)
      requires Valid()
      modifies this
      ensures Value() == old(Value()) + w
      ensures Valid() <==> old(Mag()) != 0 || w != 0
      ensures Valid() ==> (neg <==> old(neg) && old(Mag()) > w)
      decreases if neg then 2 else 0
    {
      hide Val;
      ZeroMagnitude(d);
      EmptyVal();
      if neg {
        neg := false;
        MinusWord(w);
        ZeroWord(d);
        if !(d == [] || d == [0]) { neg := !neg; }
        return;
      }
      var r := AddToWords(d, w);
      d := r;
    }

    /** BN_sub_word. */
    method MinusWord(w: Word)
      requires Valid()
      modifies this
      ensures Value() == old(Value()) - w
      ensures Valid() <==> old(Mag()) != 0 || w != 0
      ensures Valid() ==> (neg <==> old(neg) || old(Mag()) < w)
      decreases if neg || d == [] then 1 else 0
    {
      hide Val;
      ZeroMagnitude(d);
      EmptyVal();
      if d == [] || neg {
        neg := false;
        PlusWord(w);
        neg := true;
        return;
      }
      WordOrMore(d, w);
      if |d| == 1 && d[0] < w {
        ValSingle(w - d[0]);
        d := [w - d[0]];
        neg := true;
        return;
      }
      var r := SubWord(d, w);
      d := r;
    }

    /** BN_set_bit. */
    method SetBit(n: nat)
      requires Valid()
      modifies this
      ensures Valid() && neg == old(neg)
      ensures Mag() == (if Bit(old(Mag()), n) then old(Mag()) else old(Mag()) + Two(n))
    {
      var r := SetBitIn(d, n);
      d := r;
    }

    method IsOdd() returns (r: bool)
      requires Valid()
      ensures r <==> Mag() % 2 == 1
    {
      LowBit(d);
      r := d != [] && d[0] % 2 == 1;
    }

    method Bits() returns (n: nat)
      requires Valid()
      ensures n == BitLen(Mag())
    {
      n := NumBits(d);
    }

    method BitSet(n: nat) returns (r: bool)
      ensures r == Bit(Mag(), n)
    {
      r := IsBitSet(d, n);
    }
  }

  lemma SignTimes(neg: bool, v: int, w: int)
    ensures SignedValue(neg, v * w) == SignedValue(neg, v) * w
  {
    assert (-v) * w == -(v * w);
  }

  lemma LowBit(s: seq<Word>)
    ensures Val(s) % 2 == (if s == [] then 0 else s[0] % 2)
  {
    if s != [] {
      assert BASE * Val(s[1..]) == 2 * (0x8000_0000 * Val(s[1..]));
    }
  }

  /** BN_is_zero also knows the zero word. */
  lemma ZeroWord(s: seq<Word>)
    ensures s == [0] ==> Val(s) == 0 && !Normal(s)
    ensures Normal(s) ==> (s == [] <==> Val(s) == 0)
  {
    ValSingle(0);
    if Normal(s) { ZeroMagnitude(s); }
  }

  /** A number of one word is that word, a longer one is at least as large as any word. */
  lemma WordOrMore(s: seq<Word>, w: Word)
    requires Normal(s) && s != []
    ensures |s| == 1 ==> Val(s) == s[0]
    ensures |s| > 1 ==> Val(s) >= BASE
  {
    if |s| == 1 {
      ValSingle(s[0]);
    } else {
      NormalBound(s);
      RadixMonotone(1, |s| - 1);
    }
  }
}
