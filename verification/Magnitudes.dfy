/** The unsigned BIGNUM routines on word lists: BN_uadd, BN_usub and BN_ucmp. A BIGNUM's words d[0..top)
    are a sequence without leading zero word. */
module Magnitudes {
  import opened Words
  import opened Kernels

  lemma TopNonzero(s: seq<Word>)
    requires s != [] && Val(s) >= Radix(|s| - 1)
    ensures Normal(s)
  {
    var k := |s| - 1;
    assert s == s[..k] + [s[k]];
    ValSnoc(s[..k], s[k]);
    ValBound(s[..k]);
    var x: int, r := s[k], Radix(k);
    assert x == 0 ==> x * r == 0;
  }

  lemma Extend(r: seq<Word>, w: Word, i: nat)
    requires |r| == i
    ensures Val(r + [w]) == Val(r) + w * Radix(i)
  {
    ValSnoc(r, w);
  }

  /** The second loop of BN_uadd: a carry of one travels up through the longer operand. */
  method PropagateCarry(a: seq<Word>, i0: nat, r0: seq<Word>, ghost v: int) returns (r: seq<Word>)
    requires i0 <= |a| && |r0| == i0 && Val(r0) + Radix(i0) == v
    ensures Val(r) == v + Radix(i0) * Val(a[i0..])
    ensures |a| <= |r| <= |a| + 1 && (|r| > |a| ==> r[|a|] == 1)
  {
    hide Val, Radix;
    r := r0;
    var i, carry := i0, 1;
    ghost var rest := Radix(i0) * Val(a[i0..]);
    while i < |a| && carry == 1
      invariant i0 <= i <= |a| && |r| == i && (carry == 0 || carry == 1)
      invariant Val(r) + carry * Radix(i) + Radix(i) * Val(a[i..]) == v + rest
    {
      var t1 := a[i];
      var w: Word := (t1 + 1) % BASE;
      Extend(r, w, i);
      CarryWord(a, i, t1, w);
      r := r + [w];
      if w >= t1 { carry := 0; }
      i := i + 1;
    }
    if carry == 1 {
      assert a[i..] == [];
      EmptyVal();
      Extend(r, 1, i);
      r := r + [1];
    } else {
      ValAppend(r, a[i..]);
      r := r + a[i..];
    }
  }

  lemma CarryWord(a: seq<Word>, i: nat, t: Word, w: Word)
    requires i < |a| && t == a[i] && w as int == (t as int + 1) % BASE
    ensures Radix(i) + Radix(i) * Val(a[i..])
         == w * Radix(i) + (if w >= t then 0 else Radix(i + 1)) + Radix(i + 1) * Val(a[i + 1..])
  {
    assert a[i..][0] == t && a[i..][1..] == a[i + 1..];
    assert Radix(i + 1) == BASE * Radix(i) && Val(a[i..]) == t + BASE * Val(a[i + 1..]);
    hide Val, Radix;
    var p, h := Radix(i), Val(a[i + 1..]);
    assert p * (t + BASE * h) == t * p + (BASE * p) * h;
    assert t * p + p == (t + 1) * p;
    if w < t { assert t == BASE - 1 && w == 0; } else { assert w as int == t as int + 1; }
  }

  /** BN_uadd on the words. */
  method AddMagnitudes(a0: seq<Word>, b0: seq<Word>) returns (r: seq<Word>)
    requires Normal(a0) && Normal(b0)
    ensures Val(r) == Val(a0) + Val(b0) && Normal(r)
  {
    hide Val, Radix, SumOf, Normal;
    var a, b := a0, b0;
    if |a| < |b| { a, b := b0, a0; }
    r := [];
    var carry: Word := 0;
    var i := 0;
    StartSum(a, b);
    while i < |b|
      invariant 0 <= i <= |b| && |r| == i && carry <= 1
      invariant SumOf(Val(r), carry, a, b, i)
    {
      var t: Word := (a[i] as int + carry as int) % BASE;
      ghost var c0 := carry;
      carry := if t < carry then 1 else 0;
      var l: Word := (t as int + b[i] as int) % BASE;
      if l < t { carry := carry + 1; }
      AddWord(a[i], b[i], c0, t, l, carry);
      AddStep(a, b, i, Val(r), c0, l, carry);
      Extend(r, l, i);
      r := r + [l];
      i := i + 1;
    }
    SumDone(a, b, Val(r), carry);
    if carry == 1 {
      r := PropagateCarry(a, i, r, Val(a[..i]) + Val(b));
    } else {
      ValAppend(r, a[i..]);
      r := r + a[i..];
    }
    SumNormal(a, b, r);
  }

  lemma StartSum(a: seq<Word>, b: seq<Word>)
    ensures SumOf(Val([]), 0, a, b, 0)
  {
    assert a[..0] == [] && b[..0] == [];
  }

  lemma SumDone(a: seq<Word>, b: seq<Word>, v: int, c: int)
    requires |b| <= |a| && SumOf(v, c, a, b, |b|)
    ensures v + c * Radix(|b|) == Val(a[..|b|]) + Val(b)
    ensures Val(a) == Val(a[..|b|]) + Radix(|b|) * Val(a[|b|..])
  {
    assert b[..|b|] == b;
    ValSplit(a, |b|);
  }

  lemma SumNormal(a: seq<Word>, b: seq<Word>, r: seq<Word>)
    requires Normal(a) && Normal(b) && Val(r) == Val(a) + Val(b) && |b| <= |a| <= |r| <= |a| + 1
    requires |r| > |a| ==> r[|a|] == 1
    ensures Normal(r)
  {
    if |r| == |a| && a != [] {
      NormalBound(a);
      TopNonzero(r);
    }
  }

  /** The second loop of BN_usub: a borrow of one travels up. */
  method PropagateBorrow(a: seq<Word>, i0: nat, r0: seq<Word>, ghost v: int) returns (r: seq<Word>)
    requires i0 <= |a| && |r0| == i0 && Val(r0) - Radix(i0) == v
    requires v + Radix(i0) * Val(a[i0..]) >= 0
    ensures Val(r) == v + Radix(i0) * Val(a[i0..])
  {
    hide Val, Radix;
    r := r0;
    var i, carry := i0, 1;
    ghost var rest := Radix(i0) * Val(a[i0..]);
    while i < |a| && carry == 1
      invariant i0 <= i <= |a| && |r| == i && (carry == 0 || carry == 1)
      invariant Val(r) - carry * Radix(i) + Radix(i) * Val(a[i..]) == v + rest
    {
      var t1 := a[i];
      var t2: Word := (t1 as int - 1) % BASE;
      Extend(r, t2, i);
      BorrowWordUp(a, i, t1, t2);
      r := r + [t2];
      if t1 > t2 { carry := 0; }
      i := i + 1;
    }
    if carry == 1 {
      assert a[i..] == [];
      EmptyVal();
      ValBound(r);
      assert false;
    }
    ValAppend(r, a[i..]);
    r := r + a[i..];
  }

  lemma BorrowWordUp(a: seq<Word>, i: nat, t: Word, w: Word)
    requires i < |a| && t == a[i] && w as int == (t as int - 1) % BASE
    ensures Radix(i) * Val(a[i..]) - Radix(i)
         == w * Radix(i) - (if t > w then 0 else Radix(i + 1)) + Radix(i + 1) * Val(a[i + 1..])
  {
    assert a[i..][0] == t && a[i..][1..] == a[i + 1..];
    var p, h := Radix(i), Val(a[i + 1..]);
    assert p * (t + BASE * h) == t * p + (BASE * p) * h;
    if t > w { assert w as int == t as int - 1; } else { assert t == 0 && w == BASE - 1; }
  }

  /** v minus the borrow c is the difference of the first i words of s and t. */
  ghost predicate DifferenceOf(v: int, c: int, s: seq<Word>, t: seq<Word>, i: nat)
    requires i <= |s| && i <= |t|
  {
    v - c * Radix(i) == Val(s[..i]) - Val(t[..i])
  }

  /** BN_usub on the words; a must not be below b. */
  method SubMagnitudes(a: seq<Word>, b: seq<Word>) returns (r: seq<Word>)
    requires |b| <= |a| && Val(b) <= Val(a)
    ensures Val(r) == Val(a) - Val(b) && Normal(r)
  {
    hide Val, Radix;
    r := [];
    var carry: Word := 0;
    var i := 0;
    assert DifferenceOf(Val([]), 0, a, b, 0) by { assert a[..0] == [] && b[..0] == []; EmptyVal(); }
    while i < |b|
      invariant 0 <= i <= |b| && |r| == i && carry <= 1
      invariant DifferenceOf(Val(r), carry, a, b, i)
    {
      var t1, t2 := a[i], b[i];
      var w: Word;
      ghost var c0 := carry;
      if carry == 1 {
        carry := if t1 <= t2 then 1 else 0;
        w := (t1 as int - t2 as int - 1) % BASE;
      } else {
        carry := if t1 < t2 then 1 else 0;
        w := (t1 as int - t2 as int) % BASE;
      }
      SubStep(a, b, i, Val(r), c0, w, carry);
      Extend(r, w, i);
      r := r + [w];
      i := i + 1;
    }
    assert b[..i] == b;
    ValSplit(a, i);
    if carry == 1 {
      r := PropagateBorrow(a, i, r, Val(a[..i]) - Val(b));
    } else {
      ValAppend(r, a[i..]);
      r := r + a[i..];
    }
    r := Trim(r);
  }

  /** BN_ucmp: lengths first, then words from the top. */
  method CompareMagnitudes(a: seq<Word>, b: seq<Word>) returns (r: int)
    requires Normal(a) && Normal(b)
    ensures r < 0 <==> Val(a) < Val(b)
    ensures r > 0 <==> Val(a) > Val(b)
  {
    r := |a| - |b|;
    if r != 0 {
      LongerIsLarger(a, b);
      return;
    }
    var i := |a|;
    while i > 0
      invariant 0 <= i <= |a|
      invariant a[i..] == b[i..]
    {
      i := i - 1;
      if a[i] != b[i] {
        TopDecides(a, b, i);
        return if a[i] > b[i] then 1 else -1;
      }
      SuffixStep(a, b, i);
    }
    assert a[0..] == a && b[0..] == b;
    return 0;
  }

  lemma LongerIsLarger(a: seq<Word>, b: seq<Word>)
    requires Normal(a) && Normal(b) && |a| != |b|
    ensures |a| > |b| <==> Val(a) > Val(b)
    ensures |a| < |b| <==> Val(a) < Val(b)
  {
    ValBound(a); ValBound(b);
    if |a| > |b| {
      NormalBound(a);
      RadixMonotone(|b|, |a| - 1);
    } else {
      NormalBound(b);
      RadixMonotone(|a|, |b| - 1);
    }
  }

  lemma ValMonotoneLength(a: seq<Word>, b: seq<Word>)
    requires Normal(a) && Normal(b) && Val(b) <= Val(a)
    ensures |b| <= |a|
  {
    if |b| > |a| { LongerIsLarger(a, b); }
  }

  lemma ZeroMagnitude(s: seq<Word>)
    requires Normal(s)
    ensures Val(s) == 0 <==> s == []
  {
    if s != [] { NormalBound(s); }
  }
}
