/** The shifts and the one-word operations on magnitudes. */
module Shifts {
  import opened Words
  import opened WordQuotient
  import opened Kernels
  import opened Bits
  import opened Magnitudes

  /** A word shifted left by lb bits, in two words. */
  lemma SplitShift(l: int, p: int, c: int)
    requires 0 <= l < BASE && p > 0 && c > 0 && p * c == BASE
    ensures 0 <= l / c < p
    ensures (l * p) % BASE + (l / c) * BASE == l * p
    ensures (l * p) % BASE + p <= BASE
  {
    DivBounds(l, c);
    var x, y := l / c, l % c;
    assert l == x * c + y;
    if x >= p { MulMono(p, x, c); }
    assert (x * c + y) * p == x * (p * c) + y * p;
    MulMono(y + 1, c, p);
    assert (y + 1) * p == y * p + p;
    MulMono(0, y, p);
    ModShift(l * p, x);
  }

  lemma ShiftStep(l: int, y: int, x: int, f: int, p: int)
    requires y + x * BASE == l * p
    ensures y + BASE * (f * p + x) == (l + BASE * f) * p
  {
    assert (l + BASE * f) * p == l * p + BASE * (f * p);
  }

  /** The loop of BN_lshift, from the top word down. */
  method LShiftBits(a: seq<Word>, nw: nat, lb: nat) returns (t: array<Word>)
    requires lb < 32
    ensures t.Length == |a| + nw + 1 && Val(t[nw..]) == Val(a) * Two(lb)
    ensures forall k :: 0 <= k < nw ==> t[k] == 0
  {
    TwoBelow(lb);
    t := new Word[|a| + nw + 1](_ => 0);
    var i := |a|;
    assert t[nw + i..] == [0];
    ShiftBase();
    hide Val, Radix, Two;
    while i > 0
      invariant 0 <= i <= |a| && t[nw + i] + Two(lb) <= BASE
      invariant IsShifted(Val(t[nw + i..]), a, i, lb)
      invariant forall k :: 0 <= k < nw ==> t[k] == 0
    {
      hide IsShifted;
      i := i - 1;
      ShiftedTo(Val(t[nw + (i + 1)..]), a, i + 1, lb);
      LShiftWord(t, nw + i, a[i], lb, Val(a[i + 1..]));
      ShiftedNext(Val(t[nw + i..]), a, i, lb);
    }
    assert a[0..] == a;
  }

  /** v is the part of a from word i up, shifted by n bits. */
  ghost predicate IsShifted(v: nat, a: seq<Word>, i: nat, n: nat)
    requires i <= |a|
  {
    v == Val(a[i..]) * Two(n)
  }

  lemma ShiftedTo(v: nat, a: seq<Word>, i: nat, n: nat)
    requires i <= |a| && IsShifted(v, a, i, n)
    ensures v == Val(a[i..]) * Two(n)
  {
  }

  lemma ShiftedNext(v: nat, a: seq<Word>, i: nat, n: nat)
    requires i < |a| && v == (a[i] + BASE * Val(a[i + 1..])) * Two(n)
    ensures IsShifted(v, a, i, n)
  {
    ValTail(a, i);
  }

  lemma TwoBelow(n: nat)
    requires n < 32
    ensures Two(n) <= BASE
  {
    TwoMonotone(n, 32); TwoWord();
  }

  /** Shift one word into place; its high bits go into the low bits of the word above, still zero. */
  method LShiftWord(t: array<Word>, k: nat, l: Word, lb: nat, ghost f: nat)
    requires k + 1 < t.Length && lb < 32 && t[k + 1] + Two(lb) <= BASE
    requires Val(t[k + 1..]) == f * Two(lb)
    modifies t
    ensures t[k] + Two(lb) <= BASE && Val(t[k..]) == (l + BASE * f) * Two(lb)
    ensures forall i :: 0 <= i < k ==> t[i] == old(t[i])
  {
    hide Val, Two;
    var rb := 32 - lb;
    TwoAdd(lb, rb); TwoWord();
    SplitShift(l, Two(lb), Two(rb));
    ghost var z, rest := t[k + 1], t[k + 2..];
    assert t[k + 1..] == [z] + rest;
    t[k + 1] := t[k + 1] + l / Two(rb);
    t[k] := (l * Two(lb)) % BASE;
    ShiftedTail(t[k], z, t[k + 1], rest, l, f, l / Two(rb), Two(lb));
    TwoHeads(t[k..], rest);
  }

  lemma TwoHeads(s: seq<Word>, rest: seq<Word>)
    requires |s| >= 2 && s[2..] == rest
    ensures s == [s[0]] + ([s[1]] + rest)
  {
  }

  lemma ValTail(a: seq<Word>, i: nat)
    requires i < |a|
    ensures Val(a[i..]) == a[i] + BASE * Val(a[i + 1..])
  {
    assert a[i..] == [a[i]] + a[i + 1..];
    ValCons(a[i], a[i + 1..]);
  }

  /** BN_lshift: bits first, then whole words, then leading zeros off. */
  method LShift(a: seq<Word>, n: nat) returns (r: seq<Word>)
    ensures Val(r) == Val(a) * Two(n) && Normal(r)
  {
    var t := LShiftBits(a, n / 32, n % 32);
    WholeWords(t[..], n / 32, Val(a), n, n % 32);
    r := Trim(t[..]);
  }

  lemma ShiftBase()
    ensures Val([0]) == 0 && Val([]) == 0
  {
  }

  lemma ShiftedTail(y: Word, z: Word, z': Word, rest: seq<Word>, l: Word, f: int, x: int, p: int)
    requires z' as int == z as int + x && y + x * BASE == l * p
    requires Val([z] + rest) == f * p
    ensures Val([y] + ([z'] + rest)) == (l + BASE * f) * p
  {
    hide Val;
    ValCons(y, [z'] + rest); ValCons(z, rest); ValCons(z', rest);
    ShiftStep(l, y, x, f, p);
  }

  lemma WholeWords(t: seq<Word>, nw: nat, v: nat, n: nat, lb: nat)
    requires nw <= |t| && n == 32 * nw + lb && Val(t[nw..]) == v * Two(lb)
    requires forall k :: 0 <= k < nw ==> t[k] == 0
    ensures Val(t) == v * Two(n)
  {
    hide Val, Radix, Two;
    ValSplit(t, nw);
    ValZeros(t[..nw]);
    RadixTwo(nw);
    TwoAdd(32 * nw, lb);
    Factors(Two(32 * nw), v, Two(lb));
  }

  lemma Factors(x: int, y: int, z: int)
    ensures x * (y * z) == y * (x * z)
  {
  }

  lemma RightStep(v: int, l: int, l': int, r0: int, t: int, c: int, c0: int, f: int)
    requires t > 0 && c > 0 && t * c == BASE && l' >= 0
    requires f == (v + r0 * (l / t)) * t + c0
    ensures f + l' * (BASE * r0) == (v + (l / t + (l' % t) * c) * r0 + (BASE * r0) * (l' / t)) * t + c0
  {
    var x, y, z := l / t, l' / t, l' % t;
    assert l' == y * t + z;
    assert (v + (x + z * c) * r0 + (BASE * r0) * y) * t
        == (v + r0 * x) * t + (z * c * r0) * t + ((BASE * r0) * y) * t by { RightDistribute(v, x, z * c, r0, (BASE * r0) * y, t); }
    assert (z * c * r0) * t == z * (BASE * r0) by { FourWay(z, c, r0, t); }
    assert ((BASE * r0) * y) * t == (y * t) * (BASE * r0);
    assert (y * t + z) * (BASE * r0) == (y * t) * (BASE * r0) + z * (BASE * r0);
  }

  lemma RightDistribute(v: int, x: int, z: int, r: int, w: int, t: int)
    ensures (v + (x + z) * r + w) * t == (v + r * x) * t + (z * r) * t + w * t
  {
    assert (x + z) * r == r * x + z * r;
  }

  lemma FourWay(z: int, c: int, r: int, t: int)
    requires t * c == BASE
    ensures (z * c * r) * t == z * (BASE * r)
  {
    assert (z * c * r) * t == z * ((t * c) * r);
  }

  lemma ShiftedLow(l: int, t: int, c: int)
    requires 0 <= l < BASE && t > 0 && c > 0 && t * c == BASE
    ensures (l * c) % BASE == (l % t) * c && 0 <= (l % t) * c && (l % t) * c + c <= BASE
  {
    SplitShift(l, c, t);
    MulComm(c, t);
    assert l == (l / t) * t + l % t;
    assert ((l / t) * t + l % t) * c == (l / t) * (t * c) + (l % t) * c;
  }

  lemma WordsOfRight(l: int, l': int, t: int, c: int)
    requires 0 <= l < BASE && 0 <= l' < BASE && t > 0 && c > 0 && t * c == BASE
    ensures 0 <= l / t < c && 0 <= l / t + (l' % t) * c < BASE
  {
    ShiftedLow(l', t, c);
    DivBounds(l, t);
    if l / t >= c { MulMono(c, l / t, t); MulComm(c, t); }
  }

  /** BN_rshift by whole words and rb bits. */
  method RShift(a: seq<Word>, n: nat) returns (r: seq<Word>)
    ensures Val(r) == Val(a) / Two(n) && Normal(r)
  {
    var nw, rb := n / 32, n % 32;
    var lb := 32 - rb;
    if nw >= |a| {
      ShiftedOut(a, n);
      return [];
    }
    var f := a[nw..];
    if rb == 0 {
      assert Two(0) == 1;
      DropWords(a, nw, n, 0, Val(f), 1, 0);
      return Trim(f);
    }
    hide Val, Radix, Two, RightTo;
    TwoAdd(rb, lb); TwoWord();
    ghost var t, c, c0 := Two(rb), Two(lb), f[0] % Two(rb);
    var l := f[0];
    r := [];
    var i := 1;
    RightStart(f, t);
    while i < |f|
      invariant 1 <= i <= |f| && |r| == i - 1 && l == f[i - 1]
      invariant RightTo(f, i, Val(r), l, t, c0)
    {
      var l' := f[i];
      RightWord(f, i, r, l, t, c, c0);
      r := r + [l / Two(rb) + (l' * Two(lb)) % BASE];     // the two parts have no bit in common
      l := l';
      i := i + 1;
    }
    LastRight(f, r, l, t, c, c0);
    r := r + [l / Two(rb)];
    DropWords(a, nw, n, rb, Val(r), t, c0);
    r := Trim(r);
  }

  /** The first i words shifted: v whole words, the pending word l, and the bits c0 shifted out. */
  ghost predicate RightTo(f: seq<Word>, i: nat, v: int, l: Word, t: int, c0: int)
    requires 1 <= i <= |f| && t > 0
  {
    Val(f[..i]) == (v + Radix(i - 1) * (l / t)) * t + c0
  }

  lemma RightWord(f: seq<Word>, i: nat, r: seq<Word>, l: Word, t: int, c: int, c0: int)
    requires 1 <= i < |f| && t > 0 && c > 0 && t * c == BASE && |r| == i - 1 && l == f[i - 1]
    requires RightTo(f, i, Val(r), l, t, c0)
    ensures 0 <= l / t + (f[i] as int * c) % BASE < BASE
    ensures RightTo(f, i + 1, Val(r + [l / t + (f[i] as int * c) % BASE]), f[i], t, c0)
  {
    hide Val, Radix;
    var l': int := f[i];
    WordsOfRight(l, l', t, c);
    ShiftedLow(l', t, c);
    RightStep(Val(r), l, l', Radix(i - 1), t, c, c0, Val(f[..i]));
    ValSnoc(r, l / t + (l' * c) % BASE);
    ValPrefix(f, i);
    RadixUp(i - 1);
  }

  lemma RightStart(f: seq<Word>, t: int)
    requires f != [] && t > 0
    ensures RightTo(f, 1, Val([]), f[0], t, f[0] % t)
  {
    assert f[..1] == [f[0]];
    ValSingle(f[0]);
  }

  lemma LastRight(f: seq<Word>, r: seq<Word>, l: Word, t: int, c: int, c0: int)
    requires t > 0 && c > 0 && t * c == BASE && |r| + 1 == |f| && RightTo(f, |f|, Val(r), l, t, c0)
    ensures 0 <= l / t < BASE && Val(f) == Val(r + [l / t]) * t + c0
  {
    hide Val, Radix;
    WordsOfRight(l, l, t, c);
    WordsOfRight(l, 0, t, c);
    assert f[..|f|] == f;
    ValSnoc(r, l / t);
    MulComm(l / t, Radix(|r|));
  }

  lemma ShiftedOut(a: seq<Word>, n: nat)
    requires |a| <= n / 32
    ensures Val(a) / Two(n) == 0 && Val([]) == 0
  {
    BeyondTop(a, n);
  }

  /** Dropping nw words and rb bits is one division. */
  lemma DropWords(a: seq<Word>, nw: nat, n: nat, rb: nat, v: nat, t: nat, c0: int)
    requires nw < |a| && n == 32 * nw + rb && t == Two(rb) && 0 <= c0 < t
    requires Val(a[nw..]) == v * t + c0
    ensures v == Val(a) / Two(n)
  {
    hide Val, Radix, Two;
    ValSplit(a, nw);
    ValBound(a[..nw]);
    RadixTwo(nw);
    TwoAdd(32 * nw, rb);
    assert (v + 1) * t == v * t + t;
    Scale(Radix(nw), Val(a[..nw]), Val(a[nw..]), v, t);
    QuotientUnique(Val(a), Two(n), v);
  }

  /** BN_lshift1. */
  method LShift1(a: seq<Word>) returns (r: seq<Word>)
    requires Normal(a)
    ensures Val(r) == 2 * Val(a) && Normal(r)
  {
    hide Val, Radix;
    r := [];
    var c: Word := 0;
    var i := 0;
    assert a[..0] == [];
    EmptyVal();
    while i < |a|
      invariant 0 <= i <= |a| && |r| == i && c <= 1
      invariant Val(r) + c * Radix(i) == 2 * Val(a[..i])
    {
      var t := a[i];
      ghost var c0 := c;
      var w: Word := (2 * t as int) % BASE + c;
      c := if t >= BASE / 2 then 1 else 0;
      Extend(r, w, i);
      ValPrefix(a, i);
      DoubleStep(Val(r), c0, Val(a[..i]), w, c, t, Radix(i));
      RadixUp(i);
      r := r + [w];
      i := i + 1;
    }
    assert a[..i] == a;
    if c == 1 {
      Extend(r, 1, i);
      r := r + [1];
    } else if a != [] {
      NormalBound(a);
      TopNonzero(r);
    }
  }

  lemma DoubleStep(v: int, c: int, x: int, w: int, c': int, t: int, p: int)
    requires w + c' * BASE == 2 * t + c && v + c * p == 2 * x
    ensures v + w * p + c' * (BASE * p) == 2 * (x + t * p)
  {
    CarryStep(v, c, 2 * x, w, c', 2 * t, p);
    assert (2 * t) * p == 2 * (t * p);
  }

  /** BN_rshift1, from the top word down. */
  method RShift1(a: seq<Word>) returns (r: seq<Word>)
    ensures Val(r) == Val(a) / 2 && Normal(r)
  {
    hide Val, Radix;
    r := [];
    var c: Word := 0;
    var i := |a|;
    assert a[i..] == [];
    EmptyVal();
    while i > 0
      invariant 0 <= i <= |a| && (c == 0 || c == BASE / 2)
      invariant 2 * Val(r) + (if c == 0 then 0 else 1) == Val(a[i..])
    {
      i := i - 1;
      var t := a[i];
      var w: Word := t / 2 + c;
      ValTail(a, i);
      ValCons(w, r);
      c := if t % 2 == 1 then BASE / 2 else 0;
      r := [w] + r;
    }
    assert a[0..] == a;
    r := Trim(r);
  }

  /** BN_mul_word for the magnitude. */
  method MulWord(a: seq<Word>, w: Word) returns (r: seq<Word>)
    requires Normal(a)
    ensures Val(r) == Val(a) * w && Normal(r)
  {
    if a == [] || w == 0 {
      return [];
    }
    var m := new Word[|a|](i requires 0 <= i < |a| => a[i]);
    assert m[0..0 + |a|] == a;
    var ll := MulWords(m, 0, 0, |a|, w);
    r := m[..];
    assert m[0..0 + |a|] == r;
    if ll != 0 {
      ValSnoc(r, ll);
      r := r + [ll];
    } else {
      NormalBound(a);
      MulMono(1, w, Val(a));
      TopNonzero(r);
    }
  }

  /** BN_add_word on a number that is not negative: carry up until a word absorbs it. Adding zero to zero leaves a
      zero word. */
  method AddToWords(a: seq<Word>, w0: Word) returns (r: seq<Word>)
    requires Normal(a)
    ensures Val(r) == Val(a) + w0
    ensures Normal(r) <==> a != [] || w0 != 0
  {
    hide Val, Radix;
    var w, i := w0, 0;
    r := [];
    assert a[0..] == a;
    EmptyVal();
    RadixZero();
    while i < |a| && (a[i] + w) % BASE < w
      invariant 0 <= i <= |a| && |r| == i && (i > 0 ==> w == 1)
      invariant Val(r) + Radix(i) * Val(a[i..]) + w * Radix(i) == Val(a) + w0
    {
      var x: Word := (a[i] + w) % BASE;
      Extend(r, x, i);
      ValTail(a, i);
      RadixUp(i);
      CarryUp(a[i], w, x, Radix(i), Val(a[i + 1..]));
      r := r + [x];
      i := i + 1;
      w := 1;
    }
    if i == |a| {
      assert a[i..] == [];
      assert Radix(i) * Val(a[i..]) == 0;
      Extend(r, w, i);
      r := r + [w];
      return;
    }
    var x: Word := (a[i] + w) % BASE;
    ValTail(a, i);
    ValCons(x, a[i + 1..]);
    ValAppend(r, [x] + a[i + 1..]);
    AbsorbCarry(a[i], w, x, Radix(i), Val(a[i + 1..]));
    r := r + ([x] + a[i + 1..]);
  }

  lemma CarryUp(d: Word, w: Word, x: Word, p: int, h: int)
    requires x == (d + w) % BASE && x < w
    ensures p * (d + BASE * h) + w * p == x * p + (BASE * p) * h + 1 * (BASE * p)
  {
    assert x as int == d as int + w as int - BASE;
    assert p * (d + BASE * h) == d * p + (BASE * p) * h;
    assert (d as int + w as int - BASE) * p == d * p + w * p - BASE * p;
  }

  lemma AbsorbCarry(d: Word, w: Word, x: Word, p: int, h: int)
    requires x == (d + w) % BASE && x >= w
    ensures p * (d + BASE * h) + w * p == p * (x + BASE * h) && x as int == d + w
  {
    assert x as int == d as int + w as int;
    assert p * (d + BASE * h) + p * w == p * (x + BASE * h);
  }

  /** BN_sub_word on a positive number not below w: borrow up until a word absorbs it. */
  method SubWord(a: seq<Word>, w0: Word) returns (r: seq<Word>)
    requires Normal(a) && a != [] && Val(a) >= w0
    ensures Val(r) == Val(a) - w0 && Normal(r)
  {
    hide Val, Radix;
    var w, i := w0, 0;
    r := [];
    assert a[0..] == a;
    EmptyVal();
    RadixZero();
    while i < |a| && a[i] < w
      invariant 0 <= i <= |a| && |r| == i && (i > 0 ==> w == 1 && r[i - 1] != 0)
      invariant Val(r) + Radix(i) * Val(a[i..]) - w * Radix(i) == Val(a) - w0
    {
      var x: Word := (a[i] as int - w as int) % BASE;
      Extend(r, x, i);
      ValTail(a, i);
      RadixUp(i);
      BorrowUp(a[i], w, x, Radix(i), Val(a[i + 1..]));
      r := r + [x];
      i := i + 1;
      w := 1;
    }
    if i == |a| {
      assert a[i..] == [];
      ValBound(r);
      assert false;
    }
    var x: Word := a[i] - w;
    ValTail(a, i);
    ValCons(x, a[i + 1..]);
    ValAppend(r, [x] + a[i + 1..]);
    AbsorbBorrow(a[i], w, x, Radix(i), Val(a[i + 1..]));
    if x == 0 && i == |a| - 1 {
      assert a[i + 1..] == [];
      EmptyVal();
      assert Radix(i) * Val([0] + a[i + 1..]) == 0;
      return r;
    }
    r := r + ([x] + a[i + 1..]);
  }

  lemma BorrowUp(d: Word, w: Word, x: Word, p: int, h: int)
    requires d < w && x as int == (d as int - w as int) % BASE
    ensures p * (d + BASE * h) - w * p == x * p + (BASE * p) * h - 1 * (BASE * p)
  {
    assert x as int == d as int - w as int + BASE;
    assert p * (d + BASE * h) == d * p + (BASE * p) * h;
    assert (d as int - w as int + BASE) * p == d * p - w * p + BASE * p;
  }

  lemma AbsorbBorrow(d: Word, w: Word, x: Word, p: int, h: int)
    requires x as int == d as int - w as int
    ensures p * (d + BASE * h) - w * p == p * (x + BASE * h)
  {
    assert p * (d + BASE * h) == p * (x + BASE * h) + p * w;
  }
}
