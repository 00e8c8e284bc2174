/** The comba kernels: products by columns in a three-word accumulator, for 4 and 8 words. The straight-line
    columns of the C code are written as loops over the pairs of each column. */
module Comba {
  import opened Words
  import opened HalfWords
  import opened Kernels

  /** The three-word number c2:c1:c0. */
  function Three(c0: int, c1: int, c2: int): (v: int)
  {
    c0 + BASE * (c1 + BASE * c2)
  }

  lemma WordProduct(a: Word, b: Word)
    ensures (LBits(a) + HBits(a) * HALF) * (LBits(b) + HBits(b) * HALF) == a * b
    ensures 0 <= a * b <= (BASE - 1) * (BASE - 1)
  {
    SplitWord(a); SplitWord(b);
    ProductRoom(a, b);
  }

  /** mul_add_c: c += p, p being a * b. */
  method MulAddC(a: Word, b: Word, c0: Word, c1: Word, c2: Word, ghost p: int) returns (d0: Word, d1: Word, d2: Word)
    requires p == a * b && Three(c0, c1, c2) + p < BASE * BASE * BASE
    ensures Three(d0, d1, d2) == Three(c0, c1, c2) + p
  {
    WordProduct(a, b);
    var t1, t2 := Mul64(LBits(a), HBits(a), LBits(b), HBits(b));
    d0, d1, d2 := AddTwoWords(t1, t2, p, c0, c1, c2);
  }

  /** sqr_add_c: c += p, p being a^2. */
  method SqrAddC(a: Word, c0: Word, c1: Word, c2: Word, ghost p: int) returns (d0: Word, d1: Word, d2: Word)
    requires p == a * a && Three(c0, c1, c2) + p < BASE * BASE * BASE
    ensures Three(d0, d1, d2) == Three(c0, c1, c2) + p
  {
    WordProduct(a, a);
    var t1, t2 := Sqr64(a);
    d0, d1, d2 := AddTwoWords(t1, t2, p, c0, c1, c2);
  }

  /** The common tail of mul_add_c and sqr_add_c: a product's high word leaves room for the first carry. */
  method AddTwoWords(t1: Word, hi: Word, ghost p: int, c0: Word, c1: Word, c2: Word)
    returns (d0: Word, d1: Word, d2: Word)
    requires t1 + hi * BASE == p <= (BASE - 1) * (BASE - 1)
    requires Three(c0, c1, c2) + p < BASE * BASE * BASE
    ensures Three(d0, d1, d2) == Three(c0, c1, c2) + p
  {
    var t2: Word := hi;
    d0 := (c0 + t1) % BASE;
    if d0 < t1 { t2 := t2 + 1; }
    d1 := (c1 + t2) % BASE;
    d2 := c2;
    if d1 < t2 { d2 := d2 + 1; }
  }

  /** mul_add_c2: c += 2 * p. */
  method MulAddC2(a: Word, b: Word, c0: Word, c1: Word, c2: Word, ghost p: int) returns (d0: Word, d1: Word, d2: Word)
    requires p == a * b && Three(c0, c1, c2) + 2 * p < BASE * BASE * BASE
    ensures Three(d0, d1, d2) == Three(c0, c1, c2) + 2 * p
  {
    WordProduct(a, b);
    var t1, t2 := Mul64(LBits(a), HBits(a), LBits(b), HBits(b));
    d0, d1, d2 := AddTwice(t1, t2, p, c0, c1, c2);
  }

  /** Doubling can carry out of the product, and the carry into its high word can wrap that word to zero. */
  method AddTwice(l: Word, h: Word, ghost p: int, c0: Word, c1: Word, c2: Word)
    returns (d0: Word, d1: Word, d2: Word)
    requires l + h * BASE == p && Three(c0, c1, c2) + 2 * p < BASE * BASE * BASE
    ensures Three(d0, d1, d2) == Three(c0, c1, c2) + 2 * p
  {
    var t1, t2, carry := DoubleWords(l, h);
    d0, t2, carry := AddLow(c0, t1, t2, carry);
    d1 := (c1 + t2) % BASE;
    if d1 < t2 { carry := carry + 1; }
    d2 := c2 + carry;
  }

  method AddLow(c0: Word, t1: Word, t2: Word, carry: nat) returns (d0: Word, t2': Word, carry': nat)
    ensures d0 + BASE * t2' + BASE * BASE * carry' == c0 + t1 + BASE * t2 + BASE * BASE * carry
  {
    t2', carry' := t2, carry;
    d0 := (c0 + t1) % BASE;
    if d0 < t1 {
      t2' := (t2' + 1) % BASE;
      if t2' == 0 { carry' := carry' + 1; }
    }
  }

  method DoubleWords(l: Word, h: Word) returns (t1: Word, t2: Word, carry: nat)
    ensures carry <= 1 && t1 + BASE * t2 + BASE * BASE * carry == 2 * (l + h * BASE)
  {
    carry := if h >= BASE / 2 then 1 else 0;
    t2 := (h + h) % BASE;
    if l >= BASE / 2 { t2 := t2 + 1; }
    t1 := (l + l) % BASE;
  }

  /** Word i of s, 0 outside. */
  function Get(s: seq<Word>, i: int): (w: Word)
  {
    if 0 <= i < |s| then s[i] else 0
  }

  /** The products a[i] * b[k-i] for lo <= i < hi. */
  function Pairs(a: seq<Word>, b: seq<Word>, k: int, lo: int, hi: int): (v: nat)
    requires 0 <= lo && hi <= |a|
    decreases hi - lo
  {
    if lo >= hi then 0 else MulMono(0, a[hi - 1], Get(b, k - hi + 1)); Pairs(a, b, k, lo, hi - 1) + a[hi - 1] * Get(b, k - hi + 1)
  }

  lemma {:induction false} PairsFront(a: seq<Word>, b: seq<Word>, k: int, lo: int, hi: int)
    requires 0 <= lo < hi <= |a|
    ensures Pairs(a, b, k, lo, hi) == a[lo] * Get(b, k - lo) + Pairs(a, b, k, lo + 1, hi)
    decreases hi
  {
    if lo + 1 < hi {
      PairsFront(a, b, k, lo, hi - 1);
    } else {
      assert Pairs(a, b, k, lo, hi - 1) == 0 && Pairs(a, b, k, lo + 1, hi) == 0;
    }
  }

  /** Pairs outside the second operand add nothing. */
  lemma {:induction false} PairsOutside(a: seq<Word>, b: seq<Word>, k: int, lo: int, hi: int)
    requires 0 <= lo && hi <= |a| && (k - lo < 0 || k - hi + 1 >= |b|)
    ensures Pairs(a, b, k, lo, hi) == 0
    decreases hi - lo
  {
    if lo < hi {
      PairsOutside(a, b, k, lo, hi - 1);
      assert a[hi - 1] * 0 == 0;
    }
  }

  lemma {:induction false} PairsSplit(a: seq<Word>, b: seq<Word>, k: int, lo: int, mid: int, hi: int)
    requires 0 <= lo <= mid <= hi <= |a|
    ensures Pairs(a, b, k, lo, hi) == Pairs(a, b, k, lo, mid) + Pairs(a, b, k, mid, hi)
    decreases hi
  {
    if mid < hi {
      PairsSplit(a, b, k, lo, mid, hi - 1);
    }
  }

  /** Column k of the product. */
  function Column(a: seq<Word>, b: seq<Word>, k: int): (v: nat)
  {
    Pairs(a, b, k, 0, |a|)
  }

  /** The first n columns, weighted. */
  function Columns(a: seq<Word>, b: seq<Word>, n: nat): (v: nat)
  {
    if n == 0 then 0 else MulMono(0, Column(a, b, n - 1), Radix(n - 1)); Columns(a, b, n - 1) + Column(a, b, n - 1) * Radix(n - 1)
  }

  /** Words of b moved up by p places, the first n of them. */
  function Moved(b: seq<Word>, p: nat, n: nat): (v: nat)
  {
    if n == 0 then 0 else MulMono(0, Get(b, n - 1 - p), Radix(n - 1)); Moved(b, p, n - 1) + Get(b, n - 1 - p) * Radix(n - 1)
  }

  lemma {:induction false} MovedValue(b: seq<Word>, p: nat, n: nat)
    ensures n <= p ==> Moved(b, p, n) == 0
    ensures p <= n <= p + |b| ==> Moved(b, p, n) == Radix(p) * Val(b[..n - p])
    ensures n >= p + |b| ==> Moved(b, p, n) == Radix(p) * Val(b)
  {
    if n > 0 {
      MovedValue(b, p, n - 1);
      var i := n - 1 - p;
      if i >= 0 {
        if i < |b| {
          ValPrefix(b, i);
          RadixAdd(p, i);
          assert p + i == n - 1;
          MovedStep(Radix(p), Val(b[..i]), b[i], Radix(i));
        }
        if i == |b| || i == |b| - 1 { assert b[..|b|] == b; }
      }
    }
    if n == p { assert b[..0] == []; assert Radix(p) * 0 == 0; }
    if n == p + |b| { assert b[..n - p] == b; }
  }

  lemma MovedStep(p: int, v: int, w: int, r: int)
    ensures p * (v + w * r) == p * v + w * (p * r)
  {
    assert p * (w * r) == w * (p * r);
  }

  lemma {:induction false} ColumnsSnoc(a: seq<Word>, w: Word, b: seq<Word>, n: nat)
    ensures Columns(a + [w], b, n) == Columns(a, b, n) + w * Moved(b, |a|, n)
  {
    if n == 0 {
      assert w * 0 == 0;
    } else {
      ColumnsSnoc(a, w, b, n - 1);
      var k := n - 1;
      PairsPrefix(a, w, b, k, |a|);
      var c: int, g: int, m: int, r: int := Column(a, b, k), Get(b, k - |a|), Moved(b, |a|, k), Radix(k);
      assert Column(a + [w], b, k) == c + w * g;
      SnocStep(c, w, g, m, r);
    }
  }

  lemma SnocStep(c: int, w: int, g: int, m: int, r: int)
    ensures w * m + (c + w * g) * r == c * r + w * (m + g * r)
  {
    assert (w * g) * r == w * (g * r);
  }

  lemma {:induction false} PairsPrefix(a: seq<Word>, w: Word, b: seq<Word>, k: int, hi: nat)
    requires hi <= |a|
    ensures Pairs(a + [w], b, k, 0, hi) == Pairs(a, b, k, 0, hi)
  {
    if hi > 0 {
      PairsPrefix(a, w, b, k, hi - 1);
    }
  }

  /** The weighted columns of a product are the product. */
  lemma {:induction false} ColumnsProduct(a: seq<Word>, b: seq<Word>, n: nat)
    requires n >= |a| + |b|
    ensures Columns(a, b, n) == Val(a) * Val(b)
    decreases |a|
  {
    if a == [] {
      NoColumns(b, n);
      assert 0 * Val(b) == 0;
    } else {
      var p := |a| - 1;
      var t, w := a[..p], a[p];
      assert a == t + [w];
      ColumnsProduct(t, b, n);
      ColumnsSnoc(t, w, b, n);
      MovedValue(b, p, n);
      ValSnoc(t, w);
      ProductStepUp(Val(t), w, Radix(p), Val(b));
    }
  }

  lemma ProductStepUp(t: int, w: int, r: int, v: int)
    ensures t * v + w * (r * v) == (t + w * r) * v
  {
    assert (w * r) * v == w * (r * v);
  }

  lemma {:induction false} NoColumns(b: seq<Word>, n: nat)
    ensures Columns([], b, n) == 0
  {
    if n > 0 {
      NoColumns(b, n - 1);
      assert Column([], b, n - 1) == 0;
      assert 0 * Radix(n - 1) == 0;
    }
  }

  /** The accumulator while column k is being summed, after the pairs up to i. */
  lemma Room(n: nat, i: nat, carry: int, sum: int)
    requires n <= 8 && i <= n && 0 <= carry <= 8 * BASE && sum <= i * ((BASE - 1) * (BASE - 1))
    ensures carry + sum <= 8 * BASE * BASE
  {
  }

  lemma {:induction false} PairsBound(a: seq<Word>, b: seq<Word>, k: int, lo: int, hi: int)
    requires 0 <= lo <= hi <= |a| <= 8
    ensures Pairs(a, b, k, lo, hi) <= (hi - lo) * ((BASE - 1) * (BASE - 1))
    decreases hi
  {
    if lo < hi {
      PairsBound(a, b, k, lo, hi - 1);
      ProductRoom(a[hi - 1], Get(b, k - hi + 1));
    }
  }

  /** Column k is the pairs from lo to hi only. */
  lemma ColumnRange(a: seq<Word>, b: seq<Word>, k: int, lo: int, hi: int)
    requires 0 <= lo <= hi <= |a| && (lo == 0 || k - lo + 1 >= |b|) && (hi == |a| || k - hi < 0)
    ensures Column(a, b, k) == Pairs(a, b, k, lo, hi)
  {
    if lo > 0 { PairsOutside(a, b, k, 0, lo); }
    if hi < |a| { PairsOutside(a, b, k, hi, |a|); }
    PairsSplit(a, b, k, 0, lo, |a|);
    PairsSplit(a, b, k, lo, hi, |a|);
  }

  /** One column of bn_mul_comba4 or bn_mul_comba8, added to the carry c1:c0 from the columns below. */
  method MulColumn(m: array<Word>, ap: nat, bp: nat, n: nat, k: nat, c0: Word, c1: Word)
    returns (d0: Word, d1: Word, d2: Word)
    requires 1 <= n <= 8 && ap + n <= m.Length && bp + n <= m.Length && k <= 2 * n - 2
    requires Three(c0, c1, 0) <= 8 * BASE
    ensures Three(d0, d1, d2) == Three(c0, c1, 0) + Column(m[ap..ap + n], m[bp..bp + n], k)
    ensures Three(d0, d1, d2) <= 8 * BASE * BASE
  {
    hide Three, Pairs, Column;
    ghost var a, b, carry := m[ap..ap + n], m[bp..bp + n], Three(c0, c1, 0);
    d0, d1, d2 := c0, c1, 0;
    NonNegative(c0, c1);
    var lo := if k < n then 0 else k - n + 1;
    var hi := if k < n then k + 1 else n;
    var i := lo;
    PairsEmpty(a, b, k, lo);
    while i < hi
      invariant lo <= i <= hi
      invariant Three(d0, d1, d2) == carry + Pairs(a, b, k, lo, i)
    {
      NextPair(a, b, k, lo, i);
      PairsBound(a, b, k, lo, i + 1);
      Room(n, i + 1 - lo, carry, Pairs(a, b, k, lo, i + 1));
      var x, y := m[ap + i], m[bp + (k - i)];
      assert x == a[i] && y == b[k - i];
      d0, d1, d2 := MulAddC(x, y, d0, d1, d2, x as int * y as int);
      i := i + 1;
    }
    ColumnRange(a, b, k, lo, hi);
    PairsBound(a, b, k, lo, hi);
    Room(n, hi - lo, carry, Pairs(a, b, k, lo, hi));
  }

  lemma NonNegative(c0: Word, c1: Word)
    ensures Three(c0, c1, 0) >= 0
  {
  }

  lemma PairsEmpty(a: seq<Word>, b: seq<Word>, k: int, i: int)
    requires 0 <= i <= |a|
    ensures Pairs(a, b, k, i, i) == 0
  {
  }

  lemma NextPair(a: seq<Word>, b: seq<Word>, k: int, lo: int, i: int)
    requires 0 <= lo <= i < |a| && 0 <= k - i < |b|
    ensures Pairs(a, b, k, lo, i + 1) == Pairs(a, b, k, lo, i) + a[i] as int * b[k - i] as int
  {
  }

  /** Storing the low word and moving the others down. */
  lemma ShiftDown(v: int, d0: int, d1: int, d2: int, prev: int, col: int, sum: int, r: int)
    requires Three(d0, d1, d2) == prev + col && v + prev * r == sum
    ensures v + d0 * r + Three(d1, d2, 0) * (BASE * r) == sum + col * r
  {
    var t := Three(d1, d2, 0);
    assert d0 + BASE * t == prev + col;
    assert (d0 + BASE * t) * r == d0 * r + t * (BASE * r);
  }

  lemma CarryBound(d0: Word, d1: Word, d2: Word)
    requires Three(d0, d1, d2) <= 8 * BASE * BASE
    ensures Three(d1, d2, 0) <= 8 * BASE
  {
  }

  lemma NextColumn(a: seq<Word>, b: seq<Word>, k: nat)
    ensures Columns(a, b, k + 1) == Columns(a, b, k) + Column(a, b, k) * Radix(k)
  {
  }

  /** After the last column the carry is one word, the top one. */
  lemma TopWord(v: int, c0: Word, c1: Word, r: int, total: int)
    requires v + Three(c0, c1, 0) * r == total && total < r * BASE && v >= 0 && r > 0
    ensures c1 == 0 && v + c0 * r == total
  {
    var t := Three(c0, c1, 0);
    if c1 >= 1 {
      MulMono(BASE, t, r);
    }
  }

  /** The product of two n-word numbers fits 2n words; the last column is 2n - 2. */
  lemma Total(a: seq<Word>, b: seq<Word>, n: nat)
    requires |a| == n && |b| == n && n >= 1
    ensures Columns(a, b, 2 * n - 1) == Val(a) * Val(b) < Radix(2 * n - 1) * BASE
  {
    hide Val, Radix, Columns, Column;
    ColumnsProduct(a, b, 2 * n);
    NextColumn(a, b, 2 * n - 1);
    LastColumn(a, b, n);
    assert 0 * Radix(2 * n - 1) == 0;
    ProductBound(a, b, n);
    RadixUp(2 * n - 1);
  }

  lemma LastColumn(a: seq<Word>, b: seq<Word>, n: nat)
    requires |a| == n && |b| == n && n >= 1
    ensures Column(a, b, 2 * n - 1) == 0
  {
    PairsOutside(a, b, 2 * n - 1, 0, n);
  }

  lemma ProductBound(a: seq<Word>, b: seq<Word>, n: nat)
    requires |a| == n && |b| == n
    ensures Val(a) * Val(b) < Radix(2 * n)
  {
    hide Val, Radix;
    ValBound(a); ValBound(b);
    RadixAdd(n, n);
    assert n + n == 2 * n;
    BelowSquare(Val(a), Val(b), Radix(n));
  }

  lemma BelowSquare(x: nat, y: nat, r: nat)
    requires x < r && y < r
    ensures x * y < r * r
  {
    MulMono(y, r, x);
    MulMono(x + 1, r, r);
    assert (x + 1) * r == x * r + r;
  }

  /** bn_mul_comba4 and bn_mul_comba8. */
  method MulComba(m: array<Word>, rp: nat, ap: nat, bp: nat, n: nat)
    requires n == 4 || n == 8
    requires rp + 2 * n <= m.Length && ap + n <= m.Length && bp + n <= m.Length
    requires Apart(rp, 2 * n, ap, n) && Apart(rp, 2 * n, bp, n)
    modifies m
    ensures At(m, rp, 2 * n) == old(At(m, ap, n)) * old(At(m, bp, n))
    ensures OnlyChanges(m, rp, 2 * n)
  {
    hide Val, Radix, Columns, Column, Three;
    ghost var a, b := m[ap..ap + n], m[bp..bp + n];
    var c0: Word, c1: Word := 0, 0;
    NothingYet(m, rp);
    NoAccumulator();
    NoColumnsYet(a, b);
    var k := 0;
    while k < 2 * n - 1
      invariant 0 <= k <= 2 * n - 1 && Three(c0, c1, 0) <= 8 * BASE
      invariant OnlyChanges(m, rp, 2 * n)
      invariant At(m, rp, k) + Three(c0, c1, 0) * Radix(k) == Columns(a, b, k)
    {
      assert m[ap..ap + n] == a && m[bp..bp + n] == b;
      ghost var v, c := At(m, rp, k), Three(c0, c1, 0);
      ghost var low := m[rp..rp + k];
      var d0, d1, d2 := MulColumn(m, ap, bp, n, k, c0, c1);
      m[rp + k] := d0;
      assert m[rp..rp + k] == low;
      SliceSnoc(m, rp, k);
      ShiftDown(v, d0, d1, d2, c, Column(a, b, k), Columns(a, b, k), Radix(k));
      CarryBound(d0, d1, d2);
      NextColumn(a, b, k);
      RadixUp(k);
      c0, c1 := d1, d2;
      k := k + 1;
    }
    Total(a, b, n);
    TopWord(At(m, rp, k), c0, c1, Radix(k), Columns(a, b, k));
    ghost var low := m[rp..rp + k];
    m[rp + k] := c0;
    assert m[rp..rp + k] == low;
    SliceSnoc(m, rp, k);
  }

  lemma NoAccumulator()
    ensures Three(0, 0, 0) == 0
  {
  }

  lemma NoColumnsYet(a: seq<Word>, b: seq<Word>)
    ensures Columns(a, b, 0) == 0
  {
  }

  /** The pair (i, j) counts twice in a square. */
  lemma TwinPairs(a: seq<Word>, k: int, j: int, i: int)
    requires 0 <= j < i < |a| && i + j == k
    ensures Pairs(a, a, k, j, i + 1) == Pairs(a, a, k, j + 1, i) + 2 * (a[i] as int * a[j] as int)
  {
    PairsFront(a, a, k, j, i + 1);
    MulComm(a[i], a[j]);
  }

  method AddMiddleSquare(m: array<Word>, ap: nat, n: nat, k: nat, c0: Word, c1: Word, ghost carry: int)
    returns (d0: Word, d1: Word, d2: Word)
    requires 1 <= n <= 8 && ap + n <= m.Length && k <= 2 * n - 2 && k % 2 == 0
    requires carry == Three(c0, c1, 0) <= 8 * BASE
    ensures Three(d0, d1, d2) == carry + Pairs(m[ap..ap + n], m[ap..ap + n], k, k / 2, k / 2 + 1)
  {
    hide Three, Pairs, Column;
    ghost var a := m[ap..ap + n];
    NonNegative(c0, c1);
    var x := m[ap + k / 2];
    assert x == a[k / 2];
    PairsEmpty(a, a, k, k / 2);
    NextPair(a, a, k, k / 2, k / 2);
    PairsBound(a, a, k, k / 2, k / 2 + 1);
    Room(n, 1, carry, Pairs(a, a, k, k / 2, k / 2 + 1));
    d0, d1, d2 := SqrAddC(x, c0, c1, 0, x as int * x as int);
  }

  /** One column of bn_sqr_comba4 or bn_sqr_comba8: the middle square, if any, and the pairs around it. */
  method SqrColumn(m: array<Word>, ap: nat, n: nat, k: nat, c0: Word, c1: Word)
    returns (d0: Word, d1: Word, d2: Word)
    requires 1 <= n <= 8 && ap + n <= m.Length && k <= 2 * n - 2
    requires Three(c0, c1, 0) <= 8 * BASE
    ensures Three(d0, d1, d2) == Three(c0, c1, 0) + Column(m[ap..ap + n], m[ap..ap + n], k)
    ensures Three(d0, d1, d2) <= 8 * BASE * BASE
  {
    hide Three, Pairs, Column;
    ghost var a, carry := m[ap..ap + n], Three(c0, c1, 0);
    d0, d1, d2 := c0, c1, 0;
    NonNegative(c0, c1);
    var i, j := (k + 1) / 2, (k as int - 1) / 2;
    PairsEmpty(a, a, k, i);
    if k % 2 == 0 {
      d0, d1, d2 := AddMiddleSquare(m, ap, n, k, d0, d1, carry);
      i, j := k / 2 + 1, k / 2 - 1;
    }
    while j >= 0 && i < n
      invariant -1 <= j < i <= n && i + j == k
      invariant Three(d0, d1, d2) == carry + Pairs(a, a, k, j + 1, i)
    {
      TwinPairs(a, k, j, i);
      PairsBound(a, a, k, j, i + 1);
      Room(n, i + 1 - j, carry, Pairs(a, a, k, j, i + 1));
      var x, y := m[ap + i], m[ap + j];
      assert x == a[i] && y == a[j];
      d0, d1, d2 := MulAddC2(x, y, d0, d1, d2, x as int * y as int);
      i, j := i + 1, j - 1;
    }
    ColumnRange(a, a, k, j + 1, i);
    PairsBound(a, a, k, j + 1, i);
    Room(n, i - (j + 1), carry, Pairs(a, a, k, j + 1, i));
  }

  /** bn_sqr_comba4 and bn_sqr_comba8. */
  method SqrComba(m: array<Word>, rp: nat, ap: nat, n: nat)
    requires n == 4 || n == 8
    requires rp + 2 * n <= m.Length && ap + n <= m.Length && Apart(rp, 2 * n, ap, n)
    modifies m
    ensures At(m, rp, 2 * n) == old(At(m, ap, n)) * old(At(m, ap, n))
    ensures OnlyChanges(m, rp, 2 * n)
  {
    hide Val, Radix, Columns, Column, Three;
    ghost var a := m[ap..ap + n];
    var c0: Word, c1: Word := 0, 0;
    NothingYet(m, rp);
    NoAccumulator();
    NoColumnsYet(a, a);
    var k := 0;
    while k < 2 * n - 1
      invariant 0 <= k <= 2 * n - 1 && Three(c0, c1, 0) <= 8 * BASE
      invariant OnlyChanges(m, rp, 2 * n)
      invariant At(m, rp, k) + Three(c0, c1, 0) * Radix(k) == Columns(a, a, k)
    {
      assert m[ap..ap + n] == a;
      ghost var v, c := At(m, rp, k), Three(c0, c1, 0);
      ghost var low := m[rp..rp + k];
      var d0, d1, d2 := SqrColumn(m, ap, n, k, c0, c1);
      m[rp + k] := d0;
      assert m[rp..rp + k] == low;
      SliceSnoc(m, rp, k);
      ShiftDown(v, d0, d1, d2, c, Column(a, a, k), Columns(a, a, k), Radix(k));
      CarryBound(d0, d1, d2);
      NextColumn(a, a, k);
      RadixUp(k);
      c0, c1 := d1, d2;
      k := k + 1;
    }
    Total(a, a, n);
    TopWord(At(m, rp, k), c0, c1, Radix(k), Columns(a, a, k));
    ghost var low := m[rp..rp + k];
    m[rp + k] := c0;
    assert m[rp..rp + k] == low;
    SliceSnoc(m, rp, k);
  }
}
