/** The word loops of bn.c. Words live in one address space m; a BN_ULONG pointer is an index into
    it. A result may be written over an operand that starts at the same word, as the callers do. */
module Kernels {
  import opened Words
  import opened HalfWords

  /** The ranges [p, p+n) and [q, q+k) have no word in common. */
  predicate Apart(p: nat, n: nat, q: nat, k: nat)
  {
    p + n <= q || q + k <= p
  }

  /** The result range starts where the operand does, or avoids it. */
  predicate MayAlias(rp: nat, ap: nat, n: nat)
  {
    rp == ap || Apart(rp, n, ap, n)
  }

  /** The number in the n words at p. */
  ghost function At(m: array<Word>, p: nat, n: nat): (v: nat)
    requires p + n <= m.Length
    reads m
  {
    Val(m[p..p + n])
  }

  /** Nothing outside [p, p+n) changed. */
  twostate predicate OnlyChanges(m: array<Word>, p: nat, n: nat)
    reads m
  {
    forall i :: 0 <= i < m.Length && !(p <= i < p + n) ==> m[i] == old(m[i])
  }

  /** The same on the contents of the address space before and after a step. */
  ghost predicate Keeps(s: seq<Word>, s': seq<Word>, p: nat, n: nat)
  {
    |s| == |s'| && forall i :: 0 <= i < |s| && !(p <= i < p + n) ==> s'[i] == s[i]
  }

  ghost function In(s: seq<Word>, p: nat, n: nat): (v: nat)
    requires p + n <= |s|
  {
    Val(s[p..p + n])
  }

  lemma AtIn(m: array<Word>, p: nat, n: nat)
    requires p + n <= m.Length
    ensures At(m, p, n) == In(m[..], p, n)
  {
  }

  /** A number apart from the changed range keeps its value. */
  lemma KeptApart(s: seq<Word>, s': seq<Word>, p: nat, n: nat, q: nat, k: nat)
    requires Keeps(s, s', p, n) && q + k <= |s| && Apart(p, n, q, k)
    ensures In(s', q, k) == In(s, q, k) && s'[q..q + k] == s[q..q + k]
  {
    assert s'[q..q + k] == s[q..q + k];
  }

  lemma SliceSnoc(m: array<Word>, p: nat, i: nat)
    requires p + i < m.Length
    ensures At(m, p, i + 1) == At(m, p, i) + m[p + i] * Radix(i)
  {
    assert m[p..p + i + 1] == m[p..p + i] + [m[p + i]];
    ValSnoc(m[p..p + i], m[p + i]);
  }

  lemma NothingYet(m: array<Word>, p: nat)
    requires p <= m.Length
    ensures At(m, p, 0) == 0 && Val([]) == 0 && Radix(0) == 1
  {
  }

  /** Carrying through one word position keeps the scaled identity. */
  lemma CarryStep(v: int, c: int, x: int, w: int, c': int, x': int, p: int)
    requires w + c' * BASE == x' + c
    requires v + c * p == x
    ensures v + w * p + c' * (BASE * p) == x + x' * p
  {
    assert (w + c' * BASE) * p == (x' + c) * p;
  }

  lemma AddTimes(r: int, a: int, w: int, p: int)
    ensures (a * w + r) * p == r * p + (a * p) * w
  {
  }

  lemma DistributeWord(v: int, t: int, w: int)
    ensures (v + t) * w == v * w + t * w
  {
  }

  /** v and the carry c are base plus w times the first i words of s. */
  ghost predicate ProductOf(v: int, c: int, base: int, s: seq<Word>, w: int, i: nat)
    requires i <= |s|
  {
    v + c * Radix(i) == base + Val(s[..i]) * w
  }

  lemma ProductStep(s: seq<Word>, i: nat, v: int, c: int, base: int, w: int, x: int, l: int, c': int)
    requires i < |s| && l + c' * BASE == s[i] * w + x + c && ProductOf(v, c, base, s, w, i)
    ensures ProductOf(v + l * Radix(i), c', base + x * Radix(i), s, w, i + 1)
  {
    var y: int := s[i];
    ValPrefix(s, i);
    CarryStep(v, c, base + Val(s[..i]) * w, l, c', y * w + x, Radix(i));
    AddTimes(x, y, w, Radix(i));
    DistributeWord(Val(s[..i]), y * Radix(i), w);
  }

  /** bn_mul_add_words: r += a * w, returning the carry word. */
  method MulAddWords(m: array<Word>, rp: nat, ap: nat, num: nat, w: Word) returns (c: Word)
    requires rp + num <= m.Length && ap + num <= m.Length && MayAlias(rp, ap, num)
    modifies m
    ensures At(m, rp, num) + c * Radix(num) == old(At(m, rp, num)) + old(At(m, ap, num)) * w
    ensures OnlyChanges(m, rp, num)
  {
    c := 0;
    var bl, bh := LBits(w), HBits(w);
    SplitWord(w);
    ghost var rs, as_ := m[rp..rp + num], m[ap..ap + num];
    var i := 0;
    while i < num
      invariant 0 <= i <= num
      invariant OnlyChanges(m, rp, i)
      invariant ProductOf(At(m, rp, i), c, Val(rs[..i]), as_, w, i)
    {
      hide Val, Radix, ProductOf;
      assert m[rp + i] == rs[i] && m[ap + i] == as_[i];
      ghost var v, c0 := At(m, rp, i), c;
      ghost var ms := m[rp..rp + i];
      var r, c' := MulAdd(m[rp + i], m[ap + i], bl, bh, c);
      m[rp + i] := r;
      c := c';
      assert m[rp..rp + i] == ms;
      SliceSnoc(m, rp, i);
      ValPrefix(rs, i);
      ProductStep(as_, i, v, c0, Val(rs[..i]), w, rs[i], r, c);
      i := i + 1;
    }
    assert rs[..num] == rs && as_[..num] == as_;
  }

  /** bn_mul_words: r = a * w, returning the carry word. */
  method MulWords(m: array<Word>, rp: nat, ap: nat, num: nat, w: Word) returns (c: Word)
    requires rp + num <= m.Length && ap + num <= m.Length && MayAlias(rp, ap, num)
    modifies m
    ensures At(m, rp, num) + c * Radix(num) == old(At(m, ap, num)) * w
    ensures OnlyChanges(m, rp, num)
  {
    c := 0;
    var bl, bh := LBits(w), HBits(w);
    SplitWord(w);
    ghost var as_ := m[ap..ap + num];
    var i := 0;
    while i < num
      invariant 0 <= i <= num
      invariant OnlyChanges(m, rp, i)
      invariant ProductOf(At(m, rp, i), c, 0, as_, w, i)
    {
      hide Val, Radix, ProductOf;
      assert m[ap + i] == as_[i];
      ghost var v, c0 := At(m, rp, i), c;
      ghost var ms := m[rp..rp + i];
      var r, c' := Mul(m[ap + i], bl, bh, c);
      m[rp + i] := r;
      c := c';
      assert m[rp..rp + i] == ms;
      SliceSnoc(m, rp, i);
      ProductStep(as_, i, v, c0, 0, w, 0, r, c);
      i := i + 1;
    }
    assert as_[..num] == as_;
  }

  /** The diagonal of a square: each word of a squared, at twice its position. */
  function Diagonal(a: seq<Word>): (v: nat)
  {
    if a == [] then 0 else a[0] * a[0] + BASE * BASE * Diagonal(a[1..])
  }

  lemma {:induction false} DiagonalSnoc(a: seq<Word>, w: Word)
    ensures Diagonal(a + [w]) == Diagonal(a) + w * w * Radix(2 * |a|)
  {
    if a == [] {
      assert a + [w] == [w];
      assert Diagonal([w][1..]) == 0;
    } else {
      assert (a + [w])[1..] == a[1..] + [w];
      DiagonalSnoc(a[1..], w);
      assert Radix(2 * |a|) == BASE * (BASE * Radix(2 * |a| - 2));
      DistributeSquare(Diagonal(a[1..]), w * w, Radix(2 * |a| - 2));
    }
  }

  lemma DistributeSquare(d: int, s: int, p: int)
    ensures BASE * BASE * (d + s * p) == BASE * BASE * d + s * (BASE * (BASE * p))
  {
  }

  /** bn_sqr_words: the square of word i of a goes to words 2i and 2i+1 of r. */
  method SqrWords(m: array<Word>, rp: nat, ap: nat, n: nat)
    requires rp + 2 * n <= m.Length && ap + n <= m.Length && Apart(rp, 2 * n, ap, n)
    modifies m
    ensures At(m, rp, 2 * n) == old(Diagonal(m[ap..ap + n]))
    ensures OnlyChanges(m, rp, 2 * n)
  {
    ghost var as_ := m[ap..ap + n];
    var i := 0;
    while i < n
      invariant 0 <= i <= n
      invariant OnlyChanges(m, rp, 2 * i)
      invariant At(m, rp, 2 * i) == Diagonal(as_[..i])
    {
      assert m[ap + i] == as_[i];
      ghost var ms := m[rp..rp + 2 * i];
      var lo, hi := Sqr64(m[ap + i]);
      m[rp + 2 * i] := lo;
      m[rp + 2 * i + 1] := hi;
      assert m[rp..rp + 2 * i] == ms;
      ghost var x: int := as_[i];
      SliceSnocTwo(m, rp, 2 * i, x * x);
      DiagonalPrefix(as_, i);
      i := i + 1;
    }
    assert as_[..n] == as_;
  }

  lemma DiagonalPrefix(s: seq<Word>, i: nat)
    requires i < |s|
    ensures Diagonal(s[..i + 1]) == Diagonal(s[..i]) + (s[i] * s[i]) * Radix(2 * i)
  {
    assert s[..i + 1] == s[..i] + [s[i]];
    DiagonalSnoc(s[..i], s[i]);
  }

  lemma SliceSnocTwo(m: array<Word>, p: nat, i: nat, s: int)
    requires p + i + 1 < m.Length && m[p + i] + m[p + i + 1] * BASE == s
    ensures At(m, p, i + 2) == At(m, p, i) + s * Radix(i)
  {
    SliceSnoc(m, p, i);
    SliceSnoc(m, p, i + 1);
    TwoWordWeight(m[p + i], m[p + i + 1], s, Radix(i));
  }

  lemma TwoWordWeight(lo: int, hi: int, s: int, p: int)
    requires lo + hi * BASE == s
    ensures lo * p + hi * (BASE * p) == s * p
  {
    assert (lo + hi * BASE) * p == lo * p + hi * (BASE * p);
  }

  /** v and the carry c are the sum of the first i words of s and t. */
  ghost predicate SumOf(v: int, c: int, s: seq<Word>, t: seq<Word>, i: nat)
    requires i <= |s| && i <= |t|
  {
    v + c * Radix(i) == Val(s[..i]) + Val(t[..i])
  }

  lemma AddStep(s: seq<Word>, t: seq<Word>, i: nat, v: int, c: int, l: int, c': int)
    requires i < |s| && i < |t| && l + c' * BASE == s[i] as int + t[i] as int + c
    requires SumOf(v, c, s, t, i)
    ensures SumOf(v + l * Radix(i), c', s, t, i + 1)
  {
    var x: int, y: int := s[i], t[i];
    ValPrefix(s, i); ValPrefix(t, i);
    CarryStep(v, c, Val(s[..i]) + Val(t[..i]), l, c', x + y, Radix(i));
    DistributeWord(x, y, Radix(i));
  }

  lemma SubStep(s: seq<Word>, t: seq<Word>, i: nat, v: int, c: int, l: int, c': int)
    requires i < |s| && i < |t| && l - c' * BASE == s[i] as int - t[i] as int - c
    requires v - c * Radix(i) == Val(s[..i]) - Val(t[..i])
    ensures v + l * Radix(i) - c' * Radix(i + 1) == Val(s[..i + 1]) - Val(t[..i + 1])
  {
    var x: int, y: int := s[i], t[i];
    ValPrefix(s, i); ValPrefix(t, i);
    BorrowStep(v, c, Val(s[..i]) - Val(t[..i]), l, c', x - y, Radix(i));
    DistributeWord(x - y, y, Radix(i));
  }

  /** The two wrap tests together give the carry. */
  lemma AddWord(x: Word, y: Word, c: Word, t: Word, l: Word, c': Word)
    requires c <= 1 && t == (x as int + c as int) % BASE && l == (t as int + y as int) % BASE
    requires c' == (if t < c then 1 else 0) + (if l < t then 1 else 0)
    ensures c' <= 1 && l + c' * BASE == x as int + y as int + c as int
  {
  }

  /** bn_add_words without a double-width type: two wrap tests per word. */
  method AddWords(m: array<Word>, rp: nat, ap: nat, bp: nat, n: nat) returns (c: Word)
    requires rp + n <= m.Length && ap + n <= m.Length && bp + n <= m.Length
    requires MayAlias(rp, ap, n) && MayAlias(rp, bp, n)
    modifies m
    ensures c <= 1
    ensures At(m, rp, n) + c * Radix(n) == old(At(m, ap, n)) + old(At(m, bp, n))
    ensures OnlyChanges(m, rp, n)
  {
    hide Val, Radix;
    NothingYet(m, rp);
    c := 0;
    ghost var as_, bs := m[ap..ap + n], m[bp..bp + n];
    var i := 0;
    assert as_[..0] == [] && bs[..0] == [];
    while i < n
      invariant 0 <= i <= n && c <= 1
      invariant OnlyChanges(m, rp, i)
      invariant SumOf(At(m, rp, i), c, as_, bs, i)
    {
      assert m[ap + i] == as_[i] && m[bp + i] == bs[i];
      ghost var v, c0 := At(m, rp, i), c;
      ghost var ms := m[rp..rp + i];
      var t: Word := (m[ap + i] + c) % BASE;
      c := if t < c then 1 else 0;
      var l: Word := (t + m[bp + i]) % BASE;
      if l < t { c := c + 1; }
      AddWord(m[ap + i], m[bp + i], c0, t, l, c);
      m[rp + i] := l;
      assert m[rp..rp + i] == ms;
      SliceSnoc(m, rp, i);
      AddStep(as_, bs, i, v, c0, l, c);
      i := i + 1;
    }
    assert as_[..n] == as_ && bs[..n] == bs;
  }

  lemma BorrowStep(v: int, c: int, x: int, w: int, c': int, x': int, p: int)
    requires w - c' * BASE == x' - c
    requires v - c * p == x
    ensures v + w * p - c' * (BASE * p) == x + x' * p
  {
    assert (w - c' * BASE) * p == (x' - c) * p;
  }

  lemma BorrowWord(t1: Word, t2: Word, c: Word, l: Word, c': Word)
    requires c <= 1 && l == (t1 as int - t2 as int - c as int) % BASE
    requires c' == if t1 != t2 then (if t1 < t2 then 1 else 0) else c
    ensures l - c' * BASE == t1 - t2 - c && c' <= 1
  {
  }

  /** bn_sub_words: equal words pass the borrow on unchanged. */
  method SubWords(m: array<Word>, rp: nat, ap: nat, bp: nat, n: nat) returns (c: Word)
    requires rp + n <= m.Length && ap + n <= m.Length && bp + n <= m.Length
    requires MayAlias(rp, ap, n) && MayAlias(rp, bp, n)
    modifies m
    ensures c <= 1
    ensures At(m, rp, n) - c * Radix(n) == old(At(m, ap, n)) - old(At(m, bp, n))
    ensures OnlyChanges(m, rp, n)
  {
    hide Val, Radix;
    NothingYet(m, rp);
    c := 0;
    ghost var as_, bs := m[ap..ap + n], m[bp..bp + n];
    var i := 0;
    assert as_[..0] == [] && bs[..0] == [];
    while i < n
      invariant 0 <= i <= n && c <= 1
      invariant OnlyChanges(m, rp, i)
      invariant At(m, rp, i) - c * Radix(i) == Val(as_[..i]) - Val(bs[..i])
    {
      assert m[ap + i] == as_[i] && m[bp + i] == bs[i];
      ghost var v, c0 := At(m, rp, i), c;
      ghost var ms := m[rp..rp + i];
      var t1, t2 := m[ap + i], m[bp + i];
      var l: Word := (t1 as int - t2 as int - c as int) % BASE;
      if t1 != t2 { c := if t1 < t2 then 1 else 0; }
      BorrowWord(t1, t2, c0, l, c);
      m[rp + i] := l;
      assert m[rp..rp + i] == ms;
      SliceSnoc(m, rp, i);
      SubStep(as_, bs, i, v, c0, l, c);
      i := i + 1;
    }
    assert as_[..n] == as_ && bs[..n] == bs;
  }

  function Sign(x: int): (r: int)
    ensures -1 <= r <= 1
  {
    if x < 0 then -1 else if x == 0 then 0 else 1
  }

  lemma SuffixStep(s: seq<Word>, t: seq<Word>, i: nat)
    requires |s| == |t| && i < |s| && s[i] == t[i] && s[i + 1..] == t[i + 1..]
    ensures s[i..] == t[i..]
  {
    assert s[i..] == [s[i]] + s[i + 1..] && t[i..] == [t[i]] + t[i + 1..];
  }

  /** bn_cmp_words compares from the most significant word down. */
  method CmpWords(m: array<Word>, ap: nat, bp: nat, n: nat) returns (r: int)
    requires 1 <= n && ap + n <= m.Length && bp + n <= m.Length
    ensures r == Sign(At(m, ap, n) - At(m, bp, n))
  {
    ghost var s, t := m[ap..ap + n], m[bp..bp + n];
    var i := n;
    while i > 0
      invariant 0 <= i <= n
      invariant s[i..] == t[i..]
    {
      i := i - 1;
      var aa, bb := m[ap + i], m[bp + i];
      assert aa == s[i] && bb == t[i];
      if aa != bb {
        TopDecides(s, t, i);
        return if aa > bb then 1 else -1;
      }
      SuffixStep(s, t, i);
    }
    assert s[0..] == s && t[0..] == t;
    return 0;
  }

  /** The most significant differing word decides the order. */
  lemma TopDecides(s: seq<Word>, t: seq<Word>, i: nat)
    requires |s| == |t| && i < |s| && s[i] != t[i] && s[i + 1..] == t[i + 1..]
    ensures s[i] > t[i] <==> Val(s) > Val(t)
    ensures s[i] < t[i] <==> Val(s) < Val(t)
  {
    ValSplit(s, i + 1); ValSplit(t, i + 1);
    ValPrefix(s, i); ValPrefix(t, i);
    ValBound(s[..i]); ValBound(t[..i]);
    if s[i] > t[i] {
      LeadingWord(Val(t[..i]), t[i], Val(s[..i]), s[i], Radix(i));
    } else {
      LeadingWord(Val(s[..i]), s[i], Val(t[..i]), t[i], Radix(i));
    }
  }

  lemma LeadingWord(v: int, x: int, w: int, y: int, p: int)
    requires 0 <= v < p && 0 <= w && x < y
    ensures v + x * p < w + y * p
  {
    MulMono(x + 1, y, p);
    assert (x + 1) * p == x * p + p;
  }
}
