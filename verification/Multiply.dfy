/** Schoolbook multiplication and squaring over word ranges. */
module Multiply {
  import opened Words
  import opened Kernels

  /** Word range [p, p+n+k) as a low part of n words and a high part of k words. */
  lemma AtSplit(m: array<Word>, p: nat, n: nat, k: nat)
    requires p + n + k <= m.Length
    ensures At(m, p, n + k) == At(m, p, n) + Radix(n) * At(m, p + n, k)
  {
    assert m[p..p + n + k] == m[p..p + n] + m[p + n..p + n + k];
    ValAppend(m[p..p + n], m[p + n..p + n + k]);
  }

  lemma RowSum(low: int, mid: int, mid': int, c: int, a: int, w: int, p: int, rj: int, rn: int)
    requires low + rj * mid == p
    requires mid' + c * rn == mid + a * w
    ensures low + rj * (mid' + c * rn) == p + w * a * rj
  {
    assert rj * (mid + a * w) == rj * mid + rj * (a * w);
    Rearrange(rj, a, w);
  }

  lemma Rearrange(x: int, y: int, z: int)
    ensures x * (y * z) == z * y * x
  {
  }

  /** Add w times the n words at ap into the number at rp, from word j up, and store the carry as a
      new top word: the common step of bn_mul_normal and bn_sqr_normal. */
  method Row(m: array<Word>, rp: nat, j: nat, ap: nat, n: nat, w: Word,
             ghost a: int, ghost p: int, ghost p': int)
    requires rp + j + n + 1 <= m.Length && ap + n <= m.Length && Apart(rp, j + n + 1, ap, n)
    requires At(m, rp, j + n) == p && At(m, ap, n) == a
    requires p' == p + w * a * Radix(j)
    modifies m
    ensures At(m, rp, j + n + 1) == p'
    ensures OnlyChanges(m, rp, j + n + 1)
  {
    hide Val, Radix;
    AtSplit(m, rp, j, n);
    ghost var ls := m[rp..rp + j];
    ghost var mid := At(m, rp + j, n);
    var c := MulAddWords(m, rp + j, ap, n, w);
    assert m[rp..rp + j] == ls;
    ghost var ms := m[rp + j..rp + j + n];
    m[rp + j + n] := c;
    assert m[rp..rp + j] == ls;
    assert m[rp + j..rp + j + n] == ms;
    AtSplit(m, rp, j, n + 1);
    SliceSnoc(m, rp + j, n);
    RowSum(Val(ls), mid, Val(ms), c, a, w, p, Radix(j), Radix(n));
  }

  /** The first row: the low word of b. */
  method FirstRow(m: array<Word>, rp: nat, ap: nat, na: nat, w: Word)
    requires rp + na + 1 <= m.Length && ap + na <= m.Length && Apart(rp, na + 1, ap, na)
    modifies m
    ensures At(m, rp, na + 1) == old(At(m, ap, na)) * w
    ensures OnlyChanges(m, rp, na + 1)
  {
    var c := MulWords(m, rp, ap, na, w);
    ghost var low := m[rp..rp + na];
    m[rp + na] := c;
    assert m[rp..rp + na] == low;
    SliceSnoc(m, rp, na);
  }

  lemma NextRow(a: int, b: seq<Word>, j: nat)
    requires j < |b|
    ensures a * Val(b[..j + 1]) == a * Val(b[..j]) + b[j] * a * Radix(j)
  {
    ValPrefix(b, j);
    var v, w: int, r := Val(b[..j]), b[j], Radix(j);
    assert a * (v + w * r) == a * v + a * (w * r);
    Rearrange(r, a, w);
    MulComm(a, w * r);
    Shuffle(a, w, r);
  }

  lemma Shuffle(a: int, w: int, r: int)
    ensures a * (w * r) == w * a * r
  {
  }

  /** Row j of the product: word j of b times all of a. */
  method ProductRow(m: array<Word>, rp: nat, ap: nat, na: nat, j: nat, w: Word, ghost a: nat, ghost bs: seq<Word>)
    requires j < |bs| && w == bs[j]
    requires rp + j + na + 1 <= m.Length && ap + na <= m.Length && Apart(rp, j + na + 1, ap, na)
    requires At(m, rp, j + na) == a * Val(bs[..j]) && At(m, ap, na) == a
    modifies m
    ensures At(m, rp, j + na + 1) == a * Val(bs[..j + 1])
    ensures OnlyChanges(m, rp, j + na + 1)
  {
    NextRow(a, bs, j);
    Row(m, rp, j, ap, na, w, a, a * Val(bs[..j]), a * Val(bs[..j + 1]));
  }

  method MulRows(m: array<Word>, rp: nat, ap: nat, na: nat, bp: nat, nb: nat)
    requires nb >= 1
    requires rp + na + nb <= m.Length && ap + na <= m.Length && bp + nb <= m.Length
    requires Apart(rp, na + nb, ap, na) && Apart(rp, na + nb, bp, nb)
    modifies m
    ensures At(m, rp, na + nb) == old(At(m, ap, na)) * old(At(m, bp, nb))
    ensures OnlyChanges(m, rp, na + nb)
  {
    hide Val, Radix;
    ghost var as_, bs := m[ap..ap + na], m[bp..bp + nb];
    ghost var a := Val(as_);
    FirstRow(m, rp, ap, na, m[bp]);
    assert bs[..1] == [bs[0]];
    ValSingle(bs[0]);
    var j := 1;
    while j < nb
      invariant 1 <= j <= nb
      invariant OnlyChanges(m, rp, na + nb)
      invariant At(m, rp, j + na) == a * Val(bs[..j])
    {
      assert m[ap..ap + na] == as_;
      ProductRow(m, rp, ap, na, j, m[bp + j], a, bs);
      j := j + 1;
    }
    assert bs[..nb] == bs;
  }

  /** bn_mul_normal: the operands are swapped so that the longer one is the row. */
  method MulNormal(m: array<Word>, rp: nat, ap: nat, na: nat, bp: nat, nb: nat)
    requires na >= 1 && nb >= 1
    requires rp + na + nb <= m.Length && ap + na <= m.Length && bp + nb <= m.Length
    requires Apart(rp, na + nb, ap, na) && Apart(rp, na + nb, bp, nb)
    modifies m
    ensures At(m, rp, na + nb) == old(At(m, ap, na)) * old(At(m, bp, nb))
    ensures OnlyChanges(m, rp, na + nb)
  {
    if na < nb {
      MulRows(m, rp, bp, nb, ap, na);
      MulComm(old(At(m, ap, na)), old(At(m, bp, nb)));
    } else {
      MulRows(m, rp, ap, na, bp, nb);
    }
  }

  /** The products a[i] * a[j] with i < j, each at position i + j: half of a square without its
      diagonal. */
  function OffDiagonal(a: seq<Word>): (v: nat)
  {
    if a == [] then 0 else BASE * (a[0] * Val(a[1..])) + BASE * BASE * OffDiagonal(a[1..])
  }

  /** The shortcut bn_sqr_normal takes: twice the off-diagonal plus the diagonal is the square. */
  lemma {:induction false} SquareFromHalves(a: seq<Word>)
    ensures 2 * OffDiagonal(a) + Diagonal(a) == Val(a) * Val(a)
  {
    if a != [] {
      SquareFromHalves(a[1..]);
      var x: int, v: int := a[0], Val(a[1..]);
      SquareOfSum(x, v);
      assert BASE * BASE * (2 * OffDiagonal(a[1..]) + Diagonal(a[1..])) == BASE * BASE * (v * v);
    }
  }

  lemma SquareOfSum(x: int, v: int)
    ensures (x + BASE * v) * (x + BASE * v) == x * x + 2 * (BASE * (x * v)) + BASE * BASE * (v * v)
  {
    assert (x + BASE * v) * (x + BASE * v) == x * (x + BASE * v) + BASE * (v * (x + BASE * v));
    assert v * (x + BASE * v) == x * v + BASE * (v * v);
  }

  /** The off-diagonal sum after the rows for words 0..k-1 have been added. */
  function Partial(a: seq<Word>, k: nat): (v: nat)
    requires k <= |a|
  {
    if k == 0 then 0 else Partial(a, k - 1) + a[k - 1] * Val(a[k..]) * Radix(2 * k - 1)
  }

  lemma {:induction false} PartialRest(a: seq<Word>, k: nat)
    requires k <= |a|
    ensures OffDiagonal(a) == Partial(a, k) + Radix(2 * k) * OffDiagonal(a[k..])
  {
    if k == 0 {
      assert a[0..] == a;
    } else {
      PartialRest(a, k - 1);
      var s := a[k - 1..];
      assert s[1..] == a[k..];
      assert Radix(2 * k) == BASE * (BASE * Radix(2 * k - 2));
      PartialShift(Radix(2 * k - 2), a[k - 1] * Val(a[k..]), OffDiagonal(a[k..]));
    }
  }

  lemma PartialShift(p: int, x: int, o: int)
    ensures p * (BASE * x + BASE * BASE * o) == x * (BASE * p) + (BASE * (BASE * p)) * o
  {
  }

  lemma PartialAll(a: seq<Word>)
    requires a != []
    ensures Partial(a, |a| - 1) == OffDiagonal(a)
  {
    PartialRest(a, |a| - 1);
    var s := a[|a| - 1..];
    assert s[1..] == [];
    assert OffDiagonal(s) == 0;
  }

  /** The first row is stored, not added; word 0 stays zero. */
  method SquareFirstRow(m: array<Word>, rp: nat, ap: nat, n: nat)
    requires 2 <= n
    requires rp + 2 * n <= m.Length && ap + n <= m.Length && Apart(rp, 2 * n, ap, n)
    requires m[rp] == 0
    modifies m
    ensures At(m, rp, n + 1) == old(m[ap] * At(m, ap + 1, n - 1)) * BASE
    ensures OnlyChanges(m, rp, n + 1) && m[rp] == 0
  {
    ghost var a, w: int := At(m, ap + 1, n - 1), m[ap];
    FirstRow(m, rp + 1, ap + 1, n - 1, m[ap]);
    assert m[rp..rp + 1] == [m[rp]];
    AtSplit(m, rp, 1, n);
    ValSingle(m[rp]);
    assert Radix(1) == BASE * Radix(0);
    MulComm(a, w);
  }

  lemma PartialStep(a: seq<Word>, k: nat, w: int, rest: seq<Word>)
    requires k < |a| && w == a[k] && rest == a[k + 1..]
    ensures Partial(a, k + 1) == Partial(a, k) + w * Val(rest) * Radix(2 * k + 1)
  {
  }

  /** Row k: words k+1..n-1 of a times word k, added at word 2k+1. */
  method SquareRow(m: array<Word>, rp: nat, q: nat, ap: nat, j: nat, ghost as_: seq<Word>, k: nat)
    requires k + 1 + j == |as_| && 1 <= j && q == 2 * k + 1
    requires rp + q + j + 1 <= m.Length && ap + |as_| <= m.Length && Apart(rp, q + j + 1, ap, |as_|)
    requires At(m, rp, q + j) == Partial(as_, k)
    requires m[ap..ap + |as_|] == as_
    modifies m
    ensures At(m, rp, q + j + 1) == Partial(as_, k + 1)
    ensures OnlyChanges(m, rp, q + j + 1)
  {
    var w := m[ap + k];
    assert w == as_[k];
    assert m[ap + k + 1..ap + k + 1 + j] == as_[k + 1..];
    PartialStep(as_, k, w, as_[k + 1..]);
    Row(m, rp, q, ap + k + 1, j, w, Val(as_[k + 1..]), Partial(as_, k), Partial(as_, k + 1));
  }

  /** The remaining rows, for words 1..n-2. */
  method SquareMoreRows(m: array<Word>, rp: nat, ap: nat, n: nat, ghost as_: seq<Word>)
    requires 2 <= n == |as_|
    requires rp + 2 * n <= m.Length && ap + n <= m.Length && Apart(rp, 2 * n, ap, n)
    requires m[ap..ap + n] == as_ && At(m, rp, n + 1) == Partial(as_, 1)
    modifies m
    ensures At(m, rp, 2 * n - 1) == Partial(as_, n - 1)
    ensures OnlyChanges(m, rp, 2 * n - 1)
  {
    hide Val, Radix;
    var k, q, j := 1, 3, n - 2;
    while j > 0
      invariant 1 <= k && k + 1 + j == n && q == 2 * k + 1
      invariant OnlyChanges(m, rp, 2 * n - 1)
      invariant At(m, rp, q + j) == Partial(as_, k)
    {
      assert m[ap..ap + n] == as_;
      SquareRow(m, rp, q, ap, j, as_, k);
      k, q, j := k + 1, q + 2, j - 1;
    }
  }

  /** The rows above the diagonal; the lowest and the highest word stay zero. */
  method SquareRows(m: array<Word>, rp: nat, ap: nat, n: nat)
    requires 1 <= n
    requires rp + 2 * n <= m.Length && ap + n <= m.Length && Apart(rp, 2 * n, ap, n)
    modifies m
    ensures At(m, rp, 2 * n) == old(OffDiagonal(m[ap..ap + n]))
    ensures OnlyChanges(m, rp, 2 * n)
  {
    hide Val, Radix;
    ghost var as_ := m[ap..ap + n];
    PartialAll(as_);
    m[rp] := 0;
    m[rp + 2 * n - 1] := 0;
    if n == 1 {
      PairZero(m, rp);
    } else {
      assert m[ap..ap + n] == as_;
      FirstSquareRow(m, rp, ap, n, as_);
      assert m[ap..ap + n] == as_;
      SquareMoreRows(m, rp, ap, n, as_);
      TopZero(m, rp, 2 * n);
    }
  }

  lemma TopZero(m: array<Word>, p: nat, n: nat)
    requires 1 <= n && p + n <= m.Length && m[p + n - 1] == 0
    ensures At(m, p, n) == At(m, p, n - 1)
  {
    SliceSnoc(m, p, n - 1);
  }

  lemma PairZero(m: array<Word>, p: nat)
    requires p + 2 <= m.Length && m[p] == 0 && m[p + 1] == 0
    ensures At(m, p, 2) == 0
  {
    ValZeros(m[p..p + 2]);
  }

  method FirstSquareRow(m: array<Word>, rp: nat, ap: nat, n: nat, ghost as_: seq<Word>)
    requires 2 <= n
    requires rp + 2 * n <= m.Length && ap + n <= m.Length && Apart(rp, 2 * n, ap, n)
    requires m[rp] == 0 && m[ap..ap + n] == as_
    modifies m
    ensures At(m, rp, n + 1) == Partial(as_, 1)
    ensures OnlyChanges(m, rp, n + 1)
  {
    assert m[ap] == as_[0];
    assert m[ap + 1..ap + 1 + (n - 1)] == as_[1..];
    FirstRowIsPartial(as_);
    SquareFirstRow(m, rp, ap, n);
  }

  lemma FirstRowIsPartial(a: seq<Word>)
    requires a != []
    ensures Partial(a, 1) == a[0] as int * Val(a[1..]) * BASE
  {
    assert Radix(1) == BASE * Radix(0);
    assert Partial(a, 0) == 0;
  }

  lemma SquareBound(v: nat, r: nat)
    requires v < r
    ensures v * v < r * r
  {
    MulMono(v, r, v);
    assert r * r == r * v + r * (r - v);
    MulMono(1, r - v, r);
  }

  lemma RadixDouble(n: nat)
    ensures Radix(2 * n) == Radix(n) * Radix(n)
  {
    RadixAdd(n, n);
    assert n + n == 2 * n;
  }

  /** The doubling cannot carry: twice the off-diagonal is below the square. */
  lemma DoubleFits(a: seq<Word>)
    ensures Val(a) * Val(a) < Radix(2 * |a|)
    ensures 2 * OffDiagonal(a) <= Val(a) * Val(a)
  {
    SquareFromHalves(a);
    ValBound(a);
    var r := Radix(|a|);
    SquareBound(Val(a), r);
    RadixDouble(|a|);
  }

  lemma NoCarry(v: nat, c: nat, x: nat, r: nat)
    requires v + c * r == x && x < r
    ensures c == 0 && v == x
  {
    if c >= 1 { MulMono(1, c, r); }
  }

  /** bn_sqr_normal: rows above the diagonal, doubled, plus the diagonal; neither addition carries. */
  method SqrNormal(m: array<Word>, rp: nat, ap: nat, n: nat, tp: nat)
    requires 1 <= n
    requires rp + 2 * n <= m.Length && ap + n <= m.Length && tp + 2 * n <= m.Length
    requires Apart(rp, 2 * n, ap, n) && Apart(tp, 2 * n, ap, n) && Apart(rp, 2 * n, tp, 2 * n)
    modifies m
    ensures At(m, rp, 2 * n) == old(At(m, ap, n)) * old(At(m, ap, n))
    ensures forall i :: 0 <= i < m.Length && !(rp <= i < rp + 2 * n) && !(tp <= i < tp + 2 * n) ==> m[i] == old(m[i])
  {
    hide Val, Radix;
    ghost var as_ := m[ap..ap + n];
    DoubleFits(as_);
    SquareFromHalves(as_);
    SquareRows(m, rp, ap, n);
    assert m[ap..ap + n] == as_;
    var c1 := AddWords(m, rp, rp, rp, 2 * n);
    NoCarry(At(m, rp, 2 * n), c1, 2 * OffDiagonal(as_), Radix(2 * n));
    assert m[ap..ap + n] == as_;
    ghost var rs := m[rp..rp + 2 * n];
    SqrWords(m, tp, ap, n);
    assert m[rp..rp + 2 * n] == rs;
    var c2 := AddWords(m, rp, rp, tp, 2 * n);
    NoCarry(At(m, rp, 2 * n), c2, Val(as_) * Val(as_), Radix(2 * n));
  }
}
