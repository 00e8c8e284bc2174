/** BN_mul and BN_sqr: choosing between the schoolbook and the Karatsuba kernels. */
module BigProducts {
  import opened Words
  import opened Multiply
  import opened Comba
  import opened Karatsuba
  import opened Bits
  import opened Magnitudes
  import opened BigNums

  /** A workspace holding the operands, then room words of scratch. */
  method Workspace(a: seq<Word>, b: seq<Word>, room: nat) returns (m: array<Word>)
    ensures fresh(m) && m.Length == |a| + |b| + room
    ensures m[0..|a|] == a && m[|a|..|a| + |b|] == b
    ensures forall i :: |a| + |b| <= i < m.Length ==> m[i] == 0
  {
    m := new Word[|a| + |b| + room](i requires 0 <= i < |a| + |b| + room =>
      if i < |a| then a[i] else if i < |a| + |b| then b[i - |a|] else 0);
  }

  /** The largest power of two not above n: 1 << (BN_num_bits_word(n) - 1). */
  lemma {:induction false} TwoIsPower(k: nat)
    ensures PowerOfTwo(Two(k))
  {
    if k > 0 {
      TwoIsPower(k - 1);
    }
  }

  /** A product of n and k words without leading zeros, trimmed by bn_fix_top. */
  method RawProduct(a: seq<Word>, b: seq<Word>) returns (r: seq<Word>)
    requires a != [] && b != []
    ensures Val(r) == Val(a) * Val(b)
  {
    var al, bl := |a|, |b|;
    var spare: bool := *;               // whether the shorter operand's buffer has a spare word
    var x, y := a, b;
    if al == bl && al == 8 {
      r := CombaProduct(a, b);
      return;
    }
    if al >= MULL_SIZE && bl >= MULL_SIZE {
      if al - bl == 1 && spare {
        y := b + [0];
        ValSnoc(b, 0);
      } else if bl - al == 1 && spare {
        x := a + [0];
        ValSnoc(a, 0);
      }
      if |x| == |y| {
        var j := PowerOf(BitLen(|x|));
        if |x| == j {
          r := RecursiveProduct(x, y);
          return;
        }
      }
    }
    r := SchoolbookProduct(x, y);
  }

  const MULL_SIZE := 16

  method PowerOf(bits: nat) returns (j: nat)
    ensures j == (if bits == 0 then 0 else Two(bits - 1))
    ensures j > 0 ==> PowerOfTwo(j)
  {
    if bits == 0 { return 0; }
    j := 1;
    var i := 1;
    while i < bits
      invariant 1 <= i <= bits && j == Two(i - 1)
    {
      j := 2 * j;
      i := i + 1;
    }
    TwoIsPower(bits - 1);
  }

  method SchoolbookProduct(x: seq<Word>, y: seq<Word>) returns (r: seq<Word>)
    requires x != [] && y != []
    ensures Val(r) == Val(x) * Val(y) && |r| == |x| + |y|
  {
    var k, l := |x|, |y|;
    var m := Workspace(x, y, k + l);
    assert m[0..0 + k] == x;
    MulNormal(m, k + l, 0, k, k, l);
    r := m[k + l..k + l + (k + l)];
  }

  method CombaProduct(x: seq<Word>, y: seq<Word>) returns (r: seq<Word>)
    requires |x| == |y| == 8
    ensures Val(r) == Val(x) * Val(y) && |r| == 16
  {
    var m := Workspace(x, y, 16);
    assert m[0..0 + 8] == x;
    assert m[8..8 + 8] == y;
    MulComba(m, 16, 0, 8, 8);
    r := m[16..16 + 2 * 8];
  }

  method RecursiveProduct(x: seq<Word>, y: seq<Word>) returns (r: seq<Word>)
    requires |x| == |y| && PowerOfTwo(|x|)
    ensures Val(r) == Val(x) * Val(y) && |r| == 2 * |x|
  {
    hide MulScratch, SqrScratch, CrossIn, PowerOfTwo, Val;
    var k := |x|;
    ScratchPromise(k);
    var m := Workspace(x, y, 6 * k);
    assert m[0..0 + k] == x;
    assert m[k..k + k] == y;
    MulRecursive(m, 2 * k, 0, k, k, 4 * k);
    r := m[2 * k..2 * k + 2 * k];
  }

  /** BN_mul. */
  method Mul(r: BigNum, a: BigNum, b: BigNum)
    requires a.Valid() && b.Valid()
    modifies r
    ensures r.Valid() && r.Value() == old(a.Value()) * old(b.Value()) && !r.NegativeZero()
  {
    if a.d == [] || b.d == [] {
      r.SetWord(0);
      return;
    }
    var negate := a.neg != b.neg;
    ghost var x, y := Val(a.d), Val(b.d);
    SignsMultiply(a.neg, b.neg, x, y);
    ZeroMagnitude(a.d); ZeroMagnitude(b.d);
    MulMono(1, x, y);
    var p := RawProduct(a.d, b.d);
    r.d := Trim(p);
    ZeroMagnitude(r.d);
    r.neg := negate;
  }

  lemma SignsMultiply(s: bool, t: bool, x: int, y: int)
    ensures SignedValue(s != t, x * y) == SignedValue(s, x) * SignedValue(t, y)
  {
    assert (-x) * y == -(x * y) && x * (-y) == -(x * y) && (-x) * (-y) == x * y;
  }

  method RawSquare(a: seq<Word>) returns (r: seq<Word>)
    requires a != []
    ensures Val(r) == Val(a) * Val(a) && |r| == 2 * |a|
  {
    var k := |a|;
    var m := Workspace(a, [], 6 * k);
    assert m[0..0 + k] == a;
    if k == 4 || k == 8 {
      SqrComba(m, k, 0, k);
    } else if k >= SQR_RECURSIVE_SIZE {
      var j := PowerOf(BitLen(k));
      if k == j {
        ScratchPromise(k);
        SqrRecursive(m, k, 0, k, 3 * k);
      } else {
        SqrNormal(m, k, 0, k, 3 * k);
      }
    } else {
      SqrNormal(m, k, 0, k, 3 * k);
    }
    r := m[k..k + 2 * k];
  }

  /** BN_sqr: only the top word of a square can be zero, so one test replaces bn_fix_top. The square of
      zero leaves the result's sign flag as it was. */
  method Sqr(r: BigNum, a: BigNum)
    requires a.Valid()
    modifies r
    ensures r.Valid() && r.Value() == old(a.Value()) * old(a.Value())
    ensures r.neg == (old(a.Mag()) == 0 && old(r.neg))
  {
    ZeroMagnitude(a.d);
    if a.d == [] {
      r.d := [];
      return;
    }
    ghost var x := Val(a.d);
    SignsMultiply(a.neg, a.neg, x, x);
    var p := RawSquare(a.d);
    SquareTopWords(a.d, p);
    r.d := if p[|p| - 1] == 0 then p[..|p| - 1] else p;
    r.neg := false;
  }

  lemma SquareTopWords(a: seq<Word>, p: seq<Word>)
    requires Normal(a) && a != [] && |p| == 2 * |a| && Val(p) == Val(a) * Val(a)
    ensures p[|p| - 1] == 0 ==> Normal(p[..|p| - 1]) && Val(p[..|p| - 1]) == Val(p)
  {
    hide Val, Radix;
    var k := |p| - 1;
    if p[k] == 0 {
      assert p == p[..k] + [p[k]];
      ValSnoc(p[..k], 0);
      NormalBound(a);
      var r := Radix(|a| - 1);
      MulMono(r, Val(a), r); MulMono(r, Val(a), Val(a));
      RadixDouble(|a| - 1);
      TopNonzero(p[..k]);
    }
  }
}
