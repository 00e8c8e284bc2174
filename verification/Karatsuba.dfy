/** bn_mul_recursive and bn_sqr_recursive (BN_RECURSION, BN_MUL_COMBA and BN_SQR_COMBA defined):
    half-size products combined with one signed middle product.

    MulScratch and SqrScratch give the words of t that a call uses. The comments above the C functions
    ask for twice n2, which is enough up to 16 words; each level from 32 on uses that much before passing
    on the rest. BN_mul and BN_sqr supply four times n2, which always suffices. */
module Karatsuba {
  import opened Words
  import opened Kernels
  import opened Multiply
  import opened Comba
  import opened Ripple

  const MUL_RECURSIVE_SIZE := 16
  const SQR_RECURSIVE_SIZE := 16

  predicate PowerOfTwo(n: nat)
  {
    n == 1 || (n > 0 && n % 2 == 0 && PowerOfTwo(n / 2))
  }

  /** The scratch words of bn_mul_recursive: the comba and schoolbook kernels use none, and a level uses
      four halves and then the scratch of its half-size products. */
  function MulScratch(n2: nat): (s: nat)
  {
    if n2 < MUL_RECURSIVE_SIZE then 0 else 2 * n2 + MulScratch(n2 / 2)
  }

  /** The scratch words of bn_sqr_recursive, whose schoolbook kernel needs room for the diagonal. */
  function SqrScratch(n2: nat): (s: nat)
  {
    if n2 == 4 || n2 == 8 then 0
    else if n2 < SQR_RECURSIVE_SIZE then 2 * n2
    else 2 * n2 + SqrScratch(n2 / 2)
  }

  /** In closed form: from 16 words on both need 4 * n2 - 32 words. */
  lemma {:induction false} ScratchClosed(n2: nat)
    requires PowerOfTwo(n2) && n2 >= MUL_RECURSIVE_SIZE
    ensures MulScratch(n2) == SqrScratch(n2) == 4 * n2 - 32
  {
    HalfOfPower(n2);
    if n2 >= 2 * MUL_RECURSIVE_SIZE {
      ScratchClosed(n2 / 2);
    } else {
      PowerBelow32(n2);
    }
  }

  lemma PowerBelow32(n2: nat)
    requires PowerOfTwo(n2) && 16 <= n2 < 32
    ensures n2 == 16
  {
    assert PowerOfTwo(n2 / 2) && PowerOfTwo(n2 / 2 / 2) && PowerOfTwo(n2 / 2 / 2 / 2) && PowerOfTwo(n2 / 2 / 2 / 2 / 2);
  }

  /** The two times n2 words of the comment are enough exactly up to 16 words, the four times n2 the
      callers supply always. */
  lemma ScratchPromise(n2: nat)
    requires PowerOfTwo(n2)
    ensures MulScratch(n2) <= 2 * n2 <==> n2 <= 16
    ensures SqrScratch(n2) <= 2 * n2 <==> n2 <= 16
    ensures MulScratch(n2) <= 4 * n2 && SqrScratch(n2) <= 4 * n2
  {
    hide PowerOfTwo;
    if n2 >= MUL_RECURSIVE_SIZE { ScratchClosed(n2); }
  }

  /** Nothing changed outside the result and scratch ranges. */
  twostate predicate OnlyChanges2(m: array<Word>, p: nat, n: nat, q: nat, k: nat)
    reads m
  {
    forall i :: 0 <= i < m.Length && !(p <= i < p + n) && !(q <= i < q + k) ==> m[i] == old(m[i])
  }

  /** The signs chosen by the switch on c1 * 3 + c2. */
  lemma SignOfProduct(x: int, y: int, c1: int, c2: int)
    requires c1 == Sign(x) && c2 == Sign(y)
    ensures c1 * 3 + c2 in {-3, -1, 0, 1, 3} <==> x == 0 || y == 0
    ensures c1 * 3 + c2 == -4 <==> x < 0 && y < 0
    ensures c1 * 3 + c2 == -2 <==> x < 0 && y > 0
    ensures c1 * 3 + c2 == 2 <==> x > 0 && y < 0
    ensures c1 * 3 + c2 == 4 <==> x > 0 && y > 0
  {
  }

  /** The larger minus the smaller number of n words. */
  method Difference(m: array<Word>, tp: nat, big: nat, small: nat, n: nat)
    requires tp + n <= m.Length && big + n <= m.Length && small + n <= m.Length
    requires MayAlias(tp, big, n) && MayAlias(tp, small, n)
    requires At(m, small, n) <= At(m, big, n)
    modifies m
    ensures At(m, tp, n) == old(At(m, big, n)) - old(At(m, small, n))
    ensures OnlyChanges(m, tp, n)
  {
    ghost var x, y := At(m, big, n), At(m, small, n);
    var c := SubWords(m, tp, big, small, n);
    ValBound(m[tp..tp + n]);
    NoBorrow(At(m, tp, n), c, x - y, Radix(n));
  }

  lemma NoBorrow(v: nat, c: nat, d: nat, r: nat)
    requires v - c * r == d && v < r
    ensures c == 0
  {
    if c >= 1 { MulMono(1, c, r); }
  }

  /** Both differences; the second must not disturb the first. */
  method TwoDifferences(m: array<Word>, tp: nat, abig: nat, asmall: nat, bbig: nat, bsmall: nat, n: nat,
                        ghost u: int, ghost v: int)
    requires tp + 2 * n <= m.Length && abig + n <= m.Length && asmall + n <= m.Length
    requires bbig + n <= m.Length && bsmall + n <= m.Length
    requires Apart(tp, 2 * n, abig, n) && Apart(tp, 2 * n, asmall, n)
    requires Apart(tp, 2 * n, bbig, n) && Apart(tp, 2 * n, bsmall, n)
    requires At(m, abig, n) - At(m, asmall, n) == u >= 0 && At(m, bbig, n) - At(m, bsmall, n) == v >= 0
    modifies m
    ensures At(m, tp, n) == u && At(m, tp + n, n) == v
    ensures OnlyChanges(m, tp, 2 * n)
  {
    hide At, In, Val;
    ghost var s0 := m[..];
    AtIn(m, bbig, n); AtIn(m, bsmall, n);
    Difference(m, tp, abig, asmall, n);
    Framed(s0, m, tp, n, bbig, n);
    Framed(s0, m, tp, n, bsmall, n);
    ghost var s1 := m[..];
    AtIn(m, tp, n);
    Difference(m, tp + n, bbig, bsmall, n);
    Framed(s1, m, tp + n, n, tp, n);
  }

  /** |a0 - a1| and |b1 - b0| go to t and t + n; the flags give the sign of their signed product. */
  method Differences(m: array<Word>, ap: nat, bp: nat, n: nat, tp: nat, ghost x: int, ghost y: int)
    returns (zero: bool, neg: bool)
    requires 1 <= n && ap + 2 * n <= m.Length && bp + 2 * n <= m.Length && tp + 2 * n <= m.Length
    requires Apart(tp, 2 * n, ap, 2 * n) && Apart(tp, 2 * n, bp, 2 * n)
    requires x == At(m, ap, n) - At(m, ap + n, n) && y == At(m, bp + n, n) - At(m, bp, n)
    modifies m
    ensures OnlyChanges(m, tp, 2 * n)
    ensures zero <==> x == 0 || y == 0
    ensures !zero ==> (neg <==> (x < 0) != (y < 0))
    ensures !zero ==> At(m, tp, n) == Absolute(x) && At(m, tp + n, n) == Absolute(y)
  {
    hide At;
    var c1 := CmpWords(m, ap, ap + n, n);
    var c2 := CmpWords(m, bp + n, bp, n);
    SignOfProduct(x, y, c1, c2);
    zero, neg := false, false;
    match c1 * 3 + c2 {
      case -4 => TwoDifferences(m, tp, ap + n, ap, bp, bp + n, n, -x, -y);
      case -2 => TwoDifferences(m, tp, ap + n, ap, bp + n, bp, n, -x, y); neg := true;
      case 2 => TwoDifferences(m, tp, ap, ap + n, bp, bp + n, n, x, -y); neg := true;
      case 4 => TwoDifferences(m, tp, ap, ap + n, bp + n, bp, n, x, y);
      case _ => zero := true;
    }
  }

  /** memset(&t[n2], 0, ...) */
  method ZeroWords(m: array<Word>, p: nat, n: nat)
    requires p + n <= m.Length
    modifies m
    ensures At(m, p, n) == 0
    ensures OnlyChanges(m, p, n)
  {
    var i := 0;
    while i < n
      invariant 0 <= i <= n
      invariant forall k :: p <= k < p + i ==> m[k] == 0
      invariant OnlyChanges(m, p, n)
    {
      m[p + i] := 0;
      i := i + 1;
    }
    ValZeros(m[p..p + n]);
  }

  /** A step that changes only [p, p+n) leaves the number at q alone. */
  lemma Framed(s: seq<Word>, m: array<Word>, p: nat, n: nat, q: nat, k: nat)
    requires Keeps(s, m[..], p, n) && q + k <= |s| && Apart(p, n, q, k)
    ensures q + k <= m.Length && At(m, q, k) == In(s, q, k)
  {
    KeptApart(s, m[..], p, n, q, k);
  }

  /** A 4n-word result seen as n low, 2n middle and n top words. */
  lemma ThreeParts(m: array<Word>, rp: nat, n: nat)
    requires rp + 4 * n <= m.Length
    ensures At(m, rp, 4 * n) == At(m, rp, n) + Radix(n) * At(m, rp + n, 2 * n) + Radix(3 * n) * At(m, rp + 3 * n, n)
  {
    AtSplit(m, rp, n, 3 * n);
    AtSplit(m, rp + n, 2 * n, n);
    RadixAdd(n, 2 * n);
    assert Radix(n) * (At(m, rp + n, 2 * n) + Radix(2 * n) * At(m, rp + 3 * n, n))
        == Radix(n) * At(m, rp + n, 2 * n) + Radix(n) * (Radix(2 * n) * At(m, rp + 3 * n, n));
    Assoc(Radix(n), Radix(2 * n), At(m, rp + 3 * n, n));
  }

  /** The sum of the two outer products, plus or minus the middle one: t + 2n and the returned carry
      hold it, and since it is not negative neither is the carry. */
  method MiddleTerm(m: array<Word>, rp: nat, n: nat, tp: nat, neg: bool, ghost lo: int, ghost hi: int, ghost mid: int)
    returns (c1: int)
    requires rp + 4 * n <= m.Length && tp + 4 * n <= m.Length && Apart(rp, 4 * n, tp, 4 * n)
    requires At(m, rp, 2 * n) == lo && At(m, rp + 2 * n, 2 * n) == hi && At(m, tp + 2 * n, 2 * n) == mid
    requires lo + hi + SignedValue(neg, mid) >= 0
    modifies m
    ensures At(m, tp + 2 * n, 2 * n) + c1 * Radix(2 * n) == lo + hi + SignedValue(neg, mid)
    ensures 0 <= c1 <= 2
    ensures OnlyChanges(m, tp, 4 * n)
  {
    hide At, In;
    ghost var s0 := m[..];
    AtIn(m, tp + 2 * n, 2 * n);
    var c := AddWords(m, tp, rp, rp + 2 * n, 2 * n);
    Framed(s0, m, tp, 2 * n, tp + 2 * n, 2 * n);
    c1 := c;
    ghost var t0 := At(m, tp, 2 * n);
    var c' : Word;
    if neg {
      c' := SubWords(m, tp + 2 * n, tp, tp + 2 * n, 2 * n);
      c1 := c1 - c';
    } else {
      c' := AddWords(m, tp + 2 * n, tp + 2 * n, tp, 2 * n);
      c1 := c1 + c';
    }
    MiddleBound(m, tp + 2 * n, 2 * n);
    MiddleCarry(t0, c, At(m, tp + 2 * n, 2 * n), c', c1, Radix(2 * n), lo + hi, mid, neg);
  }

  lemma MiddleBound(m: array<Word>, p: nat, n: nat)
    requires p + n <= m.Length
    ensures At(m, p, n) < Radix(n)
  {
    ValBound(m[p..p + n]);
  }

  lemma MiddleCarry(t0: int, c: int, t: int, c': int, c1: int, r: int, sum: int, mid: int, neg: bool)
    requires t0 + c * r == sum && 0 <= c <= 1 && 0 <= c' <= 1 && 0 <= t < r
    requires if neg then t - c' * r == t0 - mid && c1 == c - c' else t + c' * r == mid + t0 && c1 == c + c'
    requires sum + SignedValue(neg, mid) >= 0
    ensures t + c1 * r == sum + SignedValue(neg, mid) && 0 <= c1 <= 2
  {
    assert (c - c') * r == c * r - c' * r;
    assert (c + c') * r == c * r + c' * r;
    assert c1 == -1 ==> c1 * r == -r;
  }

  /** Adding the middle term at word n of the result, whose value leaves room for it. */
  lemma AddMiddleSum(low: int, mid: int, top: int, mid': int, c: int, x: int, c1: int, total: int, sum: int,
                     rn: int, r2n: int, r3n: int)
    requires low + rn * mid + r3n * top == total && r3n == rn * r2n
    requires mid' + c * r2n == mid + x && x + c1 * r2n == sum
    requires total + rn * sum < r3n * rn && 0 <= low && 0 <= mid' && 0 < rn && 0 < r3n
    ensures low + rn * mid' + r3n * (top + c1 + c) == total + rn * sum
    ensures top + c1 + c < rn
  {
    assert rn * (mid + x) == rn * mid + rn * x;
    assert rn * (mid' + c * r2n) == rn * mid' + rn * (c * r2n);
    assert rn * (c * r2n) == c * r3n by { Assoc(rn, c, r2n); Assoc(c, rn, r2n); MulComm(rn, c); }
    assert rn * (x + c1 * r2n) == rn * x + rn * (c1 * r2n);
    assert rn * (c1 * r2n) == c1 * r3n by { Assoc(rn, c1, r2n); Assoc(c1, rn, r2n); MulComm(rn, c1); }
    assert r3n * (top + c1 + c) == r3n * top + c1 * r3n + c * r3n;
    MulMono(0, mid', rn);
    if top + c1 + c >= rn { MulMono(rn, top + c1 + c, r3n); }
  }

  /** Add the middle term into the result and ripple its carry to the top: the do-while loop stops
      inside the result because the final value fits there. */
  method AddMiddle(m: array<Word>, rp: nat, n: nat, tp: nat, c0: int, ghost total: int, ghost sum: int)
    requires 0 <= c0 <= 2
    requires rp + 4 * n <= m.Length && tp + 4 * n <= m.Length && Apart(rp, 4 * n, tp, 4 * n)
    requires At(m, rp, 4 * n) == total && At(m, tp + 2 * n, 2 * n) + c0 * Radix(2 * n) == sum
    requires total + Radix(n) * sum < Radix(4 * n)
    modifies m
    ensures At(m, rp, 4 * n) == total + Radix(n) * sum
    ensures OnlyChanges(m, rp, 4 * n)
  {
    hide At, In;
    ghost var s0 := m[..];
    AtIn(m, rp, n); AtIn(m, rp + 3 * n, n); AtIn(m, tp + 2 * n, 2 * n);
    ThreeParts(m, rp, n);
    ghost var low, mid, top, x := At(m, rp, n), At(m, rp + n, 2 * n), At(m, rp + 3 * n, n), At(m, tp + 2 * n, 2 * n);
    var c := AddWords(m, rp + n, rp + n, tp + 2 * n, 2 * n);
    Framed(s0, m, rp + n, 2 * n, rp, n);
    Framed(s0, m, rp + n, 2 * n, rp + 3 * n, n);
    ghost var mid' := At(m, rp + n, 2 * n);
    RadixAdd(n, 2 * n); RadixAdd(3 * n, n);
    AddMiddleSum(low, mid, top, mid', c, x, c0, total, sum, Radix(n), Radix(2 * n), Radix(3 * n));
    var c1 := c0 + c;
    if c1 != 0 {
      ghost var s1 := m[..];
      AtIn(m, rp, n); AtIn(m, rp + n, 2 * n);
      AddCarry(m, rp + 3 * n, n, c1);
      Framed(s1, m, rp + 3 * n, n, rp, n);
      Framed(s1, m, rp + 3 * n, n, rp + n, 2 * n);
    }
    ThreeParts(m, rp, n);
  }

  /** The identity behind the middle term. */
  lemma MiddleIdentity(al: int, ah: int, bl: int, bh: int)
    ensures al * bl + ah * bh + (al - ah) * (bh - bl) == al * bh + ah * bl
  {
    assert (al - ah) * (bh - bl) == al * (bh - bl) - ah * (bh - bl);
  }

  /** The signed product of the differences, from its magnitude and sign. */
  lemma SignedMiddle(x: int, y: int, zero: bool, neg: bool, p: int)
    requires zero <==> x == 0 || y == 0
    requires !zero ==> (neg <==> (x < 0) != (y < 0))
    requires zero ==> p == 0
    requires !zero ==> p == Absolute(x) * Absolute(y)
    ensures SignedValue(neg, p) == x * y
  {
    assert (-x) * y == -(x * y) && x * (-y) == -(x * y) && (-x) * (-y) == x * y;
  }

  /** Recombining the parts of both factors. */
  lemma ProductOfParts(al: int, ah: int, bl: int, bh: int, rn: int)
    ensures (al + rn * ah) * (bl + rn * bh)
         == al * bl + rn * (al * bh + ah * bl) + rn * rn * (ah * bh)
  {
    assert (al + rn * ah) * (bl + rn * bh) == al * (bl + rn * bh) + rn * ah * (bl + rn * bh);
    assert al * (bl + rn * bh) == al * bl + rn * (al * bh) by { Assoc(al, rn, bh); Assoc(rn, al, bh); MulComm(al, rn); }
    assert rn * ah * (bl + rn * bh) == rn * ah * bl + rn * ah * (rn * bh);
    Assoc(rn, ah, bl);
    assert rn * ah * (rn * bh) == rn * rn * (ah * bh) by { FourFactors(rn, ah, rn, bh); }
  }

  lemma FourFactors(a: int, b: int, c: int, d: int)
    ensures a * b * (c * d) == a * c * (b * d)
  {
    Assoc(a, b, c * d);
    Assoc(a, c, b * d);
    Assoc(b, c, d);
    Assoc(c, b, d);
    MulComm(b, c);
  }

  ghost predicate Keeps2(s: seq<Word>, s': seq<Word>, p: nat, n: nat, q: nat, k: nat)
  {
    |s| == |s'| && forall i :: 0 <= i < |s| && !(p <= i < p + n) && !(q <= i < q + k) ==> s'[i] == s[i]
  }

  lemma Framed2(s: seq<Word>, m: array<Word>, p: nat, n: nat, p': nat, n': nat, q: nat, k: nat)
    requires Keeps2(s, m[..], p, n, p', n') && q + k <= |s| && Apart(p, n, q, k) && Apart(p', n', q, k)
    ensures q + k <= m.Length && At(m, q, k) == In(s, q, k)
  {
    assert m[..][q..q + k] == s[q..q + k];
  }

  /** The middle coefficient of two factors of sixteen words, in sixteen words: what the innermost level leaves at the
      end of the scratch area for the topmost words of both factors. */
  function TopCross(a: seq<Word>, b: seq<Word>): (v: nat)
    requires |a| == |b| == 16
  {
    Modulo(Val(a[..8]) * Val(b[8..]) + Val(a[8..]) * Val(b[..8]), Radix(16))
  }

  function Modulo(x: int, r: nat): (v: nat)
    requires r > 0
  {
    x % r
  }

  /** The topmost sixteen words of the n words at ap and at bp. */
  function CrossIn(s: seq<Word>, ap: nat, bp: nat, n: nat): (v: nat)
    requires n >= 16 && ap + n <= |s| && bp + n <= |s|
  {
    TopCross(s[ap + n - 16..ap + n], s[bp + n - 16..bp + n])
  }

  /** Of sixteen words it is the sum that level adds in the middle. */
  lemma CrossOfSixteen(m: array<Word>, ap: nat, bp: nat, al: int, ah: int, bl: int, bh: int)
    requires ap + 16 <= m.Length && bp + 16 <= m.Length
    requires al == At(m, ap, 8) && ah == At(m, ap + 8, 8) && bl == At(m, bp, 8) && bh == At(m, bp + 8, 8)
    ensures CrossIn(m[..], ap, bp, 16) == Modulo(al * bl + ah * bh + (al - ah) * (bh - bl), Radix(16))
  {
    hide Modulo, Val, Radix;
    var a, b := m[..][ap..ap + 16], m[..][bp..bp + 16];
    assert a[..8] == m[ap..ap + 8] && a[8..] == m[ap + 8..ap + 8 + 8];
    assert b[..8] == m[bp..bp + 8] && b[8..] == m[bp + 8..bp + 8 + 8];
    MiddleIdentity(al, ah, bl, bh);
  }

  /** The place of the last sixteen words before p. */
  function End(p: nat): (q: nat)
  {
    if p >= 16 then p - 16 else 0
  }

  lemma CrossOfUpper(s: seq<Word>, ap: nat, bp: nat, n: nat)
    requires n >= 16 && ap + 2 * n <= |s| && bp + 2 * n <= |s|
    ensures CrossIn(s, ap, bp, 2 * n) == CrossIn(s, ap + n, bp + n, n)
  {
  }

  lemma CrossKept(s: seq<Word>, s': seq<Word>, p: nat, n: nat, p': nat, n': nat, ap: nat, bp: nat, k: nat)
    requires k >= 16 && Keeps2(s, s', p, n, p', n') && ap + k <= |s| && bp + k <= |s|
    requires Apart(p, n, ap, k) && Apart(p', n', ap, k) && Apart(p, n, bp, k) && Apart(p', n', bp, k)
    ensures |s'| == |s| && CrossIn(s', ap, bp, k) == CrossIn(s, ap, bp, k)
  {
    assert s'[ap + k - 16..ap + k] == s[ap + k - 16..ap + k] && s'[bp + k - 16..bp + k] == s[bp + k - 16..bp + k];
  }

  lemma HalfOfPower(n2: nat)
    requires PowerOfTwo(n2) && n2 >= 2
    ensures n2 == 2 * (n2 / 2) && PowerOfTwo(n2 / 2) && 1 <= n2 / 2 < n2
  {
  }

  /** The signed middle product, in t + 2n. */
  method MiddleProduct(m: array<Word>, ap: nat, bp: nat, n: nat, tp: nat,
                       ghost al: int, ghost ah: int, ghost bl: int, ghost bh: int)
    returns (neg: bool)
    requires PowerOfTwo(n) && ap + 2 * n <= m.Length && bp + 2 * n <= m.Length && tp + 4 * n + MulScratch(n) <= m.Length
    requires Apart(tp, 4 * n + MulScratch(n), ap, 2 * n) && Apart(tp, 4 * n + MulScratch(n), bp, 2 * n)
    requires At(m, ap, n) == al && At(m, ap + n, n) == ah && At(m, bp, n) == bl && At(m, bp + n, n) == bh
    modifies m
    ensures SignedValue(neg, At(m, tp + 2 * n, 2 * n)) == (al - ah) * (bh - bl)
    ensures OnlyChanges(m, tp, 4 * n + MulScratch(n))
    decreases n, 2
  {
    hide At, In, PowerOfTwo, MulScratch;
    ghost var x, y := al - ah, bh - bl;
    PositivePower(n);
    var zero;
    zero, neg := Differences(m, ap, bp, n, tp, x, y);
    if !zero {
      MulRecursive(m, tp + 2 * n, tp, tp + n, n, tp + 4 * n);
    } else {
      neg := false;
      ZeroWords(m, tp + 2 * n, 2 * n);
    }
    SignedMiddle(x, y, zero, neg, At(m, tp + 2 * n, 2 * n));
  }

  lemma PositivePower(n: nat)
    requires PowerOfTwo(n)
    ensures n >= 1
  {
  }

  lemma ScratchSize(n: nat)
    ensures n >= 16 ==> MulScratch(n) >= 2 * n && SqrScratch(n) >= 2 * n
  {
  }

  /** A step apart from both factors leaves their upper halves alone. */
  lemma UpperKept(s: seq<Word>, m: array<Word>, p: nat, k: nat, p': nat, k': nat, ap: nat, bp: nat, n: nat)
    requires Keeps2(s, m[..], p, k, p', k') && ap + 2 * n <= |s| && bp + 2 * n <= |s|
    requires Apart(p, k, ap, 2 * n) && Apart(p', k', ap, 2 * n) && Apart(p, k, bp, 2 * n) && Apart(p', k', bp, 2 * n)
    ensures |s| == m.Length && At(m, ap + n, n) == In(s, ap + n, n) && At(m, bp + n, n) == In(s, bp + n, n)
    ensures n >= 16 ==> CrossIn(m[..], ap + n, bp + n, n) == CrossIn(s, ap, bp, 2 * n)
  {
    hide At, In, CrossIn;
    Framed2(s, m, p, k, p', k', ap + n, n);
    Framed2(s, m, p, k, p', k', bp + n, n);
    if n >= 16 {
      CrossOfUpper(s, ap, bp, n);
      CrossKept(s, m[..], p, k, p', k', ap + n, bp + n, n);
    }
  }

  /** The outer products, low and high; the scratch below t is left alone. */
  method OuterProducts(m: array<Word>, rp: nat, ap: nat, bp: nat, n: nat, tp: nat,
                       ghost al: int, ghost ah: int, ghost bl: int, ghost bh: int, ghost cross: nat)
    requires PowerOfTwo(n) && rp + 4 * n <= m.Length
    requires ap + 2 * n <= m.Length && bp + 2 * n <= m.Length && tp + MulScratch(n) <= m.Length
    requires Apart(tp, MulScratch(n), ap, 2 * n) && Apart(tp, MulScratch(n), bp, 2 * n)
    requires Apart(rp, 4 * n, ap, 2 * n) && Apart(rp, 4 * n, bp, 2 * n) && Apart(rp, 4 * n, tp, MulScratch(n))
    requires At(m, ap, n) == al && At(m, ap + n, n) == ah && At(m, bp, n) == bl && At(m, bp + n, n) == bh
    requires n >= 16 ==> cross == CrossIn(m[..], ap, bp, 2 * n)
    modifies m
    ensures n >= 16 ==> At(m, tp + MulScratch(n) - 16, 16) == cross
    ensures At(m, rp, 2 * n) == al * bl && At(m, rp + 2 * n, 2 * n) == ah * bh
    ensures OnlyChanges2(m, rp, 4 * n, tp, MulScratch(n))
    decreases n, 2
  {
    hide At, In, PowerOfTwo, MulScratch, CrossIn;
    ScratchSize(n);
    ghost var s1 := m[..];
    AtIn(m, ap + n, n); AtIn(m, bp + n, n);
    MulRecursive(m, rp, ap, bp, n, tp);
    UpperKept(s1, m, rp, 2 * n, tp, MulScratch(n), ap, bp, n);
    ghost var s2 := m[..];
    AtIn(m, rp, 2 * n);
    MulRecursive(m, rp + 2 * n, ap + n, bp + n, n, tp);
    Framed2(s2, m, rp + 2 * n, 2 * n, tp, MulScratch(n), rp, 2 * n);
  }

  /** The three half-size products. */
  method HalfProducts(m: array<Word>, rp: nat, ap: nat, bp: nat, n: nat, tp: nat,
                      ghost al: int, ghost ah: int, ghost bl: int, ghost bh: int, ghost cross: nat)
    returns (neg: bool)
    requires PowerOfTwo(n) && rp + 4 * n <= m.Length
    requires ap + 2 * n <= m.Length && bp + 2 * n <= m.Length && tp + 4 * n + MulScratch(n) <= m.Length
    requires Apart(tp, 4 * n + MulScratch(n), ap, 2 * n) && Apart(tp, 4 * n + MulScratch(n), bp, 2 * n)
    requires Apart(rp, 4 * n, ap, 2 * n) && Apart(rp, 4 * n, bp, 2 * n) && Apart(rp, 4 * n, tp, 4 * n + MulScratch(n))
    requires At(m, ap, n) == al && At(m, ap + n, n) == ah && At(m, bp, n) == bl && At(m, bp + n, n) == bh
    requires n >= 16 ==> cross == CrossIn(m[..], ap, bp, 2 * n)
    modifies m
    ensures n >= 16 ==> At(m, tp + 4 * n + MulScratch(n) - 16, 16) == cross
    ensures At(m, rp, 2 * n) == al * bl && At(m, rp + 2 * n, 2 * n) == ah * bh
    ensures SignedValue(neg, At(m, tp + 2 * n, 2 * n)) == (al - ah) * (bh - bl)
    ensures OnlyChanges2(m, rp, 4 * n, tp, 4 * n + MulScratch(n))
    decreases n, 3
  {
    hide At, In, PowerOfTwo, MulScratch, SignedValue, CrossIn;
    ScratchSize(n);
    ghost var s0 := m[..];
    AtIn(m, ap, n); AtIn(m, ap + n, n); AtIn(m, bp, n); AtIn(m, bp + n, n);
    neg := MiddleProduct(m, ap, bp, n, tp, al, ah, bl, bh);
    Framed(s0, m, tp, 4 * n + MulScratch(n), ap, n); Framed(s0, m, tp, 4 * n + MulScratch(n), ap + n, n);
    Framed(s0, m, tp, 4 * n + MulScratch(n), bp, n); Framed(s0, m, tp, 4 * n + MulScratch(n), bp + n, n);
    if n >= 16 { CrossKept(s0, m[..], tp, 4 * n + MulScratch(n), tp, 4 * n + MulScratch(n), ap, bp, 2 * n); }
    ghost var s1 := m[..];
    AtIn(m, tp + 2 * n, 2 * n);
    OuterProducts(m, rp, ap, bp, n, tp + 4 * n, al, ah, bl, bh, cross);
    Framed2(s1, m, rp, 4 * n, tp + 4 * n, MulScratch(n), tp + 2 * n, 2 * n);
  }

  /** The Karatsuba identity: the middle coefficient from one signed product. */
  lemma KaratsubaIdentity(al: nat, ah: nat, bl: nat, bh: nat, rn: nat, r2n: nat)
    requires r2n == rn * rn
    ensures al * bl + r2n * (ah * bh) + rn * (al * bl + ah * bh + (al - ah) * (bh - bl))
         == (al + rn * ah) * (bl + rn * bh)
    ensures al * bl + ah * bh + (al - ah) * (bh - bl) >= 0
  {
    ProductOfParts(al, ah, bl, bh, rn);
    MiddleIdentity(al, ah, bl, bh);
    MulMono(0, al, bh); MulMono(0, ah, bl);
  }

  lemma ProductFits(m: array<Word>, ap: nat, bp: nat, n: nat)
    requires ap + n <= m.Length && bp + n <= m.Length
    ensures At(m, ap, n) * At(m, bp, n) < Radix(2 * n)
  {
    MiddleBound(m, ap, n); MiddleBound(m, bp, n);
    var x, y, r := At(m, ap, n), At(m, bp, n), Radix(n);
    MulMono(y, r, x);
    SquareTop(x, r);
    RadixDouble(n);
  }

  lemma SquareTop(x: nat, r: nat)
    requires x < r
    ensures x * r < r * r
  {
    MulMono(x + 1, r, r);
    assert (x + 1) * r == x * r + r;
  }

  lemma CarryOff(v: int, c: int, r: int, sum: int)
    requires 0 <= v < r && v + c * r == sum
    ensures v == Modulo(sum, r)
  {
    assert sum == (sum / r) * r + sum % r;
    var k := c - sum / r;
    assert k * r == sum % r - v by { assert k * r == c * r - (sum / r) * r; }
    if k >= 1 { MulMono(1, k, r); }
    if k <= -1 { MulMono(k, -1, r); }
  }

  /** Adding up the three products: a * b in 4n words. */
  method Recombine(m: array<Word>, rp: nat, n: nat, tp: nat, neg: bool,
                   ghost lo: int, ghost hi: int, ghost xy: int, ghost ab: int)
    requires rp + 4 * n <= m.Length && tp + 4 * n <= m.Length && Apart(rp, 4 * n, tp, 4 * n)
    requires At(m, rp, 2 * n) == lo && At(m, rp + 2 * n, 2 * n) == hi && SignedValue(neg, At(m, tp + 2 * n, 2 * n)) == xy
    requires lo + hi + xy >= 0
    requires lo + Radix(2 * n) * hi + Radix(n) * (lo + hi + xy) == ab < Radix(4 * n)
    modifies m
    ensures At(m, rp, 4 * n) == ab
    ensures At(m, tp + 2 * n, 2 * n) == Modulo(lo + hi + xy, Radix(2 * n))
    ensures OnlyChanges2(m, rp, 4 * n, tp, 4 * n)
  {
    hide At, In;
    ghost var s1 := m[..];
    AtSplit(m, rp, 2 * n, 2 * n);
    ghost var total := At(m, rp, 4 * n);
    AtIn(m, rp, 4 * n);
    var c1 := MiddleTerm(m, rp, n, tp, neg, lo, hi, At(m, tp + 2 * n, 2 * n));
    Framed(s1, m, tp, 4 * n, rp, 4 * n);
    ghost var s2 := m[..];
    AtIn(m, tp + 2 * n, 2 * n);
    MiddleBound(m, tp + 2 * n, 2 * n);
    CarryOff(At(m, tp + 2 * n, 2 * n), c1, Radix(2 * n), lo + hi + xy);
    AddMiddle(m, rp, n, tp, c1, total, lo + hi + xy);
    Framed(s2, m, rp, 4 * n, tp + 2 * n, 2 * n);
  }

  /** The same, and what happens to the sixteen words at q, the end of the scratch area: at the innermost level they
      are the middle sum, further out they are left alone. */
  method RecombineAbove(m: array<Word>, rp: nat, n: nat, tp: nat, neg: bool,
                        ghost lo: int, ghost hi: int, ghost xy: int, ghost ab: int, ghost q: nat, ghost cross: nat)
    requires rp + 4 * n <= m.Length && tp + 4 * n <= m.Length && Apart(rp, 4 * n, tp, 4 * n)
    requires At(m, rp, 2 * n) == lo && At(m, rp + 2 * n, 2 * n) == hi && SignedValue(neg, At(m, tp + 2 * n, 2 * n)) == xy
    requires lo + hi + xy >= 0
    requires lo + Radix(2 * n) * hi + Radix(n) * (lo + hi + xy) == ab < Radix(4 * n)
    requires n == 8 ==> q == tp + 16 && cross == Modulo(lo + hi + xy, Radix(16))
    requires n >= 16 ==> tp + 4 * n <= q && q + 16 <= m.Length && Apart(rp, 4 * n, q, 16) && At(m, q, 16) == cross
    modifies m
    ensures At(m, rp, 4 * n) == ab
    ensures n == 8 || n >= 16 ==> q + 16 <= m.Length && At(m, q, 16) == cross
    ensures OnlyChanges2(m, rp, 4 * n, tp, 4 * n)
  {
    hide At, In, Radix, Modulo, SignedValue;
    ghost var s2 := m[..];
    if n >= 16 { AtIn(m, q, 16); }
    Recombine(m, rp, n, tp, neg, lo, hi, xy, ab);
    if n >= 16 { Framed2(s2, m, rp, 4 * n, tp, 4 * n, q, 16); }
  }

  lemma NoScratch()
    ensures MulScratch(8) == 0 && SqrScratch(8) == 0
  {
  }

  /** One Karatsuba level on 2n words. */
  method KaratsubaStep(m: array<Word>, rp: nat, ap: nat, bp: nat, n: nat, tp: nat, ghost a: nat, ghost b: nat,
                       ghost cross: nat)
    requires PowerOfTwo(n) && rp + 4 * n <= m.Length
    requires ap + 2 * n <= m.Length && bp + 2 * n <= m.Length && tp + 4 * n + MulScratch(n) <= m.Length
    requires Apart(tp, 4 * n + MulScratch(n), ap, 2 * n) && Apart(tp, 4 * n + MulScratch(n), bp, 2 * n)
    requires Apart(rp, 4 * n, ap, 2 * n) && Apart(rp, 4 * n, bp, 2 * n) && Apart(rp, 4 * n, tp, 4 * n + MulScratch(n))
    requires At(m, ap, 2 * n) == a && At(m, bp, 2 * n) == b
    requires n >= 8 ==> cross == CrossIn(m[..], ap, bp, 2 * n)
    modifies m
    ensures n == 8 || n >= 16 ==> At(m, tp + 4 * n + MulScratch(n) - 16, 16) == cross
    ensures At(m, rp, 4 * n) == a * b
    ensures OnlyChanges2(m, rp, 4 * n, tp, 4 * n + MulScratch(n))
    decreases n, 4
  {
    hide At, In, PowerOfTwo, MulScratch, CrossIn, Modulo, Radix;
    ScratchSize(n);
    NoScratch();
    ghost var al: int, ah: int := At(m, ap, n), At(m, ap + n, n);
    ghost var bl: int, bh: int := At(m, bp, n), At(m, bp + n, n);
    ghost var lo: int, hi: int, xy: int, ab: int := al * bl, ah * bh, (al - ah) * (bh - bl), a * b;
    AtSplit(m, ap, n, n); AtSplit(m, bp, n, n);
    RadixDouble(n);
    KaratsubaIdentity(al, ah, bl, bh, Radix(n), Radix(2 * n));
    ProductFits(m, ap, bp, 2 * n);
    if n == 8 { CrossOfSixteen(m, ap, bp, al, ah, bl, bh); }
    var neg := HalfProducts(m, rp, ap, bp, n, tp, al, ah, bl, bh, cross);
    RecombineAbove(m, rp, n, tp, neg, lo, hi, xy, ab, End(tp + 4 * n + MulScratch(n)), cross);
  }

  lemma AtLeastEight(n2: nat)
    requires PowerOfTwo(n2) && n2 >= 16
    ensures n2 / 2 == 8 || n2 / 2 >= 16
  {
    if n2 < 32 { PowerBelow32(n2); }
  }

  /** bn_mul_recursive writes exactly a * b into r[0..2*n2), for every power of two n2. Where the C code calls
      bn_mul_comba8 for halves of 8 words, the recursive call here ends in the same kernel. Of the scratch area
      exactly MulScratch(n2) words are used, and the last of them are left holding TopCross. */
  method MulRecursive(m: array<Word>, rp: nat, ap: nat, bp: nat, n2: nat, tp: nat)
    requires PowerOfTwo(n2) && rp + 2 * n2 <= m.Length
    requires ap + n2 <= m.Length && bp + n2 <= m.Length && tp + MulScratch(n2) <= m.Length
    requires Apart(tp, MulScratch(n2), ap, n2) && Apart(tp, MulScratch(n2), bp, n2)
    requires Apart(rp, 2 * n2, ap, n2) && Apart(rp, 2 * n2, bp, n2) && Apart(rp, 2 * n2, tp, MulScratch(n2))
    modifies m
    ensures At(m, rp, 2 * n2) == old(At(m, ap, n2)) * old(At(m, bp, n2))
    ensures n2 >= 16 ==> At(m, tp + MulScratch(n2) - 16, 16) == old(CrossIn(m[..], ap, bp, n2))
    ensures OnlyChanges2(m, rp, 2 * n2, tp, MulScratch(n2))
    decreases n2, 1
  {
    hide At, In, PowerOfTwo, CrossIn;
    ScratchSize(n2);
    PositivePower(n2);
    if n2 == 8 {
      MulComba(m, rp, ap, bp, n2);
      return;
    }
    if n2 < MUL_RECURSIVE_SIZE {
      MulNormal(m, rp, ap, n2, bp, n2);
      return;
    }
    HalfOfPower(n2);
    assert MulScratch(n2) == 4 * (n2 / 2) + MulScratch(n2 / 2);
    AtLeastEight(n2);
    KaratsubaStep(m, rp, ap, bp, n2 / 2, tp, At(m, ap, n2), At(m, bp, n2), CrossIn(m[..], ap, bp, n2));
  }

  /** The magnitude of the one difference of a square. */
  method SquareDifference(m: array<Word>, ap: nat, n: nat, tp: nat, ghost x: int) returns (zero: bool)
    requires 1 <= n && ap + 2 * n <= m.Length && tp + n <= m.Length && Apart(tp, n, ap, 2 * n)
    requires x == At(m, ap, n) - At(m, ap + n, n)
    modifies m
    ensures OnlyChanges(m, tp, n)
    ensures zero <==> x == 0
    ensures !zero ==> At(m, tp, n) == Absolute(x)
  {
    hide At;
    var c1 := CmpWords(m, ap, ap + n, n);
    zero := false;
    if c1 > 0 {
      Difference(m, tp, ap, ap + n, n);
    } else if c1 < 0 {
      Difference(m, tp, ap + n, ap, n);
    } else {
      zero := true;
    }
  }

  lemma NegatedSquare(x: int, p: int)
    requires p == if x == 0 then 0 else Absolute(x) * Absolute(x)
    ensures SignedValue(true, p) == x * (-x)
  {
    assert (-x) * (-x) == x * x && x * (-x) == -(x * x);
  }

  /** The middle square, in t + 2n; its sign is always minus. */
  method MiddleSquare(m: array<Word>, ap: nat, n: nat, tp: nat, ghost al: int, ghost ah: int)
    requires PowerOfTwo(n) && ap + 2 * n <= m.Length && tp + 4 * n + SqrScratch(n) <= m.Length && Apart(tp, 4 * n + SqrScratch(n), ap, 2 * n)
    requires At(m, ap, n) == al && At(m, ap + n, n) == ah
    modifies m
    ensures SignedValue(true, At(m, tp + 2 * n, 2 * n)) == (al - ah) * (ah - al)
    ensures OnlyChanges(m, tp, 4 * n + SqrScratch(n))
    decreases n, 2
  {
    hide At, In, PowerOfTwo, SqrScratch, SignedValue;
    PositivePower(n);
    var zero := SquareDifference(m, ap, n, tp, al - ah);
    if !zero {
      SqrRecursive(m, tp + 2 * n, tp, n, tp + 4 * n);
    } else {
      ZeroWords(m, tp + 2 * n, 2 * n);
    }
    NegatedSquare(al - ah, At(m, tp + 2 * n, 2 * n));
    assert -(al - ah) == ah - al;
  }

  /** The outer squares, low and high. */
  method OuterSquares(m: array<Word>, rp: nat, ap: nat, n: nat, tp: nat, ghost al: int, ghost ah: int, ghost cross: nat)
    requires PowerOfTwo(n) && rp + 4 * n <= m.Length && ap + 2 * n <= m.Length && tp + SqrScratch(n) <= m.Length
    requires Apart(tp, SqrScratch(n), ap, 2 * n) && Apart(rp, 4 * n, ap, 2 * n) && Apart(rp, 4 * n, tp, SqrScratch(n))
    requires At(m, ap, n) == al && At(m, ap + n, n) == ah
    requires n >= 16 ==> cross == CrossIn(m[..], ap, ap, 2 * n)
    modifies m
    ensures n >= 16 ==> At(m, tp + SqrScratch(n) - 16, 16) == cross
    ensures At(m, rp, 2 * n) == al * al && At(m, rp + 2 * n, 2 * n) == ah * ah
    ensures OnlyChanges2(m, rp, 4 * n, tp, SqrScratch(n))
    decreases n, 2
  {
    hide At, In, PowerOfTwo, SqrScratch, CrossIn;
    ScratchSize(n);
    ghost var s1 := m[..];
    AtIn(m, ap + n, n);
    SqrRecursive(m, rp, ap, n, tp);
    Framed2(s1, m, rp, 2 * n, tp, SqrScratch(n), ap + n, n);
    if n >= 16 {
      CrossOfUpper(s1, ap, ap, n);
      CrossKept(s1, m[..], rp, 2 * n, tp, SqrScratch(n), ap + n, ap + n, n);
    }
    ghost var s2 := m[..];
    AtIn(m, rp, 2 * n);
    SqrRecursive(m, rp + 2 * n, ap + n, n, tp);
    Framed2(s2, m, rp + 2 * n, 2 * n, tp, SqrScratch(n), rp, 2 * n);
  }

  /** The three half-size squares. */
  method HalfSquares(m: array<Word>, rp: nat, ap: nat, n: nat, tp: nat, ghost al: int, ghost ah: int, ghost cross: nat)
    requires PowerOfTwo(n) && rp + 4 * n <= m.Length && ap + 2 * n <= m.Length && tp + 4 * n + SqrScratch(n) <= m.Length
    requires Apart(tp, 4 * n + SqrScratch(n), ap, 2 * n) && Apart(rp, 4 * n, ap, 2 * n) && Apart(rp, 4 * n, tp, 4 * n + SqrScratch(n))
    requires At(m, ap, n) == al && At(m, ap + n, n) == ah
    requires n >= 16 ==> cross == CrossIn(m[..], ap, ap, 2 * n)
    modifies m
    ensures n >= 16 ==> At(m, tp + 4 * n + SqrScratch(n) - 16, 16) == cross
    ensures At(m, rp, 2 * n) == al * al && At(m, rp + 2 * n, 2 * n) == ah * ah
    ensures SignedValue(true, At(m, tp + 2 * n, 2 * n)) == (al - ah) * (ah - al)
    ensures OnlyChanges2(m, rp, 4 * n, tp, 4 * n + SqrScratch(n))
    decreases n, 3
  {
    hide At, In, PowerOfTwo, SqrScratch, SignedValue, CrossIn;
    ScratchSize(n);
    ghost var s0 := m[..];
    AtIn(m, ap, n); AtIn(m, ap + n, n);
    MiddleSquare(m, ap, n, tp, al, ah);
    Framed(s0, m, tp, 4 * n + SqrScratch(n), ap, n); Framed(s0, m, tp, 4 * n + SqrScratch(n), ap + n, n);
    if n >= 16 { CrossKept(s0, m[..], tp, 4 * n + SqrScratch(n), tp, 4 * n + SqrScratch(n), ap, ap, 2 * n); }
    ghost var s1 := m[..];
    AtIn(m, tp + 2 * n, 2 * n);
    OuterSquares(m, rp, ap, n, tp + 4 * n, al, ah, cross);
    Framed2(s1, m, rp, 4 * n, tp + 4 * n, SqrScratch(n), tp + 2 * n, 2 * n);
  }

  /** bn_sqr_recursive writes exactly a * a into r[0..2*n2), for every power of two n2. */
  method SqrRecursive(m: array<Word>, rp: nat, ap: nat, n2: nat, tp: nat)
    requires PowerOfTwo(n2) && rp + 2 * n2 <= m.Length && ap + n2 <= m.Length && tp + SqrScratch(n2) <= m.Length
    requires Apart(tp, SqrScratch(n2), ap, n2) && Apart(rp, 2 * n2, ap, n2) && Apart(rp, 2 * n2, tp, SqrScratch(n2))
    modifies m
    ensures At(m, rp, 2 * n2) == old(At(m, ap, n2)) * old(At(m, ap, n2))
    ensures n2 >= 16 ==> At(m, tp + SqrScratch(n2) - 16, 16) == old(CrossIn(m[..], ap, ap, n2))
    ensures OnlyChanges2(m, rp, 2 * n2, tp, SqrScratch(n2))
    decreases n2, 1
  {
    hide At, In, PowerOfTwo, CrossIn;
    ScratchSize(n2);
    PositivePower(n2);
    if n2 == 4 || n2 == 8 {
      SqrComba(m, rp, ap, n2);
      return;
    }
    if n2 < SQR_RECURSIVE_SIZE {
      SqrNormal(m, rp, ap, n2, tp);
      return;
    }
    HalfOfPower(n2);
    assert SqrScratch(n2) == 4 * (n2 / 2) + SqrScratch(n2 / 2);
    AtLeastEight(n2);
    SquareStep(m, rp, ap, n2 / 2, tp, At(m, ap, n2), CrossIn(m[..], ap, ap, n2));
  }

  method SquareStep(m: array<Word>, rp: nat, ap: nat, n: nat, tp: nat, ghost a: nat, ghost cross: nat)
    requires PowerOfTwo(n) && rp + 4 * n <= m.Length && ap + 2 * n <= m.Length && tp + 4 * n + SqrScratch(n) <= m.Length
    requires Apart(tp, 4 * n + SqrScratch(n), ap, 2 * n) && Apart(rp, 4 * n, ap, 2 * n) && Apart(rp, 4 * n, tp, 4 * n + SqrScratch(n))
    requires At(m, ap, 2 * n) == a
    requires n >= 8 ==> cross == CrossIn(m[..], ap, ap, 2 * n)
    modifies m
    ensures n == 8 || n >= 16 ==> At(m, tp + 4 * n + SqrScratch(n) - 16, 16) == cross
    ensures At(m, rp, 4 * n) == a * a
    ensures OnlyChanges2(m, rp, 4 * n, tp, 4 * n + SqrScratch(n))
    decreases n, 4
  {
    hide At, In, PowerOfTwo, SqrScratch, CrossIn, Modulo, Radix;
    ScratchSize(n);
    NoScratch();
    ghost var al: int, ah: int := At(m, ap, n), At(m, ap + n, n);
    ghost var lo: int, hi: int, xy: int, aa: int := al * al, ah * ah, (al - ah) * (ah - al), a * a;
    AtSplit(m, ap, n, n);
    RadixDouble(n);
    KaratsubaIdentity(al, ah, al, ah, Radix(n), Radix(2 * n));
    ProductFits(m, ap, ap, 2 * n);
    if n == 8 { CrossOfSixteen(m, ap, ap, al, ah, al, ah); }
    HalfSquares(m, rp, ap, n, tp, al, ah, cross);
    RecombineAbove(m, rp, n, tp, true, lo, hi, xy, aa, End(tp + 4 * n + SqrScratch(n)), cross);
  }
}
