/** The carry macros of bn_lcl.h in the branch without a double-width integer type: every product
    of two words is assembled from four half-word products. */
module HalfWords {
  import opened Words

  const HALF: int := 0x1_0000
  type HalfWord = x: int | 0 <= x < HALF witness 0

  function LBits(a: Word): (r: HalfWord)
  {
    a % HALF
  }

  function HBits(a: Word): (r: HalfWord)
  {
    a / HALF
  }

  /** A half-word product always fits a word. */
  lemma HalfProduct(x: HalfWord, y: HalfWord)
    ensures 0 <= x * y <= (HALF - 1) * (HALF - 1)
  {
    MulMono(0, x, y);
    MulMono(x, 0xffff, y);
    assert 0 <= x * y <= 0xffff * y <= 0xffff * 0xffff;
  }

  lemma FourProducts(lt: int, ht: int, bl: int, bh: int)
    ensures (lt + ht * HALF) * (bl + bh * HALF)
         == bl * lt + (bh * lt + bl * ht) * HALF + bh * ht * BASE
  {
    assert (lt + ht * HALF) * (bl + bh * HALF) == lt * (bl + bh * HALF) + ht * HALF * (bl + bh * HALF);
    assert lt * (bl + bh * HALF) == bl * lt + bh * lt * HALF;
    assert ht * HALF * (bl + bh * HALF) == bl * ht * HALF + bh * ht * BASE;
  }

  /** mul64: the four half-word products, with the carry out of the middle sum (m < m1) and the
      carry out of the low word (lt < m1) added to the high word. */
  method Mul64(l: HalfWord, h: HalfWord, bl: HalfWord, bh: HalfWord) returns (lo: Word, hi: Word)
    ensures lo + hi * BASE == (l + h * HALF) * (bl + bh * HALF)
  {
    HalfProduct(bh, l); HalfProduct(bl, l); HalfProduct(bl, h); HalfProduct(bh, h);
    ghost var p00, p10, p01, p11 := bl * l, bh * l, bl * h, bh * h;
    var m: Word := bh * l;
    var lt: Word := bl * l;
    var m1: Word := bl * h;
    var ht: int := bh * h;
    m := (m + m1) % BASE;
    if m < m1 { ht := ht + HALF; }
    ht := ht + HBits(m);
    m1 := (m * HALF) % BASE;
    lt := (lt + m1) % BASE;
    if lt < m1 { ht := ht + 1; }
    FourProducts(l, h, bl, bh);
    MiddleSum(p00, p10, p01, p11, m, lt, ht);
    lo, hi := lt, ht;
  }

  /** The wrap tests of mul64 recover exactly the carries. */
  lemma MiddleSum(p00: int, p10: int, p01: int, p11: int, m: Word, lt: Word, ht: int)
    requires 0 <= p00 <= (HALF - 1) * (HALF - 1) && 0 <= p10 <= (HALF - 1) * (HALF - 1)
    requires 0 <= p01 <= (HALF - 1) * (HALF - 1) && 0 <= p11 <= (HALF - 1) * (HALF - 1)
    requires m == (p10 + p01) % BASE
    requires lt == (p00 + (m * HALF) % BASE) % BASE
    requires ht == p11 + (if m < p01 then HALF else 0) + m / HALF + (if lt < (m * HALF) % BASE then 1 else 0)
    ensures 0 <= ht < BASE
    ensures lt + ht * BASE == p00 + (p10 + p01) * HALF + p11 * BASE
  {
    assert (m * HALF) % BASE == (m % HALF) * HALF;
    var x := (m % HALF) * HALF;
    assert m + (if m < p01 then BASE else 0) == p10 + p01;
    assert lt + (if lt < x then BASE else 0) == p00 + x;
    assert lt + ht * BASE == p00 + (p10 + p01) * HALF + p11 * BASE;
    assert ht * BASE <= p00 + (p10 + p01) * HALF + p11 * BASE < BASE * BASE;
  }

  /** sqr64: the square of one word from three half-word products; the middle product counts twice. */
  method Sqr64(a: Word) returns (lo: Word, ho: Word)
    ensures lo + ho * BASE == a * a
  {
    var l: HalfWord, h: HalfWord := LBits(a), HBits(a);
    HalfProduct(l, h); HalfProduct(l, l); HalfProduct(h, h);
    ghost var p00, p01, p11 := l * l, l * h, h * h;
    var m: Word := l * h;
    var ll: Word := l * l;
    var hh: int := h * h;
    hh := hh + m / (HALF / 2);                   // (m & MASK2h1) >> (BITS4 - 1)
    m := (m % (HALF / 2)) * (HALF * 2);          // (m & MASK2l) << (BITS4 + 1), top bit shifted out
    ll := (ll + m) % BASE;
    if ll < m { hh := hh + 1; }
    assert a == l + h * HALF;
    FourProducts(l, h, l, h);
    assert h * l == p01;
    SquareSum(p00, p01, p11, m, ll, hh);
    lo, ho := ll, hh;
  }

  lemma SquareSum(p00: int, p01: int, p11: int, m: Word, ll: Word, hh: int)
    requires 0 <= p00 <= (HALF - 1) * (HALF - 1) && 0 <= p01 <= (HALF - 1) * (HALF - 1)
    requires 0 <= p11 <= (HALF - 1) * (HALF - 1)
    requires m == (p01 % (HALF / 2)) * (HALF * 2)
    requires ll == (p00 + m) % BASE
    requires hh == p11 + p01 / (HALF / 2) + (if ll < m then 1 else 0)
    ensures 0 <= hh < BASE
    ensures ll + hh * BASE == p00 + (p01 + p01) * HALF + p11 * BASE
  {
    var k := p01 / (HALF / 2);
    var j := p01 % (HALF / 2);
    assert p01 == 0x8000 * k + j;
    assert m == 0x2_0000 * j;
    assert ll + (if ll < m then BASE else 0) == p00 + m;
    assert (p01 + p01) * HALF == BASE * k + m;
    assert hh * BASE <= p00 + (p01 + p01) * HALF + p11 * BASE < BASE * BASE;
  }

  lemma SplitWord(a: Word)
    ensures a == LBits(a) + HBits(a) * HALF
  {
  }

  /** A product of two words plus two words never overflows two words. */
  lemma ProductRoom(x: int, w: int)
    requires 0 <= x < BASE && 0 <= w < BASE
    ensures 0 <= x * w <= (BASE - 1) * (BASE - 1)
  {
    MulMono(0, x, w);
    MulMono(x, 0xffff_ffff, w);
    assert 0 <= x * w <= 0xffff_ffff * w <= 0xffff_ffff * 0xffff_ffff;
  }

  /** Adding a word to a two-word number that has room for it. */
  method AddCarryWord(l: Word, h: int, c: Word, ghost p: int) returns (l': Word, h': int)
    requires l + h * BASE == p
    ensures l' + h' * BASE == p + c && h <= h'
  {
    h' := h;
    l' := (l + c) % BASE;
    if l' < c { h' := h' + 1; }
  }

  /** mul_add: (r) and (c) become the low and high word of a * w + r + c. */
  method MulAdd(r: Word, a: Word, bl: HalfWord, bh: HalfWord, c: Word) returns (r': Word, c': Word)
    ensures r' + c' * BASE == a * (bl + bh * HALF) + r + c
  {
    SplitWord(a);
    var l, h := Mul64(LBits(a), HBits(a), bl, bh);
    ghost var p: int := a * (bl + bh * HALF);
    ProductRoom(a, bl + bh * HALF);
    var hh: int;
    l, hh := AddCarryWord(l, h, c, p);
    l, hh := AddCarryWord(l, hh, r, p + c);
    HighWordFits(p + c + r, l, hh);
    r', c' := l, hh % BASE;
  }

  lemma HighWordFits(x: int, l: Word, h: int)
    requires l + h * BASE == x <= (BASE - 1) * (BASE - 1) + 2 * (BASE - 1) && h >= 0
    ensures h < BASE && h % BASE == h
  {
  }

  /** mul: (r) and (c) become the low and high word of a * w + c. */
  method Mul(a: Word, bl: HalfWord, bh: HalfWord, c: Word) returns (r: Word, c': Word)
    ensures r + c' * BASE == a * (bl + bh * HALF) + c
  {
    SplitWord(a);
    var l, h := Mul64(LBits(a), HBits(a), bl, bh);
    ghost var p := l + h * BASE;
    ProductRoom(a, bl + bh * HALF);
    var ll: int := l + c;
    var hh: int := h;
    if ll % BASE < c { hh := hh + 1; }
    assert ll % BASE + hh * BASE == p + c;
    assert hh < BASE;
    r, c' := ll % BASE, hh % BASE;
  }
}
