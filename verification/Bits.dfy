/** Powers of two, bit lengths and single bits of word sequences. */
module Bits {
  import opened Words
  import opened WordQuotient

  /** 2 to the n-th power. */
  function Two(n: nat): (r: nat)
    ensures r > 0
  {
    if n == 0 then 1 else 2 * Two(n - 1)
  }

  lemma {:induction false} TwoAdd(m: nat, n: nat)
    ensures Two(m + n) == Two(m) * Two(n)
  {
    if m > 0 {
      TwoAdd(m - 1, n);
      assert Two(m + n) == 2 * (Two(m - 1) * Two(n));
    }
  }

  lemma TwoWord()
    ensures Two(32) == BASE
  {
    assert Two(8) == 256;
    TwoAdd(8, 8); TwoAdd(16, 16);
  }

  lemma HalfWordPower()
    ensures Two(31) == BASE / 2
  {
    TwoWord();
    assert Two(32) == 2 * Two(31);
  }

  lemma {:induction false} RadixTwo(n: nat)
    ensures Radix(n) == Two(32 * n)
  {
    if n > 0 {
      RadixTwo(n - 1);
      TwoWord();
      TwoAdd(32, 32 * (n - 1));
      assert 32 + 32 * (n - 1) == 32 * n;
    }
  }

  lemma {:induction false} TwoMonotone(m: nat, n: nat)
    requires m <= n
    ensures Two(m) <= Two(n)
    ensures m < n ==> 2 * Two(m) <= Two(n)
  {
    if m < n {
      TwoMonotone(m, n - 1);
    }
  }

  /** The number of bits of x: what BN_num_bits returns. */
  function BitLen(x: nat): (n: nat)
  {
    if x == 0 then 0 else 1 + BitLen(x / 2)
  }

  lemma {:induction false} BitLenBounds(x: nat)
    ensures x < Two(BitLen(x))
    ensures x > 0 ==> BitLen(x) >= 1 && Two(BitLen(x) - 1) <= x
  {
    if x > 0 {
      BitLenBounds(x / 2);
    }
  }

  /** The bit length is the one n with 2^(n-1) <= x < 2^n. */
  lemma BitLenUnique(x: nat, n: nat)
    requires n >= 1 && Two(n - 1) <= x < Two(n)
    ensures BitLen(x) == n
  {
    BitLenBounds(x);
    if BitLen(x) < n { TwoMonotone(BitLen(x), n - 1); }
    if BitLen(x) > n { TwoMonotone(n, BitLen(x) - 1); }
  }

  lemma BitLenShift(x: nat, k: nat)
    requires x >= Two(k)
    ensures BitLen(x) == k + BitLen(x / Two(k))
  {
    var y := x / Two(k);
    DivBounds(x, Two(k));
    assert y == 0 ==> y * Two(k) == 0;
    BitLenBounds(y);
    var n := BitLen(y);
    TwoAdd(n, k); TwoAdd(n - 1, k);
    MulMono(y + 1, Two(n), Two(k));
    MulMono(Two(n - 1), y, Two(k));
    BitLenUnique(x, n + k);
  }

  /** The table of bit lengths of one byte. */
  function ByteBits(b: int): (n: nat)
    requires 0 <= b < 256
    ensures n == BitLen(b)
  {
    if b < 1 then 0 else if b < 2 then 1 else if b < 4 then 2 else if b < 8 then 3 else if b < 16 then 4
    else if b < 32 then ByteUpper(b, 5); 5 else if b < 64 then ByteUpper(b, 6); 6
    else if b < 128 then ByteUpper(b, 7); 7 else ByteUpper(b, 8); 8
  }

  lemma ByteUpper(b: int, n: nat)
    requires 5 <= n <= 8 && Two(n - 1) <= b < Two(n)
    ensures BitLen(b) == n
  {
    BitLenUnique(b, n);
  }

  lemma SmallPowers()
    ensures Two(8) == 0x100 && Two(16) == 0x1_0000 && Two(24) == 0x100_0000 && Two(32) == BASE
  {
    assert Two(8) == 0x100;
    TwoAdd(8, 8); TwoAdd(16, 8);
    TwoWord();
  }

  /** BN_num_bits_word: which byte is the highest non-zero one, then the table. */
  method NumBitsWord(l: Word) returns (n: nat)
    ensures n == BitLen(l)
  {
    SmallPowers();
    if l >= 0x1_0000 {
      if l >= 0x100_0000 {
        BitLenShift(l, 24);
        n := ByteBits(l / 0x100_0000) + 24;
      } else {
        BitLenShift(l, 16);
        n := ByteBits(l / 0x1_0000) + 16;
      }
    } else if l >= 0x100 {
      BitLenShift(l, 8);
      n := ByteBits(l / 0x100) + 8;
    } else {
      n := ByteBits(l);
    }
  }

  /** BN_num_bits. */
  method NumBits(a: seq<Word>) returns (n: nat)
    requires Normal(a)
    ensures n == BitLen(Val(a))
  {
    if a == [] { return 0; }
    var k := NumBitsWord(a[|a| - 1]);
    n := (|a| - 1) * 32 + k;
    NumBitsOf(a);
  }

  lemma NumBitsOf(a: seq<Word>)
    requires Normal(a) && a != []
    ensures BitLen(Val(a)) == (|a| - 1) * 32 + BitLen(a[|a| - 1])
  {
    hide Val, Radix, BitLen, Two;
    var k := |a| - 1;
    var x: nat := a[k];
    assert a == a[..k] + [a[k]];
    ValSnoc(a[..k], a[k]);
    ValBound(a[..k]);
    RadixTwo(k);
    LeadingQuotient(Val(a[..k]), x, Radix(k));
    BitLenShift(Val(a), 32 * k);
  }

  lemma LeadingQuotient(low: nat, x: nat, r: nat)
    requires low < r && x >= 1
    ensures (low + x * r) / r == x && low + x * r >= r
  {
    MulMono(1, x, r);
    assert (x + 1) * r == x * r + r;
    QuotientUnique(low + x * r, r, x);
  }

  /** Bit n of x. */
  predicate Bit(x: nat, n: nat)
  {
    (x / Two(n)) % 2 == 1
  }

  /** BN_is_bit_set looks into the word that holds the bit. */
  method IsBitSet(a: seq<Word>, n: nat) returns (r: bool)
    ensures r == Bit(Val(a), n)
  {
    var i, j := n / 32, n % 32;
    if |a| <= i {
      BeyondTop(a, n);
      return false;
    }
    BitOfWord(a, i, j);
    assert n == 32 * i + j;
    r := (a[i] / Two(j)) % 2 == 1;
  }

  lemma BeyondTop(a: seq<Word>, n: nat)
    requires |a| <= n / 32
    ensures Val(a) / Two(n) == 0
  {
    ValBound(a);
    RadixTwo(|a|);
    TwoMonotone(32 * |a|, n);
    QuotientUnique(Val(a), Two(n), 0);
  }

  /** Shifting off whole words and j more bits leaves part of word i below the words above it. */
  lemma QuotientOfWord(a: seq<Word>, i: nat, j: nat)
    requires i < |a| && j <= 32
    ensures Val(a) / Two(32 * i + j) == a[i] / Two(j) + Two(32 - j) * Val(a[i + 1..])
  {
    var low, w: nat, hi := Val(a[..i]), a[i], Val(a[i + 1..]);
    ValSplit(a, i);
    assert a[i..][1..] == a[i + 1..];
    ValBound(a[..i]);
    var p, c := Two(j), Two(32 - j);
    var q := w / p + c * hi;
    DivBounds(w, p);
    TwoAdd(j, 32 - j); TwoWord();
    RadixTwo(i);
    TwoAdd(32 * i, j);
    Regroup(w, hi, p, c, q);
    Scale(Radix(i), low, w + BASE * hi, q, p);
    QuotientUnique(Val(a), Two(32 * i + j), q);
  }

  lemma BitOfWord(a: seq<Word>, i: nat, j: nat)
    requires i < |a| && j < 32
    ensures (Val(a) / Two(32 * i + j)) % 2 == (a[i] / Two(j)) % 2
  {
    QuotientOfWord(a, i, j);
    var w: nat := a[i];
    assert Two(32 - j) == 2 * Two(31 - j);
    EvenPart(w / Two(j), Two(31 - j), Val(a[i + 1..]));
  }

  lemma Regroup(w: int, hi: int, p: int, c: int, q: int)
    requires p > 0 && p * c == BASE && (w / p) * p <= w < (w / p + 1) * p && q == w / p + c * hi
    ensures q * p <= w + BASE * hi < (q + 1) * p
  {
    assert (c * hi) * p == (p * c) * hi;
    assert q * p == (w / p) * p + (c * hi) * p;
    assert (q + 1) * p == q * p + p && (w / p + 1) * p == (w / p) * p + p;
  }

  lemma Scale(r: int, low: int, v: int, q: int, p: int)
    requires 0 <= low < r && q * p <= v < (q + 1) * p
    ensures q * (r * p) <= low + r * v < (q + 1) * (r * p)
  {
    MulMono(q * p, v, r);
    MulMono(v + 1, (q + 1) * p, r);
    assert q * (r * p) == (q * p) * r && (q + 1) * (r * p) == ((q + 1) * p) * r;
    assert (v + 1) * r == v * r + r;
  }

  lemma EvenPart(x: int, h: int, y: int)
    ensures (x + (2 * h) * y) % 2 == x % 2
  {
    assert (2 * h) * y == 2 * (h * y);
  }

  /** BN_set_bit: pad with zero words up to the bit's word, then set it. */
  method SetBitIn(a: seq<Word>, n: nat) returns (r: seq<Word>)
    requires Normal(a)
    ensures Normal(r) && Val(r) == (if Bit(Val(a), n) then Val(a) else Val(a) + Two(n))
  {
    hide Val, Radix, Two;
    var i, j := n / 32, n % 32;
    assert n == 32 * i + j;
    r := a;
    if |a| <= i {
      var zeros := seq(i + 1 - |a|, k requires 0 <= k < i + 1 - |a| => 0 as Word);
      r := a + zeros;
      ValAppend(a, zeros);
      ValZeros(zeros);
    }
    BitOfWord(r, i, j);
    if (r[i] / Two(j)) % 2 == 0 {
      ClearBitRoom(r[i], j);
      var w: Word := r[i] + Two(j);
      ValUpdate(r, i, w);
      RadixTwo(i);
      TwoAdd(32 * i, j);
      MulComm(Radix(i), Two(j));
      r := r[i := w];
    } else {
      NonZeroBit(r[i], j);
    }
  }

  lemma NonZeroBit(w: nat, j: nat)
    requires (w / Two(j)) % 2 == 1
    ensures w != 0
  {
    if w == 0 { QuotientUnique(0, Two(j), 0); }
  }

  /** A word whose bit j is clear has room for it. */
  lemma ClearBitRoom(w: Word, j: nat)
    requires j < 32 && (w / Two(j)) % 2 == 0
    ensures w + Two(j) < BASE
  {
    TwoAdd(j, 32 - j); TwoWord();
    assert Two(32 - j) == 2 * Two(31 - j);
    RoomBelow(w, Two(j), Two(31 - j));
  }

  lemma RoomBelow(x: nat, p: int, c: int)
    requires p > 0 && x < p * (2 * c) && (x / p) % 2 == 0
    ensures x + p < p * (2 * c)
  {
    var q := x / p;
    DivBounds(x, p);
    BelowFactor(x, p, 2 * c, q);
    MulMono(q + 2, 2 * c, p);
    assert (q + 2) * p == (q + 1) * p + p;
  }

  lemma BelowFactor(x: int, p: int, c: int, q: int)
    requires p > 0 && q * p <= x < p * c
    ensures q < c
  {
    if q >= c { MulMono(c, q, p); }
  }

  lemma {:induction false} ValUpdate(s: seq<Word>, i: nat, w: Word)
    requires i < |s|
    ensures Val(s[i := w]) == Val(s) + (w as int - s[i] as int) * Radix(i)
  {
    var t := s[i := w];
    ValSplit(s, i); ValSplit(t, i);
    assert t[..i] == s[..i] && t[i..][1..] == s[i..][1..];
    assert s[i..][0] == s[i] && t[i..][0] == w;
    var d: int, h: int := w as int - s[i] as int, Val(s[i..]);
    assert Radix(i) * (h + d) == Radix(i) * h + d * Radix(i);
  }
}
