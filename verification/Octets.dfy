/** Big-endian byte strings and numbers: BN_bin2bn and BN_bn2bin. */
module Octets {
  import opened Words
  import opened WordQuotient
  import opened Bits
  import opened BigNums
  import opened BigDivision

  type Octet = x: int | 0 <= x < 256 witness 0

  /** The number a big-endian byte string stands for. */
  function BeVal(s: seq<Octet>): (v: nat)
  {
    if s == [] then 0 else 256 * BeVal(s[..|s| - 1]) + s[|s| - 1]
  }

  lemma BeSnoc(s: seq<Octet>, b: Octet)
    ensures BeVal(s + [b]) == 256 * BeVal(s) + b
  {
    assert (s + [b])[..|s|] == s;
  }

  lemma BePrefix(s: seq<Octet>, k: nat)
    requires k < |s|
    ensures BeVal(s[..k + 1]) == 256 * BeVal(s[..k]) + s[k]
  {
    assert s[..k + 1] == s[..k] + [s[k]];
    BeSnoc(s[..k], s[k]);
  }

  lemma {:induction false} BeBound(s: seq<Octet>)
    ensures BeVal(s) < Two(8 * |s|)
    ensures s != [] && s[0] == 0 ==> BeVal(s) < Two(8 * (|s| - 1))
    ensures s != [] && s[0] != 0 ==> BeVal(s) >= Two(8 * (|s| - 1))
  {
    if s != [] {
      var t := s[..|s| - 1];
      BeBound(t);
      TwoAdd(8, 8 * |t|);
      SmallPowers();
      if t != [] {
        TwoAdd(8, 8 * (|t| - 1));
      } else {
        assert Two(0) == 1;
      }
    }
  }

  /** A byte string without leading zero byte. */
  predicate Canonical(s: seq<Octet>)
  {
    s == [] || s[0] != 0
  }

  lemma {:induction false} SameLength(s: seq<Octet>, t: seq<Octet>)
    requires |s| == |t| && BeVal(s) == BeVal(t)
    ensures s == t
  {
    if s != [] {
      SameLength(s[..|s| - 1], t[..|t| - 1]);
      assert s == s[..|s| - 1] + [s[|s| - 1]];
      assert t == t[..|t| - 1] + [t[|t| - 1]];
    }
  }

  /** Equal numbers have the same canonical bytes. */
  lemma CanonicalUnique(s: seq<Octet>, t: seq<Octet>)
    requires Canonical(s) && Canonical(t) && BeVal(s) == BeVal(t)
    ensures s == t
  {
    BeBound(s); BeBound(t);
    if |s| < |t| { TwoMonotone(8 * |s|, 8 * (|t| - 1)); }
    if |t| < |s| { TwoMonotone(8 * |t|, 8 * (|s| - 1)); }
    SameLength(s, t);
  }

  /** A byte string without its leading zero bytes. */
  function Strip(s: seq<Octet>): (t: seq<Octet>)
    ensures Canonical(t)
  {
    if s == [] || s[0] != 0 then s else Strip(s[1..])
  }

  lemma {:induction false} ZeroFirst(s: seq<Octet>)
    requires s != [] && s[0] == 0
    ensures BeVal(s[1..]) == BeVal(s)
  {
    if |s| == 1 {
      assert s[..0] == [] && s[1..] == [];
    } else {
      var t := s[..|s| - 1];
      ZeroFirst(t);
      assert s[1..][..|s[1..]| - 1] == t[1..];
    }
  }

  lemma {:induction false} StripKeepsValue(s: seq<Octet>)
    ensures BeVal(Strip(s)) == BeVal(s)
  {
    if s != [] && s[0] == 0 {
      ZeroFirst(s);
      StripKeepsValue(s[1..]);
    }
  }

  /** The canonical bytes of the number of s are s without its leading zeros: bn2bin after bin2bn. */
  lemma BytesRoundTrip(s: seq<Octet>, t: seq<Octet>)
    requires Canonical(t) && BeVal(t) == BeVal(s)
    ensures t == Strip(s)
  {
    StripKeepsValue(s);
    CanonicalUnique(t, Strip(s));
  }

  /** The word under construction takes one more byte. */
  lemma TakeByte(v: int, w: int, l: int, m: nat, b: int)
    requires m <= 3 && v == w * Two(8 * (3 - m)) + l && 0 <= l < Two(8 * (3 - m)) && 0 <= b < 256
    ensures 256 * v + b == w * Two(8 * (4 - m)) + (256 * l + b)
    ensures 256 * l + b < Two(8 * (4 - m)) <= BASE
  {
    TwoAdd(8, 8 * (3 - m));
    assert 8 + 8 * (3 - m) == 8 * (4 - m);
    SmallPowers();
    assert w * (256 * Two(8 * (3 - m))) == 256 * (w * Two(8 * (3 - m)));
    TwoMonotone(8 * (4 - m), 32);
  }

  /** BN_bin2bn: words are filled from the top one down, bytes taken in order. */
  method FromBytes(s: seq<Octet>, ret: BigNum)
    modifies ret
    ensures ret.Valid() && ret.Mag() == BeVal(s)
    ensures ret.neg == (s == [] && old(ret.neg))
  {
    hide Val, Two;
    EmptyVal();
    if s == [] {
      ret.d := [];
      return;
    }
    var n, k := |s|, 0;
    var i, m := (n - 1) / 4 + 1, (n - 1) % 4;
    var d := new Word[i];
    var l: Word := 0;
    SmallPowers();
    assert s[..0] == [] && d[i..] == [];
    ZeroTimes(Two(8 * (3 - m)));
    while n > 0
      invariant 0 <= n && 0 <= k && n + k == |s| && 0 <= m <= 3 && 0 <= i <= d.Length && n == 4 * (i - 1) + m + 1
      invariant l < Two(8 * (3 - m))
      invariant BeVal(s[..k]) == Val(d[i..]) * Two(8 * (3 - m)) + l
      decreases n
    {
      BePrefix(s, k);
      TakeByte(BeVal(s[..k]), Val(d[i..]), l, m, s[k]);
      l := 256 * l + s[k];
      k, n := k + 1, n - 1;
      if m == 0 {
        ghost var t := d[i..];
        i := i - 1;
        d[i] := l;
        assert d[i..] == [l] + t;
        ValCons(l, t);
        TwoWord();
        l := 0;
        m := 3;
        ZeroPower(Val(d[i..]));
      } else {
        m := m - 1;
      }
    }
    EndOfBytes(Val(d[i..]), l, m);
    assert s[..k] == s && d[i..] == d[..];
    ret.neg := false;
    ret.d := Trim(d[..]);
  }

  lemma ZeroTimes(x: int)
    requires x > 0
    ensures 0 * x == 0
  {
  }

  lemma ZeroPower(v: int)
    ensures Two(0) == 1 && v * Two(0) == v
  {
  }

  lemma EndOfBytes(v: int, l: int, m: nat)
    requires m == 3 && 0 <= l < Two(8 * (3 - m))
    ensures l == 0 && v * Two(8 * (3 - m)) == v
  {
    ZeroPower(v);
  }

  /** Octet i of a number, and the bytes above it. */
  lemma ByteStep(a: seq<Word>, i: nat)
    requires i / 4 < |a|
    ensures Val(a) / Two(8 * i) == 256 * (Val(a) / Two(8 * (i + 1))) + (a[i / 4] / Two(8 * (i % 4))) % 256
  {
    hide Val, Two;
    var k, j := i / 4, 8 * (i % 4);
    assert 8 * i == 32 * k + j;
    QuotientOfWord(a, k, j);
    var x: nat := a[k] / Two(j);
    TwoAdd(8, 24 - j);
    SmallPowers();
    LowByte(x, Two(24 - j), Val(a[k + 1..]));
    var v, p := Val(a), Two(8 * i);
    TwoAdd(8 * i, 8);
    DivideTwice(v, p);
  }

  lemma LowByte(x: int, c: int, h: int)
    ensures (x + (256 * c) * h) % 256 == x % 256
  {
    assert (256 * c) * h == 256 * (c * h);
  }

  lemma DivideTwice(v: nat, p: nat)
    requires p > 0
    ensures v / p == 256 * (v / (p * 256)) + (v / p) % 256
  {
    var q := v / p;
    DivBounds(v, p);
    var h, r := q / 256, q % 256;
    assert q * p == h * (p * 256) + r * p by { assert (256 * h) * p == h * (p * 256); }
    MulMono(r, 255, p);
    MulMono(0, r, p);
    RemainderUnique(v, p * 256, h, r * p + (v - q * p));
  }

  /** BN_num_bytes. */
  function NumBytes(bits: nat): (n: nat)
  {
    (bits + 7) / 8
  }

  /** BN_bn2bin writes exactly the canonical bytes of the magnitude, most significant first. */
  method ToBytes(a: BigNum, to: array<Octet>) returns (n: nat)
    requires a.Valid() && to.Length >= NumBytes(BitLen(a.Mag()))
    modifies to
    ensures n == NumBytes(BitLen(a.Mag())) <= to.Length && to[n..] == old(to[n..])
    ensures Canonical(to[..n]) && BeVal(to[..n]) == a.Mag()
  {
    hide Val, Two, BitLen;
    var bits := a.Bits();
    n := NumBytes(bits);
    var i := n;
    ghost var v := a.Mag();
    BytesCover(a.d);
    while i > 0
      invariant 0 <= i <= n && to[n..] == old(to[n..])
      invariant BeVal(to[..n - i]) == v / Two(8 * i)
    {
      i := i - 1;
      ByteStep(a.d, i);
      ghost var before := to[..n - (i + 1)];
      ghost var after := to[n..];
      var l: nat := a.d[i / 4];
      var b: Octet := (l / Two(8 * (i % 4))) % 256;
      to[n - 1 - i] := b;
      assert to[n..] == after;
      assert to[..n - i] == before + [b];
      BeSnoc(before, b);
    }
    ZeroPower(v);
    NoLeadingZero(to[..n], v);
  }

  lemma BytesCover(a: seq<Word>)
    requires Normal(a)
    ensures Val(a) / Two(8 * NumBytes(BitLen(Val(a)))) == 0
    ensures forall i :: 0 <= i < NumBytes(BitLen(Val(a))) ==> i / 4 < |a|
  {
    hide Val, Two, BitLen;
    var n := NumBytes(BitLen(Val(a)));
    BitLenBounds(Val(a));
    TwoMonotone(BitLen(Val(a)), 8 * n);
    QuotientUnique(Val(a), Two(8 * n), 0);
    WordsHold(a);
  }

  lemma WordsHold(a: seq<Word>)
    requires Normal(a)
    ensures BitLen(Val(a)) <= 32 * |a|
  {
    if a == [] {
      EmptyVal();
      return;
    }
    NumBitsOf(a);
    TwoWord();
    var x: nat := a[|a| - 1];
    BitLenAtMost(x, 32);
  }

  lemma NoLeadingZero(s: seq<Octet>, v: nat)
    requires BeVal(s) == v && |s| == NumBytes(BitLen(v))
    ensures Canonical(s)
  {
    if s != [] {
      BeBound(s);
      BitLenBounds(v);
      TwoMonotone(8 * (|s| - 1), BitLen(v) - 1);
    }
  }
}
