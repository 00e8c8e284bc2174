/** Arrays of machine words and the natural numbers they stand for.

    A BN_ULONG is modelled as an integer below BASE = 2^32; every wrap-around of the C code is
    written out with % BASE. A little-endian word sequence s stands for Val(s). */
module Words {
  const BASE: int := 0x1_0000_0000
  type Word = x: int | 0 <= x < BASE witness 0

  /** BASE to the n-th power. */
  function Radix(n: nat): (r: nat)
    ensures r > 0
  {
    if n == 0 then 1 else BASE * Radix(n - 1)
  }

  /** The number a little-endian word sequence stands for. */
  function Val(s: seq<Word>): (v: nat)
  {
    if s == [] then 0 else s[0] + BASE * Val(s[1..])
  }

  lemma RadixZero()
    ensures Radix(0) == 1
  {
  }

  lemma RadixUp(i: nat)
    ensures Radix(i + 1) == BASE * Radix(i)
  {
  }

  lemma EmptyVal()
    ensures Val([]) == 0
  {
  }

  lemma {:induction false} RadixAdd(m: nat, n: nat)
    ensures Radix(m + n) == Radix(m) * Radix(n)
  {
    if m > 0 {
      RadixAdd(m - 1, n);
      assert Radix(m + n) == BASE * (Radix(m - 1) * Radix(n));
    }
  }

  lemma {:induction false} RadixMonotone(m: nat, n: nat)
    requires m <= n
    ensures Radix(m) <= Radix(n)
    ensures m < n ==> BASE * Radix(m) <= Radix(n)
  {
    if m < n {
      RadixMonotone(m, n - 1);
    }
  }

  /** Splitting a number at a word boundary. */
  lemma {:induction false} ValAppend(s: seq<Word>, t: seq<Word>)
    ensures Val(s + t) == Val(s) + Radix(|s|) * Val(t)
  {
    if s == [] {
      assert s + t == t;
    } else {
      assert (s + t)[1..] == s[1..] + t;
      ValAppend(s[1..], t);
      Distribute3(Val(s[1..]), Radix(|s| - 1), Val(t));
    }
  }

  lemma Distribute3(a: int, p: int, v: int)
    ensures BASE * (a + p * v) == BASE * a + (BASE * p) * v
  {
  }

  /** Appending one more significant word. */
  lemma ValSnoc(s: seq<Word>, w: Word)
    ensures Val(s + [w]) == Val(s) + w * Radix(|s|)
  {
    ValAppend(s, [w]);
    ValSingle(w);
    MulComm(Radix(|s|), w);
  }

  /** Prepending a less significant word. */
  lemma ValCons(w: Word, s: seq<Word>)
    ensures Val([w] + s) == w + BASE * Val(s)
  {
    assert ([w] + s)[1..] == s;
  }

  lemma ValSingle(w: Word)
    ensures Val([w]) == w
  {
    assert Val([w][1..]) == 0;
  }

  lemma MulComm(a: int, b: int)
    ensures a * b == b * a
  {
  }

  /** The same for the prefixes of a longer sequence. */
  lemma ValPrefix(s: seq<Word>, i: nat)
    requires i < |s|
    ensures Val(s[..i + 1]) == Val(s[..i]) + s[i] * Radix(i)
  {
    assert s[..i + 1] == s[..i] + [s[i]];
    ValSnoc(s[..i], s[i]);
  }

  lemma ValSplit(s: seq<Word>, i: nat)
    requires i <= |s|
    ensures Val(s) == Val(s[..i]) + Radix(i) * Val(s[i..])
  {
    assert s == s[..i] + s[i..];
    ValAppend(s[..i], s[i..]);
  }

  lemma {:induction false} ValBound(s: seq<Word>)
    ensures Val(s) < Radix(|s|)
  {
    if s != [] {
      ValBound(s[1..]);
    }
  }

  lemma {:induction false} ValZeros(s: seq<Word>)
    requires forall i :: 0 <= i < |s| ==> s[i] == 0
    ensures Val(s) == 0
  {
    if s != [] {
      ValZeros(s[1..]);
    }
  }

  /** A fixed number of words determines the words: Val is injective at each length. */
  lemma {:induction false} ValInjective(s: seq<Word>, t: seq<Word>)
    requires |s| == |t| && Val(s) == Val(t)
    ensures s == t
  {
    if s != [] {
      assert s[0] == t[0] && Val(s[1..]) == Val(t[1..]);
      ValInjective(s[1..], t[1..]);
      assert s == [s[0]] + s[1..];
      assert t == [t[0]] + t[1..];
    }
  }

  /** No leading zero word: what bn_fix_top establishes. */
  predicate Normal(s: seq<Word>)
  {
    s == [] || s[|s| - 1] != 0
  }

  /** A number without leading zero word is at least the weight of its top word. */
  lemma NormalBound(s: seq<Word>)
    requires Normal(s) && s != []
    ensures Radix(|s| - 1) <= Val(s) < Radix(|s|)
  {
    ValBound(s);
    var n := |s| - 1;
    assert s == s[..n] + [s[n]];
    ValSnoc(s[..n], s[n]);
    assert s[n] * Radix(n) >= 1 * Radix(n) by { MulMono(1, s[n], Radix(n)); }
  }

  lemma MulMono(a: int, b: int, c: int)
    requires a <= b && 0 <= c
    ensures a * c <= b * c && c * a <= c * b
  {
  }

  lemma Assoc(x: int, y: int, z: int)
    ensures x * (y * z) == (x * y) * z
  {
  }

  function SignedValue(neg: bool, v: int): (r: int)
  {
    if neg then -v else v
  }

  function Absolute(x: int): (r: nat)
  {
    if x < 0 then -x else x
  }

  /** Reduction to a word when the multiple to take off is known. */
  lemma ModShift(v: int, k: int)
    requires 0 <= v - k * BASE < BASE
    ensures v % BASE == v - k * BASE
  {
  }

  /** Normal numbers are determined by their value. */
  lemma NormalUnique(s: seq<Word>, t: seq<Word>)
    requires Normal(s) && Normal(t) && Val(s) == Val(t)
    ensures s == t
  {
    if |s| != |t| {
      if s != [] { NormalBound(s); }
      if t != [] { NormalBound(t); }
      if |s| < |t| {
        RadixMonotone(|s|, |t| - 1);
        ValBound(s);
      } else {
        RadixMonotone(|t|, |s| - 1);
        ValBound(t);
      }
      assert false;
    }
    ValInjective(s, t);
  }

  /** bn_fix_top: drop leading zero words. */
  function Trim(s: seq<Word>): (t: seq<Word>)
    ensures Normal(t) && Val(t) == Val(s)
    ensures |t| <= |s| && t == s[..|t|]
    ensures forall i :: |t| <= i < |s| ==> s[i] == 0
  {
    if s == [] || s[|s| - 1] != 0 then s
    else
      var p := s[..|s| - 1];
      assert s == p + [0];
      ValSnoc(p, 0);
      Trim(p)
  }
}
