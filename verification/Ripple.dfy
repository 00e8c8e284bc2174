/** Carry propagation by repeated increment, as at the end of Karatsuba and inside Montgomery
    reduction: the loop has no bound of its own, so that it stops inside the number is a property of
    the value there. */
module Ripple {
  import opened Words
  import opened Kernels

  /** A number with room for one more has a word that is not all ones. */
  lemma {:induction false} AllOnes(s: seq<Word>)
    requires forall i :: 0 <= i < |s| ==> s[i] == BASE - 1
    ensures Val(s) + 1 == Radix(|s|)
  {
    if s != [] {
      AllOnes(s[1..]);
    }
  }

  /** So the increment loop finds a word to stop at. */
  lemma NotAllOnes(s: seq<Word>, x: nat)
    requires x <= |s| && Val(s) + 1 < Radix(|s|)
    requires forall i :: 0 <= i < x ==> s[i] == BASE - 1
    ensures x < |s|
  {
    if x == |s| {
      AllOnes(s);
    }
  }

  /** Zeros, then a word one higher, then the same words: one more than all ones, that word and those. */
  lemma {:induction false} IncrementAt(s: seq<Word>, t: seq<Word>, x: nat)
    requires |s| == |t| && x < |s|
    requires forall i :: 0 <= i < x ==> s[i] == BASE - 1 && t[i] == 0
    requires t[x] as int == s[x] as int + 1 && t[x + 1..] == s[x + 1..]
    ensures Val(t) == Val(s) + 1
  {
    if x > 0 {
      assert s[1..][x..] == s[x + 1..] && t[1..][x..] == t[x + 1..];
      IncrementAt(s[1..], t[1..], x - 1);
    }
  }

  /** Increment the number that starts at p; the do-while loop stops before word q. */
  method Increment(m: array<Word>, p: nat, n: nat)
    requires p + n <= m.Length && At(m, p, n) + 1 < Radix(n)
    modifies m
    ensures At(m, p, n) == old(At(m, p, n)) + 1
    ensures OnlyChanges(m, p, n)
  {
    hide Val, Radix;
    ghost var s := m[p..p + n];
    assert Val(s) + 1 < Radix(n);
    NotAllOnes(s, 0);
    var x := 0;
    m[p] := (m[p] + 1) % BASE;
    while m[p + x] == 0
      invariant 0 <= x < n
      invariant forall i :: 0 <= i < x ==> s[i] == BASE - 1
      invariant forall k :: p <= k < p + x ==> m[k] == 0
      invariant m[p + x] == (s[x] + 1) % BASE
      invariant m[p + x + 1..p + n] == s[x + 1..]
      invariant OnlyChanges(m, p, n)
      decreases n - x
    {
      assert s[x] == BASE - 1;
      x := x + 1;
      NotAllOnes(s, x);
      assert m[p + x] == m[p + x..p + n][0] == s[x..][0];
      ghost var r := m[p + x..p + n];
      m[p + x] := (m[p + x] + 1) % BASE;
      assert m[p + x + 1..p + n] == r[1..];
    }
    ghost var t := m[p..p + n];
    assert t[x + 1..] == m[p + x + 1..p + n];
    IncrementAt(s, t, x);
  }

  /** Add a small carry at p: Karatsuba's last step. */
  method AddCarry(m: array<Word>, p: nat, n: nat, c: Word)
    requires 1 <= n && p + n <= m.Length && At(m, p, n) + c < Radix(n)
    modifies m
    ensures At(m, p, n) == old(At(m, p, n)) + c
    ensures OnlyChanges(m, p, n)
  {
    ghost var hs := m[p + 1..p + n];
    FirstWord(m, p, n);
    var lo := m[p];
    var ln: Word := (lo as int + c as int) % BASE;
    m[p] := ln;
    assert m[p + 1..p + n] == hs;
    FirstWord(m, p, n);
    if ln < c {
      assert BASE * Val(hs) + BASE < BASE * Radix(n - 1);
      Increment(m, p + 1, n - 1);
      FirstWord(m, p, n);
    }
  }

  lemma FirstWord(m: array<Word>, p: nat, n: nat)
    requires 1 <= n && p + n <= m.Length
    ensures At(m, p, n) == m[p] + BASE * At(m, p + 1, n - 1)
  {
    assert m[p..p + n][1..] == m[p + 1..p + n];
  }
}
