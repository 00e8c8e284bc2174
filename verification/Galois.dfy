/** Bytes as elements of GF(2^8): exclusive or as addition, and multiplication by the constants of MixColumns
    and of its inverse. */
module Galois {
  import opened ByteBuffers

  function Plus(a: Byte, b: Byte): (r: Byte) { a ^ b }
  function Twice(b: Byte): (r: Byte) { b << 1 }
  predicate TopBit(b: Byte) { b & 0x80 != 0 }

  /** Multiplication by x, reduced by x^8 + x^4 + x^3 + x + 1. */
  function By2(b: Byte): (r: Byte)
  {
    if TopBit(b) then Plus(Twice(b), 0x1b) else Twice(b)
  }

  function By3(b: Byte): (r: Byte) { Plus(By2(b), b) }
  function By4(b: Byte): (r: Byte) { By2(By2(b)) }
  function By8(b: Byte): (r: Byte) { By2(By4(b)) }
  function By9(b: Byte): (r: Byte) { Plus(By8(b), b) }
  function ByB(b: Byte): (r: Byte) { Plus(By8(b), Plus(By2(b), b)) }
  function ByD(b: Byte): (r: Byte) { Plus(By8(b), Plus(By4(b), b)) }
  function ByE(b: Byte): (r: Byte) { Plus(By8(b), Plus(By4(b), By2(b))) }

  lemma PlusComm(a: Byte, b: Byte)
    ensures Plus(a, b) == Plus(b, a)
  {
  }

  lemma PlusAssoc(a: Byte, b: Byte, c: Byte)
    ensures Plus(Plus(a, b), c) == Plus(a, Plus(b, c))
  {
  }

  lemma PlusCancel(a: Byte, b: Byte)
    ensures Plus(a, a) == 0 && Plus(a, 0) == a && Plus(a, Plus(a, b)) == b
  {
  }

  lemma Swap(a: Byte, b: Byte, c: Byte, d: Byte)
    ensures Plus(Plus(a, b), Plus(c, d)) == Plus(Plus(a, c), Plus(b, d))
  {
    hide Plus;
    PlusAssoc(a, b, Plus(c, d));
    PlusAssoc(b, c, d); PlusComm(b, c); PlusAssoc(c, b, d);
    PlusAssoc(a, c, Plus(b, d));
  }

  lemma TwiceLinear(a: Byte, b: Byte)
    ensures Twice(Plus(a, b)) == Plus(Twice(a), Twice(b))
  {
  }

  lemma TopBitLinear(a: Byte, b: Byte)
    ensures TopBit(Plus(a, b)) <==> TopBit(a) != TopBit(b)
  {
  }

  lemma By2Linear(a: Byte, b: Byte)
    ensures By2(Plus(a, b)) == Plus(By2(a), By2(b))
  {
    hide Plus, Twice, TopBit;
    TwiceLinear(a, b);
    TopBitLinear(a, b);
    var x, y := Twice(a), Twice(b);
    if TopBit(a) && TopBit(b) {
      Swap(x, 0x1b, y, 0x1b);
      PlusCancel(0x1b, 0); PlusCancel(Plus(x, y), 0);
    } else if TopBit(a) {
      PlusAssoc(x, 0x1b, y); PlusComm(0x1b, y); PlusAssoc(x, y, 0x1b);
    } else if TopBit(b) {
      PlusAssoc(x, y, 0x1b);
    }
  }

  lemma MultiplesLinear(a: Byte, b: Byte)
    ensures By3(Plus(a, b)) == Plus(By3(a), By3(b)) && By9(Plus(a, b)) == Plus(By9(a), By9(b))
    ensures ByB(Plus(a, b)) == Plus(ByB(a), ByB(b)) && ByD(Plus(a, b)) == Plus(ByD(a), ByD(b))
    ensures ByE(Plus(a, b)) == Plus(ByE(a), ByE(b))
  {
    hide Plus, By2;
    By2Linear(a, b);
    By2Linear(By2(a), By2(b));
    By2Linear(By4(a), By4(b));
    Swap(By2(a), a, By2(b), b);
    Swap(By8(a), a, By8(b), b);
    Swap(By8(a), Plus(By2(a), a), By8(b), Plus(By2(b), b));
    Swap(By4(a), a, By4(b), b);
    Swap(By8(a), Plus(By4(a), a), By8(b), Plus(By4(b), b));
    Swap(By4(a), By2(a), By4(b), By2(b));
    Swap(By8(a), Plus(By4(a), By2(a)), By8(b), Plus(By4(b), By2(b)));
  }

  /** The sum of the chosen bytes. */
  function Sum(v: seq<Byte>, c: seq<bool>): (r: Byte)
    requires |v| == |c|
  {
    if v == [] then 0 else Plus(if c[0] then v[0] else 0, Sum(v[1..], c[1..]))
  }

  function Differ(c: seq<bool>, d: seq<bool>): (e: seq<bool>)
    requires |c| == |d|
    ensures |e| == |c|
  {
    seq(|c|, i requires 0 <= i < |c| => c[i] != d[i])
  }

  /** Bytes chosen twice cancel. */
  lemma {:induction false} SumPlus(v: seq<Byte>, c: seq<bool>, d: seq<bool>)
    requires |v| == |c| == |d|
    ensures Plus(Sum(v, c), Sum(v, d)) == Sum(v, Differ(c, d))
  {
    hide Plus;
    PlusCancel(0, 0);
    if v != [] {
      SumPlus(v[1..], c[1..], d[1..]);
      assert Differ(c, d)[1..] == Differ(c[1..], d[1..]);
      var x, y := if c[0] then v[0] else 0, if d[0] then v[0] else 0;
      Swap(x, Sum(v[1..], c[1..]), y, Sum(v[1..], d[1..]));
      PlusCancel(v[0], 0); PlusComm(v[0], 0);
    }
  }

  /** The multiples of a by powers of x up to x^4. */
  function Powers(a: Byte): (v: seq<Byte>)
  {
    [a, By2(a), By4(a), By8(a), By2(By8(a))]
  }

  /** Each power alone, and no power. */
  lemma Single(v: seq<Byte>, i: nat)
    requires |v| == 5 && i < 5
    ensures Sum(v, Unit(i)) == v[i] && Sum(v, [false, false, false, false, false]) == 0
  {
    hide Plus;
    var zero := [false, false, false, false, false];
    NothingChosen(v, zero);
    OneChosen(v, Unit(i), i);
  }

  function Unit(i: nat): (c: seq<bool>)
    requires i < 5
  {
    [i == 0, i == 1, i == 2, i == 3, i == 4]
  }

  lemma {:induction false} NothingChosen(v: seq<Byte>, c: seq<bool>)
    requires |v| == |c| && forall i :: 0 <= i < |c| ==> !c[i]
    ensures Sum(v, c) == 0
  {
    hide Plus;
    if v != [] {
      NothingChosen(v[1..], c[1..]);
      PlusCancel(0, 0);
    }
  }

  lemma {:induction false} OneChosen(v: seq<Byte>, c: seq<bool>, k: nat)
    requires |v| == |c| && k < |c| && forall i :: 0 <= i < |c| ==> (c[i] <==> i == k)
    ensures Sum(v, c) == v[k]
  {
    hide Plus;
    if k == 0 {
      NothingChosen(v[1..], c[1..]);
      PlusCancel(v[0], 0);
    } else {
      OneChosen(v[1..], c[1..], k - 1);
      PlusComm(0, v[k]);
      PlusCancel(v[k], 0);
    }
  }

  /** e chooses what exactly one of c and d chooses. */
  predicate Xored(c: seq<bool>, d: seq<bool>, e: seq<bool>)
  {
    |c| == |d| == |e| && forall i :: 0 <= i < |c| ==> e[i] == (c[i] != d[i])
  }

  lemma XoredLength(c: seq<bool>, d: seq<bool>, e: seq<bool>)
    requires Xored(c, d, e)
    ensures |c| == |d| == |e|
  {
  }

  /** Adding one more power, or another choice of powers. */
  lemma Choose(v: seq<Byte>, x: Byte, c: seq<bool>, y: Byte, d: seq<bool>, e: seq<bool>)
    requires |v| == |c| && Xored(c, d, e) && x == Sum(v, c) && y == Sum(v, d)
    ensures Plus(x, y) == Sum(v, e)
  {
    SumPlus(v, c, d);
    assert Differ(c, d) == e;
  }

  /** The inverse coefficients times a, as sums of powers. */
  lemma InverseMultiples(a: Byte, v: seq<Byte>)
    requires v == Powers(a)
    ensures By9(a) == Sum(v, [true, false, false, true, false]) && ByB(a) == Sum(v, [true, true, false, true, false])
    ensures ByD(a) == Sum(v, [true, false, true, true, false]) && ByE(a) == Sum(v, [false, true, true, true, false])
  {
    hide Plus, By2, By4, By8, Sum;
    Single(v, 0); Single(v, 1); Single(v, 2); Single(v, 3);
    Choose(v, By8(a), Unit(3), a, Unit(0), [true, false, false, true, false]);
    Choose(v, By2(a), Unit(1), a, Unit(0), [true, true, false, false, false]);
    Choose(v, By8(a), Unit(3), Plus(By2(a), a), [true, true, false, false, false], [true, true, false, true, false]);
    Choose(v, By4(a), Unit(2), a, Unit(0), [true, false, true, false, false]);
    Choose(v, By8(a), Unit(3), Plus(By4(a), a), [true, false, true, false, false], [true, false, true, true, false]);
    Choose(v, By4(a), Unit(2), By2(a), Unit(1), [false, true, true, false, false]);
    Choose(v, By8(a), Unit(3), Plus(By4(a), By2(a)), [false, true, true, false, false], [false, true, true, true, false]);
  }

  lemma Shifted(a: Byte)
    ensures By4(By2(a)) == By8(a) && By8(By2(a)) == By2(By8(a)) && By2(By2(a)) == By4(a)
  {
    hide By2;
  }

  lemma InverseOfTwice(a: Byte, v: seq<Byte>)
    requires v == Powers(a)
    ensures By9(By2(a)) == Sum(v, [false, true, false, false, true]) && ByB(By2(a)) == Sum(v, [false, true, true, false, true])
    ensures ByD(By2(a)) == Sum(v, [false, true, false, true, true]) && ByE(By2(a)) == Sum(v, [false, false, true, true, true])
  {
    Shifted(a);
    hide Plus, By2, By4, By8, Sum;
    var b, p1, p2, p3, p4 := By2(a), Unit(1), Unit(2), Unit(3), Unit(4);
    Single(v, 1); Single(v, 2); Single(v, 3); Single(v, 4);
    Choose(v, By8(b), p4, b, p1, [false, true, false, false, true]);
    Choose(v, By2(b), p2, b, p1, [false, true, true, false, false]);
    Choose(v, By8(b), p4, Plus(By2(b), b), [false, true, true, false, false], [false, true, true, false, true]);
    Choose(v, By4(b), p3, b, p1, [false, true, false, true, false]);
    Choose(v, By8(b), p4, Plus(By4(b), b), [false, true, false, true, false], [false, true, false, true, true]);
    Choose(v, By4(b), p3, By2(b), p2, [false, false, true, true, false]);
    Choose(v, By8(b), p4, Plus(By4(b), By2(b)), [false, false, true, true, false], [false, false, true, true, true]);
  }

  lemma InverseOfThrice(a: Byte, v: seq<Byte>)
    requires v == Powers(a)
    ensures By9(By3(a)) == Sum(v, [true, true, false, true, true]) && ByB(By3(a)) == Sum(v, [true, false, true, true, true])
    ensures ByD(By3(a)) == Sum(v, [true, true, true, false, true]) && ByE(By3(a)) == Sum(v, [false, true, false, false, true])
  {
    hide Plus, By2, By4, By8, By9, ByB, ByD, ByE, Sum, Powers;
    MultiplesLinear(By2(a), a);
    InverseMultiples(a, v);
    InverseOfTwice(a, v);
    PowersLength(a);
    Choose(v, By9(By2(a)), [false, true, false, false, true], By9(a), [true, false, false, true, false], [true, true, false, true, true]);
    Choose(v, ByB(By2(a)), [false, true, true, false, true], ByB(a), [true, true, false, true, false], [true, false, true, true, true]);
    Choose(v, ByD(By2(a)), [false, true, false, true, true], ByD(a), [true, false, true, true, false], [true, true, true, false, true]);
    Choose(v, ByE(By2(a)), [false, false, true, true, true], ByE(a), [false, true, true, true, false], [false, true, false, false, true]);
  }

  lemma PowersLength(a: Byte)
    ensures |Powers(a)| == 5 && Powers(a)[0] == a
  {
  }

  /** The four products of a column of MixColumns with the rows of its inverse. */
  lemma MixInverse(a: Byte)
    ensures Plus(Plus(ByE(By2(a)), ByB(a)), Plus(ByD(a), By9(By3(a)))) == a
    ensures Plus(Plus(By9(By2(a)), ByE(a)), Plus(ByB(a), ByD(By3(a)))) == 0
    ensures Plus(Plus(ByD(By2(a)), By9(a)), Plus(ByE(a), ByB(By3(a)))) == 0
    ensures Plus(Plus(ByB(By2(a)), ByD(a)), Plus(By9(a), ByE(By3(a)))) == 0
  {
    hide Plus, By2, By3, By4, By8, By9, ByB, ByD, ByE, Sum, Powers;
    var v := Powers(a);
    PowersLength(a);
    InverseMultiples(a, v); InverseOfTwice(a, v); InverseOfThrice(a, v);
    Single(v, 0);
    var n9, nB, nD, nE := [true, false, false, true, false], [true, true, false, true, false], [true, false, true, true, false], [false, true, true, true, false];
    var d9, dB, dD, dE := [false, true, false, false, true], [false, true, true, false, true], [false, true, false, true, true], [false, false, true, true, true];
    var t9, tB, tD, tE := [true, true, false, true, true], [true, false, true, true, true], [true, true, true, false, true], [false, true, false, false, true];
    var zero := [false, false, false, false, false];
    Four(v, ByE(By2(a)), dE, ByB(a), nB, [true, true, true, false, true], ByD(a), nD, By9(By3(a)), t9, [false, true, true, false, true], Unit(0));
    Four(v, By9(By2(a)), d9, ByE(a), nE, [false, false, true, true, true], ByB(a), nB, ByD(By3(a)), tD, [false, false, true, true, true], zero);
    Four(v, ByD(By2(a)), dD, By9(a), n9, [true, true, false, false, true], ByE(a), nE, ByB(By3(a)), tB, [true, true, false, false, true], zero);
    Four(v, ByB(By2(a)), dB, ByD(a), nD, [true, true, false, true, true], By9(a), n9, ByE(By3(a)), tE, [true, true, false, true, true], zero);
  }

  /** (w + x) + (y + z) as a choice of powers. */
  lemma Four(v: seq<Byte>, w: Byte, c: seq<bool>, x: Byte, d: seq<bool>, p: seq<bool>,
             y: Byte, e: seq<bool>, z: Byte, f: seq<bool>, q: seq<bool>, g: seq<bool>)
    requires |v| == |c| && Xored(c, d, p) && Xored(e, f, q) && Xored(p, q, g)
    requires w == Sum(v, c) && x == Sum(v, d) && y == Sum(v, e) && z == Sum(v, f)
    ensures Plus(Plus(w, x), Plus(y, z)) == Sum(v, g)
  {
    hide Plus, Sum, Xored;
    XoredLength(c, d, p); XoredLength(e, f, q); XoredLength(p, q, g);
    Choose(v, w, c, x, d, p);
    Choose(v, y, e, z, f, q);
    Choose(v, Plus(w, x), p, Plus(y, z), q, g);
  }
}
