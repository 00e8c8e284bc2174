/** The table-driven AES of rijndael-alg-fst.c. A 32-bit word is its four bytes, most significant first, so that
    shifting and masking select bytes and exclusive or works bytewise. The tables are given by the formula in the
    source's comment from a substitution S and its inverse Si. */
module Aes {
  import opened ByteBuffers
  import opened Galois

  datatype Col = Col(b0: Byte, b1: Byte, b2: Byte, b3: Byte)
  datatype Block = Block(c0: Col, c1: Col, c2: Col, c3: Col)

  /** The S-box and its inverse. */
  datatype Boxes = Boxes(S: Byte -> Byte, Si: Byte -> Byte)

  ghost predicate Inverse(x: Boxes)
  {
    (forall b: Byte :: x.Si(x.S(b)) == b) && (forall b: Byte :: x.S(x.Si(b)) == b)
  }

  function Xor(x: Col, y: Col): (r: Col)
  {
    Col(Plus(x.b0, y.b0), Plus(x.b1, y.b1), Plus(x.b2, y.b2), Plus(x.b3, y.b3))
  }

  function Xor4(w: Col, x: Col, y: Col, z: Col): (r: Col)
  {
    Xor(Xor(w, x), Xor(y, z))
  }

  // The columns of the MixColumns matrix and of its inverse.

  function M0(b: Byte): (r: Col) { Col(By2(b), b, b, By3(b)) }
  function M1(b: Byte): (r: Col) { Col(By3(b), By2(b), b, b) }
  function M2(b: Byte): (r: Col) { Col(b, By3(b), By2(b), b) }
  function M3(b: Byte): (r: Col) { Col(b, b, By3(b), By2(b)) }

  function N0(b: Byte): (r: Col) { Col(ByE(b), By9(b), ByD(b), ByB(b)) }
  function N1(b: Byte): (r: Col) { Col(ByB(b), ByE(b), By9(b), ByD(b)) }
  function N2(b: Byte): (r: Col) { Col(ByD(b), ByB(b), ByE(b), By9(b)) }
  function N3(b: Byte): (r: Col) { Col(By9(b), ByD(b), ByB(b), ByE(b)) }

  // The encryption and decryption tables.

  function Te0(x: Boxes, b: Byte): (r: Col) { M0(x.S(b)) }
  function Te1(x: Boxes, b: Byte): (r: Col) { M1(x.S(b)) }
  function Te2(x: Boxes, b: Byte): (r: Col) { M2(x.S(b)) }
  function Te3(x: Boxes, b: Byte): (r: Col) { M3(x.S(b)) }
  function Te4(x: Boxes, b: Byte): (r: Col) { Col(x.S(b), x.S(b), x.S(b), x.S(b)) }

  function Td0(x: Boxes, b: Byte): (r: Col) { N0(x.Si(b)) }
  function Td1(x: Boxes, b: Byte): (r: Col) { N1(x.Si(b)) }
  function Td2(x: Boxes, b: Byte): (r: Col) { N2(x.Si(b)) }
  function Td3(x: Boxes, b: Byte): (r: Col) { N3(x.Si(b)) }
  function Td4(x: Boxes, b: Byte): (r: Col) { Col(x.Si(b), x.Si(b), x.Si(b), x.Si(b)) }

  // The cipher of FIPS 197, round by round.

  /** MixColumns on one column. */
  function Mix(c: Col): (r: Col)
  {
    Xor4(M0(c.b0), M1(c.b1), M2(c.b2), M3(c.b3))
  }

  /** InvMixColumns on one column. */
  function InvMix(c: Col): (r: Col)
  {
    Xor4(N0(c.b0), N1(c.b1), N2(c.b2), N3(c.b3))
  }

  function MixAll(s: Block): (r: Block) { Block(Mix(s.c0), Mix(s.c1), Mix(s.c2), Mix(s.c3)) }
  function InvMixAll(s: Block): (r: Block) { Block(InvMix(s.c0), InvMix(s.c1), InvMix(s.c2), InvMix(s.c3)) }
  function Add(s: Block, k: Block): (r: Block)
  {
    Block(Xor(s.c0, k.c0), Xor(s.c1, k.c1), Xor(s.c2, k.c2), Xor(s.c3, k.c3))
  }

  /** SubBytes and ShiftRows. */
  function SubShift(x: Boxes, s: Block): (r: Block)
  {
    Block(Col(x.S(s.c0.b0), x.S(s.c1.b1), x.S(s.c2.b2), x.S(s.c3.b3)),
          Col(x.S(s.c1.b0), x.S(s.c2.b1), x.S(s.c3.b2), x.S(s.c0.b3)),
          Col(x.S(s.c2.b0), x.S(s.c3.b1), x.S(s.c0.b2), x.S(s.c1.b3)),
          Col(x.S(s.c3.b0), x.S(s.c0.b1), x.S(s.c1.b2), x.S(s.c2.b3)))
  }

  /** InvShiftRows and InvSubBytes. */
  function InvSubShift(x: Boxes, s: Block): (r: Block)
  {
    Block(Col(x.Si(s.c0.b0), x.Si(s.c3.b1), x.Si(s.c2.b2), x.Si(s.c1.b3)),
          Col(x.Si(s.c1.b0), x.Si(s.c0.b1), x.Si(s.c3.b2), x.Si(s.c2.b3)),
          Col(x.Si(s.c2.b0), x.Si(s.c1.b1), x.Si(s.c0.b2), x.Si(s.c3.b3)),
          Col(x.Si(s.c3.b0), x.Si(s.c2.b1), x.Si(s.c1.b2), x.Si(s.c0.b3)))
  }

  /** The state after n full rounds. */
  function Rounds(x: Boxes, k: seq<Block>, s: Block, n: nat): (r: Block)
    requires n < |k|
  {
    if n == 0 then Add(s, k[0]) else Add(MixAll(SubShift(x, Rounds(x, k, s, n - 1))), k[n])
  }

  function Cipher(x: Boxes, k: seq<Block>, s: Block): (r: Block)
    requires |k| >= 2
  {
    Add(SubShift(x, Rounds(x, k, s, |k| - 2)), k[|k| - 1])
  }

  /** The equivalent inverse cipher, on its own schedule. */
  function InvRounds(x: Boxes, d: seq<Block>, s: Block, n: nat): (r: Block)
    requires n < |d|
  {
    if n == 0 then Add(s, d[0]) else Add(InvMixAll(InvSubShift(x, InvRounds(x, d, s, n - 1))), d[n])
  }

  function InvCipher(x: Boxes, d: seq<Block>, s: Block): (r: Block)
    requires |d| >= 2
  {
    Add(InvSubShift(x, InvRounds(x, d, s, |d| - 2)), d[|d| - 1])
  }

  /** The decryption schedule: reversed, with InvMixColumns on all but the outer round keys. */
  function Inverted(k: seq<Block>): (d: seq<Block>)
    ensures |d| == |k|
  {
    seq(|k|, i requires 0 <= i < |k| => if i == 0 || i == |k| - 1 then k[|k| - 1 - i] else InvMixAll(k[|k| - 1 - i]))
  }

  // Linearity and inversion of the column transforms.

  const ZERO := Col(0, 0, 0, 0)

  lemma XorSwap(a: Col, b: Col, c: Col, d: Col)
    ensures Xor(Xor(a, b), Xor(c, d)) == Xor(Xor(a, c), Xor(b, d))
  {
    hide Plus;
    Swap(a.b0, b.b0, c.b0, d.b0); Swap(a.b1, b.b1, c.b1, d.b1);
    Swap(a.b2, b.b2, c.b2, d.b2); Swap(a.b3, b.b3, c.b3, d.b3);
  }

  lemma XorCancel(a: Col, b: Col)
    ensures Xor(Xor(a, b), b) == a && Xor(a, ZERO) == a && Xor(ZERO, a) == a
  {
    hide Plus;
    Cancel(a.b0, b.b0); Cancel(a.b1, b.b1); Cancel(a.b2, b.b2); Cancel(a.b3, b.b3);
  }

  lemma Cancel(a: Byte, b: Byte)
    ensures Plus(Plus(a, b), b) == a && Plus(a, 0) == a && Plus(0, a) == a
  {
    hide Plus;
    PlusAssoc(a, b, b); PlusCancel(b, 0); PlusCancel(a, 0); PlusComm(0, a);
  }

  /** InvMixColumns distributes over the exclusive or with a round key. */
  lemma InvMixLinear(c: Col, k: Col)
    ensures InvMix(Xor(c, k)) == Xor(InvMix(c), InvMix(k))
  {
    NLinear(c.b0, k.b0); NLinear(c.b1, k.b1); NLinear(c.b2, k.b2); NLinear(c.b3, k.b3);
    hide Xor, N0, N1, N2, N3;
    FoldPlus(c, k);
    XorSwap(N0(c.b0), N0(k.b0), N1(c.b1), N1(k.b1));
    XorSwap(N2(c.b2), N2(k.b2), N3(c.b3), N3(k.b3));
    XorSwap(Xor(N0(c.b0), N1(c.b1)), Xor(N0(k.b0), N1(k.b1)), Xor(N2(c.b2), N3(c.b3)), Xor(N2(k.b2), N3(k.b3)));
  }

  lemma FoldPlus(c: Col, k: Col)
    ensures Xor(c, k) == Col(Plus(c.b0, k.b0), Plus(c.b1, k.b1), Plus(c.b2, k.b2), Plus(c.b3, k.b3))
  {
  }

  lemma NLinear(a: Byte, b: Byte)
    ensures N0(Plus(a, b)) == Xor(N0(a), N0(b)) && N1(Plus(a, b)) == Xor(N1(a), N1(b))
    ensures N2(Plus(a, b)) == Xor(N2(a), N2(b)) && N3(Plus(a, b)) == Xor(N3(a), N3(b))
  {
    hide Plus, By9, ByB, ByD, ByE;
    MultiplesLinear(a, b);
  }

  /** InvMixColumns undoes each column of MixColumns. */
  lemma UnitInverse(a: Byte)
    ensures InvMix(M0(a)) == Col(a, 0, 0, 0) && InvMix(M1(a)) == Col(0, a, 0, 0)
    ensures InvMix(M2(a)) == Col(0, 0, a, 0) && InvMix(M3(a)) == Col(0, 0, 0, a)
  {
    hide Plus, By2, By3, By9, ByB, ByD, ByE;
    MixInverse(a);
    var e, b, d, n := ByE(a), ByB(a), ByD(a), By9(a);
    var e2, b2, d2, n2 := ByE(By2(a)), ByB(By2(a)), ByD(By2(a)), By9(By2(a));
    var e3, b3, d3, n3 := ByE(By3(a)), ByB(By3(a)), ByD(By3(a)), By9(By3(a));
    Turn(e2, b, d, n3); Turn(n2, e, b, d3); Turn(d2, n, e, b3); Turn(b2, d, n, e3);
  }

  /** Four terms added in any rotation. */
  lemma Turn(w: Byte, x: Byte, y: Byte, z: Byte)
    ensures Plus(Plus(z, w), Plus(x, y)) == Plus(Plus(w, x), Plus(y, z))
    ensures Plus(Plus(y, z), Plus(w, x)) == Plus(Plus(w, x), Plus(y, z))
    ensures Plus(Plus(x, y), Plus(z, w)) == Plus(Plus(w, x), Plus(y, z))
  {
    hide Plus;
    PlusComm(Plus(w, x), Plus(y, z));
    PlusComm(z, w); Swap(w, z, x, y); PlusComm(z, y);
    PlusComm(Plus(z, w), Plus(x, y));
  }

  lemma MixThenInverse(c: Col)
    ensures InvMix(Mix(c)) == c
  {
    UnitInverse(c.b0); UnitInverse(c.b1); UnitInverse(c.b2); UnitInverse(c.b3);
    var p, q, r, s := M0(c.b0), M1(c.b1), M2(c.b2), M3(c.b3);
    InvMixLinear(Xor(p, q), Xor(r, s));
    InvMixLinear(p, q); InvMixLinear(r, s);
    hide InvMix, M0, M1, M2, M3;
    Assemble(c);
  }

  lemma Assemble(c: Col)
    ensures Xor(Xor(Col(c.b0, 0, 0, 0), Col(0, c.b1, 0, 0)), Xor(Col(0, 0, c.b2, 0), Col(0, 0, 0, c.b3))) == c
  {
    hide Plus;
    Cancel(c.b0, 0); Cancel(c.b1, 0); Cancel(c.b2, 0); Cancel(c.b3, 0); Cancel(0, 0);
  }

  lemma AddCancel(s: Block, k: Block)
    ensures Add(Add(s, k), k) == s
  {
    hide Xor;
    XorCancel(s.c0, k.c0); XorCancel(s.c1, k.c1); XorCancel(s.c2, k.c2); XorCancel(s.c3, k.c3);
  }

  lemma SubShiftInverse(x: Boxes, s: Block)
    requires Inverse(x)
    ensures InvSubShift(x, SubShift(x, s)) == s
  {
  }

  /** One inverse round in the equivalent order undoes one round. */
  lemma RoundInverse(s: Block, k: Block)
    ensures Add(InvMixAll(Add(MixAll(s), k)), InvMixAll(k)) == s
  {
    ColumnInverse(s.c0, k.c0); ColumnInverse(s.c1, k.c1); ColumnInverse(s.c2, k.c2); ColumnInverse(s.c3, k.c3);
    hide Mix, InvMix, Xor;
  }

  lemma ColumnInverse(c: Col, k: Col)
    ensures Xor(InvMix(Xor(Mix(c), k)), InvMix(k)) == c
  {
    hide Mix, InvMix, Xor;
    InvMixLinear(Mix(c), k);
    MixThenInverse(c);
    XorCancel(c, InvMix(k));
  }

  /** After n inverse rounds the state is that of the encryption n rounds before its end. */
  lemma {:induction false} InverseRounds(x: Boxes, k: seq<Block>, s: Block, n: nat)
    requires Inverse(x) && |k| >= 2 && n <= |k| - 2
    ensures InvRounds(x, Inverted(k), Cipher(x, k, s), n) == SubShift(x, Rounds(x, k, s, |k| - 2 - n))
  {
    hide Inverse, SubShift, InvSubShift, MixAll, InvMixAll, Add;
    var d, m := Inverted(k), |k| - 2 - n;
    if n == 0 {
      AddCancel(SubShift(x, Rounds(x, k, s, m)), k[|k| - 1]);
    } else {
      InverseRounds(x, k, s, n - 1);
      SubShiftInverse(x, Rounds(x, k, s, m + 1));
      assert d[n] == InvMixAll(k[m + 1]);
      RoundInverse(SubShift(x, Rounds(x, k, s, m)), k[m + 1]);
    }
  }

  /** Decryption under the inverted schedule inverts encryption, for any round keys. */
  lemma DecryptEncrypt(x: Boxes, k: seq<Block>, s: Block)
    requires Inverse(x) && |k| >= 2
    ensures InvCipher(x, Inverted(k), Cipher(x, k, s)) == s
  {
    hide Inverse, SubShift, InvSubShift, Add;
    InverseRounds(x, k, s, |k| - 2);
    SubShiftInverse(x, Rounds(x, k, s, 0));
    AddCancel(s, k[0]);
  }

  // Key expansion.

  /** Round constants: powers of x. */
  function Rc(j: nat): (b: Byte)
  {
    if j == 0 then 1 else By2(Rc(j - 1))
  }

  function SubWord(x: Boxes, w: Col): (r: Col) { Col(x.S(w.b0), x.S(w.b1), x.S(w.b2), x.S(w.b3)) }
  function RotWord(w: Col): (r: Col) { Col(w.b1, w.b2, w.b3, w.b0) }

  /** Word i of the key expansion of section 5.2 of FIPS 197, for a key of nk words. */
  function Expanded(x: Boxes, key: seq<Col>, i: nat): (w: Col)
    requires |key| >= 4
    decreases i, 1
  {
    if i < |key| then key[i]
    else Xor(Expanded(x, key, i - |key|), Mixed(x, key, i))
  }

  function Mixed(x: Boxes, key: seq<Col>, i: nat): (w: Col)
    requires 4 <= |key| <= i
    decreases i, 0
  {
    var temp := Expanded(x, key, i - 1);
    if i % |key| == 0 then Xor(SubWord(x, RotWord(temp)), Col(Rc(i / |key| - 1), 0, 0, 0))
    else if |key| > 6 && i % |key| == 4 then SubWord(x, temp)
    else temp
  }

  /** GETU32 and PUTU32. */
  function Load(s: seq<Byte>, p: nat): (w: Col)
    requires p + 4 <= |s|
  {
    Col(s[p], s[p + 1], s[p + 2], s[p + 3])
  }

  function Store(w: Col): (s: seq<Byte>)
    ensures |s| == 4
  {
    [w.b0, w.b1, w.b2, w.b3]
  }

  function KeyWords(key: seq<Byte>): (w: seq<Col>)
    ensures |w| == |key| / 4
  {
    seq(|key| / 4, i requires 0 <= i < |key| / 4 => Load(key, 4 * i))
  }

  /** The first n words of rk are those of the key expansion. */
  ghost predicate ExpandedUpTo(x: Boxes, key: seq<Col>, rk: seq<Col>, n: nat)
    requires |key| >= 4
  {
    n <= |rk| && forall i :: 0 <= i < n ==> rk[i] == Expanded(x, key, i)
  }

  lemma XorAssoc(a: Col, b: Col, c: Col)
    ensures Xor(Xor(a, b), c) == Xor(a, Xor(b, c))
  {
    hide Plus;
    PlusAssoc(a.b0, b.b0, c.b0); PlusAssoc(a.b1, b.b1, c.b1); PlusAssoc(a.b2, b.b2, c.b2); PlusAssoc(a.b3, b.b3, c.b3);
  }

  /** One byte of each Te4 entry, put together. */
  function Picked(x: Boxes, b0: Byte, b1: Byte, b2: Byte, b3: Byte): (r: Col)
    ensures r == Col(x.S(b0), x.S(b1), x.S(b2), x.S(b3))
  {
    var c := Col(x.S(b0), x.S(b1), x.S(b2), x.S(b3));
    Assemble(c);
    Xor4(Col(Te4(x, b0).b0, 0, 0, 0), Col(0, Te4(x, b1).b1, 0, 0), Col(0, 0, Te4(x, b2).b2, 0), Col(0, 0, 0, Te4(x, b3).b3))
  }

  /** The same for Td4. */
  function InvPicked(x: Boxes, b0: Byte, b1: Byte, b2: Byte, b3: Byte): (r: Col)
    ensures r == Col(x.Si(b0), x.Si(b1), x.Si(b2), x.Si(b3))
  {
    var c := Col(x.Si(b0), x.Si(b1), x.Si(b2), x.Si(b3));
    Assemble(c);
    Xor4(Col(Td4(x, b0).b0, 0, 0, 0), Col(0, Td4(x, b1).b1, 0, 0), Col(0, 0, Td4(x, b2).b2, 0), Col(0, 0, 0, Td4(x, b3).b3))
  }

  /** The rcon table. */
  function Rcon(j: nat): (w: Col) { Col(Rc(j), 0, 0, 0) }

  /** What word q is made of. */
  lemma ExpandedWord(x: Boxes, key: seq<Col>, rk: seq<Col>, q: nat, a: nat, b: nat)
    requires 4 <= |key| <= q < |rk| && a == q - |key| && b == q - 1 && ExpandedUpTo(x, key, rk, q)
    ensures Expanded(x, key, q) == Xor(rk[a],
      if q % |key| == 0 then Xor(SubWord(x, RotWord(rk[b])), Rcon(q / |key| - 1))
      else if |key| > 6 && q % |key| == 4 then SubWord(x, rk[b])
      else rk[b])
  {
    hide Xor;
    assert rk[a] == Expanded(x, key, a) && rk[b] == Expanded(x, key, b);
    assert Expanded(x, key, q) == Xor(Expanded(x, key, a), Mixed(x, key, q));
  }

  /** rk[q] is the exclusive or of two earlier words. */
  method PlainWord(x: Boxes, rk: array<Col>, q: nat, a: nat, b: nat, ghost key: seq<Col>)
    requires 4 <= |key| <= q < rk.Length && a == q - |key| && b == q - 1
    requires q % |key| != 0 && !(|key| > 6 && q % |key| == 4)
    requires ExpandedUpTo(x, key, rk[..], q)
    modifies rk
    ensures ExpandedUpTo(x, key, rk[..], q + 1)
  {
    hide Xor;
    ExpandedWord(x, key, rk[..], q, a, b);
    rk[q] := Xor(rk[a], rk[b]);
  }

  /** The first word of a group: rotated, substituted, with a round constant. */
  method CoreWord(x: Boxes, rk: array<Col>, q: nat, a: nat, b: nat, i: nat, ghost key: seq<Col>)
    requires 4 <= |key| <= q < rk.Length && a == q - |key| && b == q - 1
    requires q % |key| == 0 && i == q / |key| - 1
    requires ExpandedUpTo(x, key, rk[..], q)
    modifies rk
    ensures ExpandedUpTo(x, key, rk[..], q + 1)
  {
    hide Xor;
    ExpandedWord(x, key, rk[..], q, a, b);
    var temp := rk[b];
    var t := Picked(x, temp.b1, temp.b2, temp.b3, temp.b0);
    XorAssoc(rk[a], t, Rcon(i));
    rk[q] := Xor(Xor(rk[a], t), Rcon(i));
  }

  /** The middle word of a group of eight: substituted only. */
  method MiddleWord(x: Boxes, rk: array<Col>, q: nat, a: nat, b: nat, ghost key: seq<Col>)
    requires |key| == 8 <= q < rk.Length && a == q - 8 && b == q - 1 && q % 8 == 4
    requires ExpandedUpTo(x, key, rk[..], q)
    modifies rk
    ensures ExpandedUpTo(x, key, rk[..], q + 1)
  {
    hide Xor;
    ExpandedWord(x, key, rk[..], q, a, b);
    var temp := rk[b];
    rk[q] := Xor(rk[a], Picked(x, temp.b0, temp.b1, temp.b2, temp.b3));
  }

  method Expand128(x: Boxes, rk: array<Col>, ghost key: seq<Col>) returns (nr: nat)
    requires |key| == 4 && rk.Length >= 44 && ExpandedUpTo(x, key, rk[..], 4)
    modifies rk
    ensures nr == 10 && ExpandedUpTo(x, key, rk[..], 44)
  {
    hide ExpandedUpTo;
    var i, p := 0, 0;
    while true
      invariant 0 <= i < 10 && p == 4 * i && ExpandedUpTo(x, key, rk[..], p + 4)
      decreases 10 - i
    {
      CoreWord(x, rk, p + 4, p, p + 3, i, key);
      PlainWord(x, rk, p + 5, p + 1, p + 4, key);
      PlainWord(x, rk, p + 6, p + 2, p + 5, key);
      PlainWord(x, rk, p + 7, p + 3, p + 6, key);
      i := i + 1;
      if i == 10 { return 10; }
      p := p + 4;
    }
  }

  method Expand192(x: Boxes, rk: array<Col>, ghost key: seq<Col>) returns (nr: nat)
    requires |key| == 6 && rk.Length >= 52 && ExpandedUpTo(x, key, rk[..], 6)
    modifies rk
    ensures nr == 12 && ExpandedUpTo(x, key, rk[..], 52)
  {
    hide ExpandedUpTo;
    var i, p := 0, 0;
    while true
      invariant 0 <= i < 8 && p == 6 * i && ExpandedUpTo(x, key, rk[..], p + 6)
      decreases 8 - i
    {
      CoreWord(x, rk, p + 6, p, p + 5, i, key);
      PlainWord(x, rk, p + 7, p + 1, p + 6, key);
      PlainWord(x, rk, p + 8, p + 2, p + 7, key);
      PlainWord(x, rk, p + 9, p + 3, p + 8, key);
      i := i + 1;
      if i == 8 { return 12; }
      PlainWord(x, rk, p + 10, p + 4, p + 9, key);
      PlainWord(x, rk, p + 11, p + 5, p + 10, key);
      p := p + 6;
    }
  }

  method Expand256(x: Boxes, rk: array<Col>, ghost key: seq<Col>) returns (nr: nat)
    requires |key| == 8 && rk.Length >= 60 && ExpandedUpTo(x, key, rk[..], 8)
    modifies rk
    ensures nr == 14 && ExpandedUpTo(x, key, rk[..], 60)
  {
    hide ExpandedUpTo;
    var i, p := 0, 0;
    while true
      invariant 0 <= i < 7 && p == 8 * i && ExpandedUpTo(x, key, rk[..], p + 8)
      decreases 7 - i
    {
      CoreWord(x, rk, p + 8, p, p + 7, i, key);
      PlainWord(x, rk, p + 9, p + 1, p + 8, key);
      PlainWord(x, rk, p + 10, p + 2, p + 9, key);
      PlainWord(x, rk, p + 11, p + 3, p + 10, key);
      i := i + 1;
      if i == 7 { return 14; }
      MiddleWord(x, rk, p + 12, p + 4, p + 11, key);
      PlainWord(x, rk, p + 13, p + 5, p + 12, key);
      PlainWord(x, rk, p + 14, p + 6, p + 13, key);
      PlainWord(x, rk, p + 15, p + 7, p + 14, key);
      p := p + 8;
    }
  }

  /** The number of rounds for a key size; 0 for a size that is not supported. */
  function NumRounds(keyBits: int): (nr: nat)
  {
    if keyBits == 128 then 10 else if keyBits == 192 then 12 else if keyBits == 256 then 14 else 0
  }

  /** rijndaelKeySetupEnc fills rk with the standard key expansion. */
  method KeySetupEnc(x: Boxes, rk: array<Col>, cipherKey: seq<Byte>, keyBits: int) returns (nr: nat)
    requires if NumRounds(keyBits) > 0 then 8 * |cipherKey| == keyBits else |cipherKey| >= 32
    requires rk.Length >= 8 && rk.Length >= 4 * (NumRounds(keyBits) + 1)
    modifies rk
    ensures nr == NumRounds(keyBits)
    ensures nr > 0 ==> ExpandedUpTo(x, KeyWords(cipherKey), rk[..], 4 * (nr + 1))
  {
    ghost var key := KeyWords(cipherKey);
    rk[0] := Load(cipherKey, 0);
    rk[1] := Load(cipherKey, 4);
    rk[2] := Load(cipherKey, 8);
    rk[3] := Load(cipherKey, 12);
    if keyBits == 128 {
      nr := Expand128(x, rk, key);
      return;
    }
    rk[4] := Load(cipherKey, 16);
    rk[5] := Load(cipherKey, 20);
    if keyBits == 192 {
      nr := Expand192(x, rk, key);
      return;
    }
    rk[6] := Load(cipherKey, 24);
    rk[7] := Load(cipherKey, 28);
    if keyBits == 256 {
      nr := Expand256(x, rk, key);
      return;
    }
    nr := 0;
  }

  function BlockAt(rk: seq<Col>, p: nat): (k: Block)
    requires p + 4 <= |rk|
  {
    Block(rk[p], rk[p + 1], rk[p + 2], rk[p + 3])
  }

  /** The round keys in the first 4 * (nr + 1) words. */
  function RoundKeys(rk: seq<Col>, nr: nat): (k: seq<Block>)
    requires |rk| >= 4 * (nr + 1)
    ensures |k| == nr + 1
  {
    seq(nr + 1, r requires 0 <= r < nr + 1 => BlockAt(rk, 4 * r))
  }

  lemma KeyAt(rk: seq<Col>, nr: nat, r: nat)
    requires |rk| >= 4 * (nr + 1) && r <= nr
    ensures RoundKeys(rk, nr)[r] == Block(rk[4 * r], rk[4 * r + 1], rk[4 * r + 2], rk[4 * r + 3])
  {
  }

  /** Swap round keys i / 4 and j / 4 word by word. */
  method SwapKeys(rk: array<Col>, i: nat, j: nat, ghost a: nat, ghost b: nat, ghost nr: nat)
    requires i == 4 * a && j == 4 * b && a < b <= nr && rk.Length >= 4 * (nr + 1)
    modifies rk
    ensures var k := old(RoundKeys(rk[..], nr)); RoundKeys(rk[..], nr) == k[a := k[b]][b := k[a]]
  {
    ghost var s := rk[..];
    rk[i], rk[j] := rk[j], rk[i];
    rk[i + 1], rk[j + 1] := rk[j + 1], rk[i + 1];
    rk[i + 2], rk[j + 2] := rk[j + 2], rk[i + 2];
    rk[i + 3], rk[j + 3] := rk[j + 3], rk[i + 3];
    SwappedKeys(s, rk[..], a, b, nr);
  }

  lemma SwappedKeys(s: seq<Col>, t: seq<Col>, a: nat, b: nat, nr: nat)
    requires a < b <= nr && |s| == |t| && |s| >= 4 * (nr + 1)
    requires BlockAt(t, 4 * a) == BlockAt(s, 4 * b) && BlockAt(t, 4 * b) == BlockAt(s, 4 * a)
    requires forall k :: 0 <= k < |s| && !(4 * a <= k < 4 * a + 4) && !(4 * b <= k < 4 * b + 4) ==> t[k] == s[k]
    ensures var k := RoundKeys(s, nr); RoundKeys(t, nr) == k[a := k[b]][b := k[a]]
  {
    var k := RoundKeys(s, nr);
    forall r | 0 <= r <= nr
      ensures RoundKeys(t, nr)[r] == k[a := k[b]][b := k[a]][r]
    {
      if r != a && r != b { assert BlockAt(t, 4 * r) == BlockAt(s, 4 * r); }
    }
  }

  function Backwards(k: seq<Block>): (r: seq<Block>)
    ensures |r| == |k|
  {
    seq(|k|, i requires 0 <= i < |k| => k[|k| - 1 - i])
  }

  /** The keys outside [a, b] are already in place. */
  ghost predicate HalfReversed(k: seq<Block>, c: seq<Block>, nr: nat, a: int, b: int)
  {
    && |k| == |c| == nr + 1
    && (forall r :: 0 <= r <= nr && a <= r <= b ==> c[r] == k[r])
    && (forall r :: 0 <= r <= nr && !(a <= r <= b) ==> c[r] == k[nr - r])
  }

  lemma HalfReversedStep(k: seq<Block>, c: seq<Block>, nr: nat, a: int, b: int)
    requires HalfReversed(k, c, nr, a, b) && 0 <= a < b && a + b == nr
    ensures HalfReversed(k, c[a := c[b]][b := c[a]], nr, a + 1, b - 1)
  {
    assert nr - a == b && nr - b == a;
  }

  /** Invert the order of the round keys. */
  method ReverseKeys(rk: array<Col>, nr: nat)
    requires rk.Length >= 4 * (nr + 1)
    modifies rk
    ensures RoundKeys(rk[..], nr) == Backwards(old(RoundKeys(rk[..], nr)))
  {
    hide RoundKeys;
    ghost var k := RoundKeys(rk[..], nr);
    ghost var a: int, b: int := 0, nr;
    var i, j := 0, 4 * nr;
    while i < j
      invariant i == 4 * a && j == 4 * b && a + b == nr && 0 <= a <= b + 1
      invariant HalfReversed(k, RoundKeys(rk[..], nr), nr, a, b)
    {
      HalfReversedStep(k, RoundKeys(rk[..], nr), nr, a, b);
      SwapKeys(rk, i, j, a, b, nr);
      i, j := i + 4, j - 4;
      a, b := a + 1, b - 1;
    }
  }

  /** InvMixColumns through Td[Te4[.] & 0xff]: the substitution is undone before the table multiplies. */
  function InvMixByTables(x: Boxes, w: Col): (r: Col)
  {
    Xor4(Td0(x, Te4(x, w.b0).b3), Td1(x, Te4(x, w.b1).b3), Td2(x, Te4(x, w.b2).b3), Td3(x, Te4(x, w.b3).b3))
  }

  lemma TablesInvMix(x: Boxes, w: Col)
    requires Inverse(x)
    ensures InvMixByTables(x, w) == InvMix(w)
  {
  }

  /** The transform of one round key. */
  method MixKey(x: Boxes, rk: array<Col>, p: nat, ghost i: nat, ghost nr: nat)
    requires Inverse(x) && p == 4 * i && i <= nr && rk.Length >= 4 * (nr + 1)
    modifies rk
    ensures var k := old(RoundKeys(rk[..], nr)); RoundKeys(rk[..], nr) == k[i := InvMixAll(k[i])]
  {
    hide Inverse, InvMixByTables, InvMix;
    ghost var s := rk[..];
    rk[p] := InvMixByTables(x, rk[p]);
    rk[p + 1] := InvMixByTables(x, rk[p + 1]);
    rk[p + 2] := InvMixByTables(x, rk[p + 2]);
    rk[p + 3] := InvMixByTables(x, rk[p + 3]);
    ghost var t := rk[..];
    TablesInvMix(x, s[p]); TablesInvMix(x, s[p + 1]); TablesInvMix(x, s[p + 2]); TablesInvMix(x, s[p + 3]);
    ghost var k := RoundKeys(s, nr);
    forall r | 0 <= r <= nr
      ensures RoundKeys(t, nr)[r] == k[i := InvMixAll(k[i])][r]
    {
      KeyAt(s, nr, r); KeyAt(t, nr, r);
    }
  }

  /** rijndaelKeySetupDec leaves the inverted schedule of the expanded key; for other key sizes it returns 0. */
  method KeySetupDec(x: Boxes, rk: array<Col>, cipherKey: seq<Byte>, keyBits: int) returns (nr: nat)
    requires Inverse(x)
    requires if NumRounds(keyBits) > 0 then 8 * |cipherKey| == keyBits else |cipherKey| >= 32
    requires rk.Length >= 8 && rk.Length >= 4 * (NumRounds(keyBits) + 1)
    modifies rk
    ensures nr == NumRounds(keyBits)
    ensures nr > 0 ==> RoundKeys(rk[..], nr) == Inverted(Schedule(x, KeyWords(cipherKey), nr))
  {
    hide Inverse, ExpandedUpTo, InvMixAll, NumRounds, RoundKeys, Schedule;
    nr := KeySetupEnc(x, rk, cipherKey, keyBits);
    if nr == 0 { return; }
    RoundsPositive(keyBits);
    ScheduleWords(x, KeyWords(cipherKey), rk[..], nr);
    ReverseKeys(rk, nr);
    ghost var k := RoundKeys(rk[..], nr);
    var i, p := 1, 0;
    while i < nr
      invariant 1 <= i <= nr && p == 4 * (i - 1)
      invariant forall r :: 0 <= r <= nr ==> RoundKeys(rk[..], nr)[r] == if 0 < r < i then InvMixAll(k[r]) else k[r]
    {
      p := p + 4;
      MixKey(x, rk, p, i, nr);
      i := i + 1;
    }
  }

  lemma RoundsPositive(keyBits: int)
    requires NumRounds(keyBits) > 0
    ensures NumRounds(keyBits) >= 10 && NumRounds(keyBits) % 2 == 0 && keyBits >= 128
  {
  }

  /** The round keys of an expanded key. */
  function Schedule(x: Boxes, key: seq<Col>, nr: nat): (k: seq<Block>)
    requires |key| >= 4
    ensures |k| == nr + 1
  {
    seq(nr + 1, r requires 0 <= r < nr + 1 =>
      Block(Expanded(x, key, 4 * r), Expanded(x, key, 4 * r + 1), Expanded(x, key, 4 * r + 2), Expanded(x, key, 4 * r + 3)))
  }

  lemma ScheduleWords(x: Boxes, key: seq<Col>, rk: seq<Col>, nr: nat)
    requires |key| >= 4 && |rk| >= 4 * (nr + 1) && ExpandedUpTo(x, key, rk, 4 * (nr + 1))
    ensures RoundKeys(rk, nr) == Schedule(x, key, nr)
  {
  }

  // The block functions.

  /** One output word of a full round. */
  function EncWord(x: Boxes, a: Col, b: Col, c: Col, d: Col, k: Col): (r: Col)
  {
    Xor(Xor4(Te0(x, a.b0), Te1(x, b.b1), Te2(x, c.b2), Te3(x, d.b3)), k)
  }

  function EncRound(x: Boxes, s: Block, k: Block): (t: Block)
  {
    Block(EncWord(x, s.c0, s.c1, s.c2, s.c3, k.c0), EncWord(x, s.c1, s.c2, s.c3, s.c0, k.c1),
          EncWord(x, s.c2, s.c3, s.c0, s.c1, k.c2), EncWord(x, s.c3, s.c0, s.c1, s.c2, k.c3))
  }

  function DecRound(x: Boxes, s: Block, k: Block): (t: Block)
  {
    Block(DecWord(x, s.c0, s.c3, s.c2, s.c1, k.c0), DecWord(x, s.c1, s.c0, s.c3, s.c2, k.c1),
          DecWord(x, s.c2, s.c1, s.c0, s.c3, k.c2), DecWord(x, s.c3, s.c2, s.c1, s.c0, k.c3))
  }

  function DecWord(x: Boxes, a: Col, b: Col, c: Col, d: Col, k: Col): (r: Col)
  {
    Xor(Xor4(Td0(x, a.b0), Td1(x, b.b1), Td2(x, c.b2), Td3(x, d.b3)), k)
  }

  /** A table round is a round of the cipher. */
  lemma TableRounds(x: Boxes, s: Block, k: Block)
    ensures EncRound(x, s, k) == Add(MixAll(SubShift(x, s)), k)
    ensures DecRound(x, s, k) == Add(InvMixAll(InvSubShift(x, s)), k)
  {
    hide Xor, M0, M1, M2, M3, N0, N1, N2, N3;
  }

  /** A 16-byte block as four words, and back. */
  function FromBytes(s: seq<Byte>): (b: Block)
    requires |s| == 16
  {
    Block(Load(s, 0), Load(s, 4), Load(s, 8), Load(s, 12))
  }

  function ToBytes(b: Block): (s: seq<Byte>)
    ensures |s| == 16 && FromBytes(s) == b
  {
    Store(b.c0) + Store(b.c1) + Store(b.c2) + Store(b.c3)
  }

  lemma BytesOfBlock(s: seq<Byte>)
    requires |s| == 16
    ensures ToBytes(FromBytes(s)) == s
  {
  }

  lemma EncStep(x: Boxes, rk: seq<Col>, nr: nat, b: Block, s: Block, n: nat)
    requires |rk| >= 4 * (nr + 1) && 1 <= n <= nr && s == Rounds(x, RoundKeys(rk, nr), b, n - 1)
    ensures EncRound(x, s, BlockAt(rk, 4 * n)) == Rounds(x, RoundKeys(rk, nr), b, n)
  {
    hide EncRound, SubShift, Add;
    TableRounds(x, s, BlockAt(rk, 4 * n));
    RoundStep(x, RoundKeys(rk, nr), b, n);
  }

  lemma EncEnd(x: Boxes, rk: seq<Col>, nr: nat, b: Block, t: Block)
    requires 1 <= nr && |rk| >= 4 * (nr + 1) && t == Rounds(x, RoundKeys(rk, nr), b, nr - 1)
    ensures EncLast(x, t, BlockAt(rk, 4 * nr)) == Cipher(x, RoundKeys(rk, nr), b)
  {
    KeyBlocks(rk, nr);
    hide EncLast, SubShift, Add, Rounds, RoundKeys, BlockAt;
    LastRound(x, t, BlockAt(rk, 4 * nr));
  }

  /** rijndaelEncrypt, two rounds to the loop: the table-driven form of the cipher. */
  method Encrypt(x: Boxes, rk: array<Col>, nr: nat, pt: seq<Byte>) returns (ct: seq<Byte>)
    requires nr >= 2 && nr % 2 == 0 && rk.Length >= 4 * (nr + 1) && |pt| == 16
    ensures |ct| == 16 && FromBytes(ct) == Cipher(x, RoundKeys(rk[..], nr), FromBytes(pt))
  {
    hide Add, MixAll, SubShift, EncRound, RoundKeys, BlockAt, Rounds, Cipher, EncLast, FromBytes, ToBytes, Xor;
    ghost var b := FromBytes(pt);
    Outline(x, rk[..], nr, b);
    var p, r := 0, nr / 2;
    var s, t := Add(FromBytes(pt), BlockAt(rk[..], 0)), FromBytes(pt);
    ghost var n := 0;
    while true
      invariant 1 <= r && p == 4 * n && n + 2 * r == nr
      invariant s == Rounds(x, RoundKeys(rk[..], nr), b, n)
      decreases r
    {
      EncStep(x, rk[..], nr, b, s, n + 1);
      t := EncRound(x, s, BlockAt(rk[..], p + 4));
      p := p + 8;
      r := r - 1;
      if r == 0 { break; }
      EncStep(x, rk[..], nr, b, t, n + 2);
      s := EncRound(x, t, BlockAt(rk[..], p));
      n := n + 2;
    }
    EncEnd(x, rk[..], nr, b, t);
    ct := ToBytes(EncLast(x, t, BlockAt(rk[..], p)));
  }

  function EncLast(x: Boxes, t: Block, k: Block): (s: Block)
  {
    Block(Xor(Picked(x, t.c0.b0, t.c1.b1, t.c2.b2, t.c3.b3), k.c0), Xor(Picked(x, t.c1.b0, t.c2.b1, t.c3.b2, t.c0.b3), k.c1),
          Xor(Picked(x, t.c2.b0, t.c3.b1, t.c0.b2, t.c1.b3), k.c2), Xor(Picked(x, t.c3.b0, t.c0.b1, t.c1.b2, t.c2.b3), k.c3))
  }

  function DecLast(x: Boxes, t: Block, k: Block): (s: Block)
  {
    Block(Xor(InvPicked(x, t.c0.b0, t.c3.b1, t.c2.b2, t.c1.b3), k.c0), Xor(InvPicked(x, t.c1.b0, t.c0.b1, t.c3.b2, t.c2.b3), k.c1),
          Xor(InvPicked(x, t.c2.b0, t.c1.b1, t.c0.b2, t.c3.b3), k.c2), Xor(InvPicked(x, t.c3.b0, t.c2.b1, t.c1.b2, t.c0.b3), k.c3))
  }

  lemma LastRound(x: Boxes, t: Block, k: Block)
    ensures EncLast(x, t, k) == Add(SubShift(x, t), k)
    ensures DecLast(x, t, k) == Add(InvSubShift(x, t), k)
  {
    hide Xor;
  }

  /** The first addition. */
  lemma Outline(x: Boxes, rk: seq<Col>, nr: nat, b: Block)
    requires |rk| >= 4 * (nr + 1)
    ensures Rounds(x, RoundKeys(rk, nr), b, 0) == Add(b, BlockAt(rk, 0))
    ensures InvRounds(x, RoundKeys(rk, nr), b, 0) == Add(b, BlockAt(rk, 0))
  {
  }

  lemma KeyBlocks(rk: seq<Col>, nr: nat)
    requires |rk| >= 4 * (nr + 1)
    ensures forall r :: 0 <= r <= nr ==> RoundKeys(rk, nr)[r] == BlockAt(rk, 4 * r)
  {
  }

  lemma RoundStep(x: Boxes, k: seq<Block>, b: Block, n: nat)
    requires 1 <= n < |k|
    ensures Rounds(x, k, b, n) == Add(MixAll(SubShift(x, Rounds(x, k, b, n - 1))), k[n])
    ensures InvRounds(x, k, b, n) == Add(InvMixAll(InvSubShift(x, InvRounds(x, k, b, n - 1))), k[n])
  {
  }

  lemma DecStep(x: Boxes, rk: seq<Col>, nr: nat, b: Block, s: Block, n: nat)
    requires |rk| >= 4 * (nr + 1) && 1 <= n <= nr && s == InvRounds(x, RoundKeys(rk, nr), b, n - 1)
    ensures DecRound(x, s, BlockAt(rk, 4 * n)) == InvRounds(x, RoundKeys(rk, nr), b, n)
  {
    hide DecRound, InvSubShift, Add;
    TableRounds(x, s, BlockAt(rk, 4 * n));
    RoundStep(x, RoundKeys(rk, nr), b, n);
  }

  lemma DecEnd(x: Boxes, rk: seq<Col>, nr: nat, b: Block, t: Block)
    requires 1 <= nr && |rk| >= 4 * (nr + 1) && t == InvRounds(x, RoundKeys(rk, nr), b, nr - 1)
    ensures DecLast(x, t, BlockAt(rk, 4 * nr)) == InvCipher(x, RoundKeys(rk, nr), b)
  {
    KeyBlocks(rk, nr);
    hide DecLast, InvSubShift, Add, InvRounds, RoundKeys, BlockAt;
    LastRound(x, t, BlockAt(rk, 4 * nr));
  }

  /** rijndaelDecrypt */
  method Decrypt(x: Boxes, rk: array<Col>, nr: nat, ct: seq<Byte>) returns (pt: seq<Byte>)
    requires nr >= 2 && nr % 2 == 0 && rk.Length >= 4 * (nr + 1) && |ct| == 16
    ensures |pt| == 16 && FromBytes(pt) == InvCipher(x, RoundKeys(rk[..], nr), FromBytes(ct))
  {
    hide Add, InvMixAll, InvSubShift, DecRound, RoundKeys, BlockAt, InvRounds, InvCipher, DecLast, FromBytes, ToBytes, Xor;
    ghost var b := FromBytes(ct);
    Outline(x, rk[..], nr, b);
    var p, r := 0, nr / 2;
    var s, t := Add(FromBytes(ct), BlockAt(rk[..], 0)), FromBytes(ct);
    ghost var n := 0;
    while true
      invariant 1 <= r && p == 4 * n && n + 2 * r == nr
      invariant s == InvRounds(x, RoundKeys(rk[..], nr), b, n)
      decreases r
    {
      DecStep(x, rk[..], nr, b, s, n + 1);
      t := DecRound(x, s, BlockAt(rk[..], p + 4));
      p := p + 8;
      r := r - 1;
      if r == 0 { break; }
      DecStep(x, rk[..], nr, b, t, n + 2);
      s := DecRound(x, t, BlockAt(rk[..], p));
      n := n + 2;
    }
    DecEnd(x, rk[..], nr, b, t);
    pt := ToBytes(DecLast(x, t, BlockAt(rk[..], p)));
  }

  /** Encrypting under one schedule and decrypting under the other gives the block back, for every key of the three
      sizes and every block. */
  method RoundTrip(x: Boxes, cipherKey: seq<Byte>, keyBits: int, block: seq<Byte>) returns (out: seq<Byte>)
    requires Inverse(x) && NumRounds(keyBits) > 0 && 8 * |cipherKey| == keyBits && |block| == 16
    ensures out == block
  {
    hide Inverse, Cipher, InvCipher, NumRounds, Schedule, RoundKeys, ExpandedUpTo, FromBytes, ToBytes;
    RoundsPositive(keyBits);
    var nr := NumRounds(keyBits);
    var ek := new Col[4 * (nr + 1)](_ => ZERO);
    var dk := new Col[4 * (nr + 1)](_ => ZERO);
    var n := KeySetupEnc(x, ek, cipherKey, keyBits);
    ScheduleWords(x, KeyWords(cipherKey), ek[..], nr);
    var ct := Encrypt(x, ek, n, block);
    n := KeySetupDec(x, dk, cipherKey, keyBits);
    out := Decrypt(x, dk, n, ct);
    DecryptEncrypt(x, Schedule(x, KeyWords(cipherKey), nr), FromBytes(block));
    BytesOfBlock(out); BytesOfBlock(block);
  }
}
