/** FIPS 197 in its own terms: what the field, the transformations, the key expansion and the cipher of module Aes have
    to be, stated by polynomials over GF(2), by the position of bytes and by the standard's examples. */
module AesStandard {
  import opened ByteBuffers
  import opened Galois
  import opened Aes

  // The field GF(2^8) of section 4.2.

  /** The product of a polynomial over GF(2) and one of degree at most 7. */
  function Carryless(x: bv16, b: Byte): (p: bv16)
  {
    (if b & 0x01 != 0 then x else 0) ^ (if b & 0x02 != 0 then x << 1 else 0)
    ^ (if b & 0x04 != 0 then x << 2 else 0) ^ (if b & 0x08 != 0 then x << 3 else 0)
    ^ (if b & 0x10 != 0 then x << 4 else 0) ^ (if b & 0x20 != 0 then x << 5 else 0)
    ^ (if b & 0x40 != 0 then x << 6 else 0) ^ (if b & 0x80 != 0 then x << 7 else 0)
  }

  /** r is the product of a and b in the field: their product as polynomials differs from it by q times
      x^8 + x^4 + x^3 + x + 1. */
  predicate Divides(a: Byte, b: Byte, r: Byte, q: Byte)
  {
    q < 0x80 && Carryless(a as bv16, b) == (r as bv16) ^ Carryless(0x11b, q)
  }

  ghost predicate IsProduct(a: Byte, b: Byte, r: Byte)
  {
    exists q: Byte :: Divides(a, b, r, q)
  }

  /** There is only one product. */
  lemma ProductUnique(a: Byte, b: Byte, r: Byte, r': Byte)
    requires IsProduct(a, b, r) && IsProduct(a, b, r')
    ensures r == r'
  {
    hide Carryless;
    var q: Byte :| Divides(a, b, r, q);
    var q': Byte :| Divides(a, b, r', q');
    SameRemainder(r, r', q, q');
  }

  lemma SameRemainder(r: Byte, r': Byte, q: Byte, q': Byte)
    requires q < 0x80 && q' < 0x80 && (r as bv16) ^ Carryless(0x11b, q) == (r' as bv16) ^ Carryless(0x11b, q')
    ensures r == r'
  {
    hide Carryless, High;
    SameHigh(r, r', Carryless(0x11b, q), Carryless(0x11b, q'));
    HighIs(q); HighIs(q');
    HighDetermines(q, q');
  }

  lemma SameHigh(r: Byte, r': Byte, a: bv16, b: bv16)
    requires (r as bv16) ^ a == (r' as bv16) ^ b
    ensures a >> 8 == b >> 8 && (a == b ==> r == r')
  {
  }

  /** The high byte of a multiple of the modulus. */
  function High(q: Byte): (h: Byte) { q ^ (q >> 4) ^ (q >> 5) }

  lemma HighIs(q: Byte)
    requires q < 0x80
    ensures Carryless(0x11b, q) >> 8 == High(q) as bv16
  {
  }

  lemma HighDetermines(q: Byte, q': Byte)
    requires High(q) as bv16 == High(q') as bv16
    ensures q == q'
  {
  }

  /** By2 doubles the polynomial and takes the modulus off if the degree has become 8. */
  lemma By2Reduces(b: Byte)
    ensures ((b as bv16) << 1) ^ (By2(b) as bv16) == if b < 0x80 then 0 else 0x11b
  {
  }

  /** The multiples are products in the field. */
  lemma MultiplesAreProducts(b: Byte)
    ensures IsProduct(b, 0x02, By2(b)) && IsProduct(b, 0x03, By3(b))
    ensures IsProduct(b, 0x09, By9(b)) && IsProduct(b, 0x0b, ByB(b))
    ensures IsProduct(b, 0x0d, ByD(b)) && IsProduct(b, 0x0e, ByE(b))
  {
    hide Divides;
    Quotient2(b); Quotient9(b); QuotientB(b); QuotientD(b); QuotientE(b);
  }

  lemma Quotient2(b: Byte)
    ensures Divides(b, 0x02, By2(b), b >> 7) && Divides(b, 0x03, By3(b), b >> 7)
  {
  }

  lemma Quotient9(b: Byte)
    ensures Divides(b, 0x09, By9(b), b >> 5)
  {
  }

  lemma QuotientB(b: Byte)
    ensures Divides(b, 0x0b, ByB(b), (b >> 5) ^ (b >> 7))
  {
  }

  lemma QuotientD(b: Byte)
    ensures Divides(b, 0x0d, ByD(b), (b >> 5) ^ (b >> 6))
  {
  }

  lemma QuotientE(b: Byte)
    ensures Divides(b, 0x0e, ByE(b), (b >> 5) ^ (b >> 6) ^ (b >> 7))
  {
  }

  // The transformations of section 5.

  /** The byte in row r of a column, and of column c of the state. */
  function Row(w: Col, r: nat): (b: Byte)
    requires r < 4
  {
    if r == 0 then w.b0 else if r == 1 then w.b1 else if r == 2 then w.b2 else w.b3
  }

  function Cell(s: Aes.Block, r: nat, c: nat): (b: Byte)
    requires r < 4 && c < 4
  {
    Row(if c == 0 then s.c0 else if c == 1 then s.c1 else if c == 2 then s.c2 else s.c3, r)
  }

  /** Byte r + 4c of the input is in row r and column c. */
  lemma InputLayout(s: seq<Byte>, r: nat, c: nat)
    requires |s| == 16 && r < 4 && c < 4
    ensures Cell(FromBytes(s), r, c) == s[r + 4 * c]
  {
  }

  /** SubBytes and ShiftRows: row r moves r places to the left. */
  lemma ShiftedRows(x: Boxes, s: Aes.Block, r: nat, c: nat)
    requires r < 4 && c < 4
    ensures Cell(SubShift(x, s), r, c) == x.S(Cell(s, r, (c + r) % 4))
    ensures Cell(InvSubShift(x, s), r, (c + r) % 4) == x.Si(Cell(s, r, c))
  {
    if r == 0 {
    } else if r == 1 {
      assert (c + 1) % 4 == if c == 3 then 0 else c + 1;
    } else if r == 2 {
      assert (c + 2) % 4 == if c >= 2 then c - 2 else c + 2;
    } else {
      assert (c + 3) % 4 == if c == 0 then 3 else c - 1;
    }
  }

  lemma AddedKey(s: Aes.Block, k: Aes.Block, r: nat, c: nat)
    requires r < 4 && c < 4
    ensures Cell(Add(s, k), r, c) == Cell(s, r, c) ^ Cell(k, r, c)
  {
    AddedCell(s, k, r, c);
  }

  lemma AddedCell(s: Aes.Block, k: Aes.Block, r: nat, c: nat)
    requires r < 4 && c < 4
    ensures Cell(Add(s, k), r, c) == Plus(Cell(s, r, c), Cell(k, r, c))
  {
    hide Plus;
  }

  lemma MixOf(w: Col)
    ensures Row(Mix(w), 0) == Plus(Plus(By2(w.b0), By3(w.b1)), Plus(w.b2, w.b3))
    ensures Row(Mix(w), 1) == Plus(Plus(w.b0, By2(w.b1)), Plus(By3(w.b2), w.b3))
    ensures Row(Mix(w), 2) == Plus(Plus(w.b0, w.b1), Plus(By2(w.b2), By3(w.b3)))
    ensures Row(Mix(w), 3) == Plus(Plus(By3(w.b0), w.b1), Plus(w.b2, By2(w.b3)))
  {
    hide Plus, By2, By3;
  }

  lemma InvMixOf(w: Col)
    ensures Row(InvMix(w), 0) == Plus(Plus(ByE(w.b0), ByB(w.b1)), Plus(ByD(w.b2), By9(w.b3)))
    ensures Row(InvMix(w), 1) == Plus(Plus(By9(w.b0), ByE(w.b1)), Plus(ByB(w.b2), ByD(w.b3)))
    ensures Row(InvMix(w), 2) == Plus(Plus(ByD(w.b0), By9(w.b1)), Plus(ByE(w.b2), ByB(w.b3)))
    ensures Row(InvMix(w), 3) == Plus(Plus(ByB(w.b0), ByD(w.b1)), Plus(By9(w.b2), ByE(w.b3)))
  {
    hide Plus, ByE, ByB, ByD, By9;
  }

  function Total(a: Byte, b: Byte, c: Byte, d: Byte): (s: Byte) { a ^ b ^ c ^ d }

  /** MixColumns: twice the byte itself, three times the next one, and the two others. */
  lemma MixedRow(w: Col, r: nat, p: Byte, q: Byte)
    requires r < 4 && IsProduct(Row(w, r), 0x02, p) && IsProduct(Row(w, (r + 1) % 4), 0x03, q)
    ensures Row(Mix(w), r) == p ^ q ^ Row(w, (r + 2) % 4) ^ Row(w, (r + 3) % 4)
  {
    MixedTotal(w, r, p, q);
  }

  lemma MixedTotal(w: Col, r: nat, p: Byte, q: Byte)
    requires r < 4 && IsProduct(Row(w, r), 0x02, p) && IsProduct(Row(w, (r + 1) % 4), 0x03, q)
    ensures Row(Mix(w), r) == Total(p, q, Row(w, (r + 2) % 4), Row(w, (r + 3) % 4))
  {
    hide IsProduct, By2, By3, Plus, Mix, Total;
    var a, b := Row(w, r), Row(w, (r + 1) % 4);
    MultiplesAreProducts(a);
    MultiplesAreProducts(b);
    ProductUnique(a, 0x02, p, By2(a));
    ProductUnique(b, 0x03, q, By3(b));
    SumOfFour(p, q, Row(w, (r + 2) % 4), Row(w, (r + 3) % 4));
    MixOf(w);
  }

  /** InvMixColumns likewise with 0e, 0b, 0d and 09. */
  lemma InvMixedRow(w: Col, r: nat, p: Byte, q: Byte, t: Byte, u: Byte)
    requires r < 4 && IsProduct(Row(w, r), 0x0e, p) && IsProduct(Row(w, (r + 1) % 4), 0x0b, q)
    requires IsProduct(Row(w, (r + 2) % 4), 0x0d, t) && IsProduct(Row(w, (r + 3) % 4), 0x09, u)
    ensures Row(InvMix(w), r) == p ^ q ^ t ^ u
  {
    InvMixedTotal(w, r, p, q, t, u);
  }

  lemma InvMixedTotal(w: Col, r: nat, p: Byte, q: Byte, t: Byte, u: Byte)
    requires r < 4 && IsProduct(Row(w, r), 0x0e, p) && IsProduct(Row(w, (r + 1) % 4), 0x0b, q)
    requires IsProduct(Row(w, (r + 2) % 4), 0x0d, t) && IsProduct(Row(w, (r + 3) % 4), 0x09, u)
    ensures Row(InvMix(w), r) == Total(p, q, t, u)
  {
    hide IsProduct, ByE, ByB, ByD, By9, Plus, InvMix, Total;
    InvProducts(Row(w, r), Row(w, (r + 1) % 4), Row(w, (r + 2) % 4), Row(w, (r + 3) % 4), p, q, t, u);
    SumOfFour(p, q, t, u);
    InvMixOf(w);
  }

  lemma InvProducts(a: Byte, b: Byte, c: Byte, d: Byte, p: Byte, q: Byte, t: Byte, u: Byte)
    requires IsProduct(a, 0x0e, p) && IsProduct(b, 0x0b, q) && IsProduct(c, 0x0d, t) && IsProduct(d, 0x09, u)
    ensures p == ByE(a) && q == ByB(b) && t == ByD(c) && u == By9(d)
  {
    hide IsProduct;
    MultiplesAreProducts(a); MultiplesAreProducts(b); MultiplesAreProducts(c); MultiplesAreProducts(d);
    ProductUnique(a, 0x0e, p, ByE(a));
    ProductUnique(b, 0x0b, q, ByB(b));
    ProductUnique(c, 0x0d, t, ByD(c));
    ProductUnique(d, 0x09, u, By9(d));
  }

  lemma RotateSum(a: Byte, b: Byte, c: Byte, d: Byte)
    ensures Plus(Plus(d, a), Plus(b, c)) == Plus(Plus(a, b), Plus(c, d))
  {
    hide Plus;
    PlusComm(d, a);
    Swap(a, d, b, c);
    PlusComm(d, c);
  }

  lemma Unfolded(a: Byte, b: Byte, c: Byte, d: Byte)
    ensures Plus(Plus(Plus(a, b), c), d) == Total(a, b, c, d)
  {
  }

  /** The sum of four bytes in the orders in which they come. */
  lemma SumOfFour(a: Byte, b: Byte, c: Byte, d: Byte)
    ensures Plus(Plus(a, b), Plus(c, d)) == Total(a, b, c, d) && Plus(Plus(d, a), Plus(b, c)) == Total(a, b, c, d)
    ensures Plus(Plus(c, d), Plus(a, b)) == Total(a, b, c, d) && Plus(Plus(b, c), Plus(d, a)) == Total(a, b, c, d)
  {
    hide Plus, Total;
    Unfolded(a, b, c, d);
    PlusAssoc(Plus(a, b), c, d);
    RotateSum(a, b, c, d);
    RotateSum(b, c, d, a);
    PlusComm(Plus(a, b), Plus(c, d));
  }

  /** The round constants are the powers of x. */
  lemma RoundConstant(j: nat)
    ensures Rc(0) == 0x01 && IsProduct(Rc(j), 0x02, Rc(j + 1))
  {
    hide IsProduct, By2;
    MultiplesAreProducts(Rc(j));
  }

  /** The number of rounds is the key's words and six. */
  lemma RoundsForKey(nk: nat)
    ensures NumRounds(32 * nk) == if nk in {4, 6, 8} then nk + 6 else 0
  {
  }

  // The examples of the standard.

  /** The S-box of figure 7. */
  ghost predicate StandardBox(x: Boxes)
  {
    && x.S(0x00) == 0x63 && x.S(0x01) == 0x7c && x.S(0x02) == 0x77 && x.S(0x03) == 0x7b && x.S(0x04) == 0xf2 && x.S(0x05) == 0x6b && x.S(0x06) == 0x6f && x.S(0x07) == 0xc5
    && x.S(0x08) == 0x30 && x.S(0x09) == 0x01 && x.S(0x0a) == 0x67 && x.S(0x0b) == 0x2b && x.S(0x0c) == 0xfe && x.S(0x0d) == 0xd7 && x.S(0x0e) == 0xab && x.S(0x0f) == 0x76
    && x.S(0x10) == 0xca && x.S(0x11) == 0x82 && x.S(0x12) == 0xc9 && x.S(0x13) == 0x7d && x.S(0x14) == 0xfa && x.S(0x15) == 0x59 && x.S(0x16) == 0x47 && x.S(0x17) == 0xf0
    && x.S(0x18) == 0xad && x.S(0x19) == 0xd4 && x.S(0x1a) == 0xa2 && x.S(0x1b) == 0xaf && x.S(0x1c) == 0x9c && x.S(0x1d) == 0xa4 && x.S(0x1e) == 0x72 && x.S(0x1f) == 0xc0
    && x.S(0x20) == 0xb7 && x.S(0x21) == 0xfd && x.S(0x22) == 0x93 && x.S(0x23) == 0x26 && x.S(0x24) == 0x36 && x.S(0x25) == 0x3f && x.S(0x26) == 0xf7 && x.S(0x27) == 0xcc
    && x.S(0x28) == 0x34 && x.S(0x29) == 0xa5 && x.S(0x2a) == 0xe5 && x.S(0x2b) == 0xf1 && x.S(0x2c) == 0x71 && x.S(0x2d) == 0xd8 && x.S(0x2e) == 0x31 && x.S(0x2f) == 0x15
    && x.S(0x30) == 0x04 && x.S(0x31) == 0xc7 && x.S(0x32) == 0x23 && x.S(0x33) == 0xc3 && x.S(0x34) == 0x18 && x.S(0x35) == 0x96 && x.S(0x36) == 0x05 && x.S(0x37) == 0x9a
    && x.S(0x38) == 0x07 && x.S(0x39) == 0x12 && x.S(0x3a) == 0x80 && x.S(0x3b) == 0xe2 && x.S(0x3c) == 0xeb && x.S(0x3d) == 0x27 && x.S(0x3e) == 0xb2 && x.S(0x3f) == 0x75
    && x.S(0x40) == 0x09 && x.S(0x41) == 0x83 && x.S(0x42) == 0x2c && x.S(0x43) == 0x1a && x.S(0x44) == 0x1b && x.S(0x45) == 0x6e && x.S(0x46) == 0x5a && x.S(0x47) == 0xa0
    && x.S(0x48) == 0x52 && x.S(0x49) == 0x3b && x.S(0x4a) == 0xd6 && x.S(0x4b) == 0xb3 && x.S(0x4c) == 0x29 && x.S(0x4d) == 0xe3 && x.S(0x4e) == 0x2f && x.S(0x4f) == 0x84
    && x.S(0x50) == 0x53 && x.S(0x51) == 0xd1 && x.S(0x52) == 0x00 && x.S(0x53) == 0xed && x.S(0x54) == 0x20 && x.S(0x55) == 0xfc && x.S(0x56) == 0xb1 && x.S(0x57) == 0x5b
    && x.S(0x58) == 0x6a && x.S(0x59) == 0xcb && x.S(0x5a) == 0xbe && x.S(0x5b) == 0x39 && x.S(0x5c) == 0x4a && x.S(0x5d) == 0x4c && x.S(0x5e) == 0x58 && x.S(0x5f) == 0xcf
    && x.S(0x60) == 0xd0 && x.S(0x61) == 0xef && x.S(0x62) == 0xaa && x.S(0x63) == 0xfb && x.S(0x64) == 0x43 && x.S(0x65) == 0x4d && x.S(0x66) == 0x33 && x.S(0x67) == 0x85
    && x.S(0x68) == 0x45 && x.S(0x69) == 0xf9 && x.S(0x6a) == 0x02 && x.S(0x6b) == 0x7f && x.S(0x6c) == 0x50 && x.S(0x6d) == 0x3c && x.S(0x6e) == 0x9f && x.S(0x6f) == 0xa8
    && x.S(0x70) == 0x51 && x.S(0x71) == 0xa3 && x.S(0x72) == 0x40 && x.S(0x73) == 0x8f && x.S(0x74) == 0x92 && x.S(0x75) == 0x9d && x.S(0x76) == 0x38 && x.S(0x77) == 0xf5
    && x.S(0x78) == 0xbc && x.S(0x79) == 0xb6 && x.S(0x7a) == 0xda && x.S(0x7b) == 0x21 && x.S(0x7c) == 0x10 && x.S(0x7d) == 0xff && x.S(0x7e) == 0xf3 && x.S(0x7f) == 0xd2
    && x.S(0x80) == 0xcd && x.S(0x81) == 0x0c && x.S(0x82) == 0x13 && x.S(0x83) == 0xec && x.S(0x84) == 0x5f && x.S(0x85) == 0x97 && x.S(0x86) == 0x44 && x.S(0x87) == 0x17
    && x.S(0x88) == 0xc4 && x.S(0x89) == 0xa7 && x.S(0x8a) == 0x7e && x.S(0x8b) == 0x3d && x.S(0x8c) == 0x64 && x.S(0x8d) == 0x5d && x.S(0x8e) == 0x19 && x.S(0x8f) == 0x73
    && x.S(0x90) == 0x60 && x.S(0x91) == 0x81 && x.S(0x92) == 0x4f && x.S(0x93) == 0xdc && x.S(0x94) == 0x22 && x.S(0x95) == 0x2a && x.S(0x96) == 0x90 && x.S(0x97) == 0x88
    && x.S(0x98) == 0x46 && x.S(0x99) == 0xee && x.S(0x9a) == 0xb8 && x.S(0x9b) == 0x14 && x.S(0x9c) == 0xde && x.S(0x9d) == 0x5e && x.S(0x9e) == 0x0b && x.S(0x9f) == 0xdb
    && x.S(0xa0) == 0xe0 && x.S(0xa1) == 0x32 && x.S(0xa2) == 0x3a && x.S(0xa3) == 0x0a && x.S(0xa4) == 0x49 && x.S(0xa5) == 0x06 && x.S(0xa6) == 0x24 && x.S(0xa7) == 0x5c
    && x.S(0xa8) == 0xc2 && x.S(0xa9) == 0xd3 && x.S(0xaa) == 0xac && x.S(0xab) == 0x62 && x.S(0xac) == 0x91 && x.S(0xad) == 0x95 && x.S(0xae) == 0xe4 && x.S(0xaf) == 0x79
    && x.S(0xb0) == 0xe7 && x.S(0xb1) == 0xc8 && x.S(0xb2) == 0x37 && x.S(0xb3) == 0x6d && x.S(0xb4) == 0x8d && x.S(0xb5) == 0xd5 && x.S(0xb6) == 0x4e && x.S(0xb7) == 0xa9
    && x.S(0xb8) == 0x6c && x.S(0xb9) == 0x56 && x.S(0xba) == 0xf4 && x.S(0xbb) == 0xea && x.S(0xbc) == 0x65 && x.S(0xbd) == 0x7a && x.S(0xbe) == 0xae && x.S(0xbf) == 0x08
    && x.S(0xc0) == 0xba && x.S(0xc1) == 0x78 && x.S(0xc2) == 0x25 && x.S(0xc3) == 0x2e && x.S(0xc4) == 0x1c && x.S(0xc5) == 0xa6 && x.S(0xc6) == 0xb4 && x.S(0xc7) == 0xc6
    && x.S(0xc8) == 0xe8 && x.S(0xc9) == 0xdd && x.S(0xca) == 0x74 && x.S(0xcb) == 0x1f && x.S(0xcc) == 0x4b && x.S(0xcd) == 0xbd && x.S(0xce) == 0x8b && x.S(0xcf) == 0x8a
    && x.S(0xd0) == 0x70 && x.S(0xd1) == 0x3e && x.S(0xd2) == 0xb5 && x.S(0xd3) == 0x66 && x.S(0xd4) == 0x48 && x.S(0xd5) == 0x03 && x.S(0xd6) == 0xf6 && x.S(0xd7) == 0x0e
    && x.S(0xd8) == 0x61 && x.S(0xd9) == 0x35 && x.S(0xda) == 0x57 && x.S(0xdb) == 0xb9 && x.S(0xdc) == 0x86 && x.S(0xdd) == 0xc1 && x.S(0xde) == 0x1d && x.S(0xdf) == 0x9e
    && x.S(0xe0) == 0xe1 && x.S(0xe1) == 0xf8 && x.S(0xe2) == 0x98 && x.S(0xe3) == 0x11 && x.S(0xe4) == 0x69 && x.S(0xe5) == 0xd9 && x.S(0xe6) == 0x8e && x.S(0xe7) == 0x94
    && x.S(0xe8) == 0x9b && x.S(0xe9) == 0x1e && x.S(0xea) == 0x87 && x.S(0xeb) == 0xe9 && x.S(0xec) == 0xce && x.S(0xed) == 0x55 && x.S(0xee) == 0x28 && x.S(0xef) == 0xdf
    && x.S(0xf0) == 0x8c && x.S(0xf1) == 0xa1 && x.S(0xf2) == 0x89 && x.S(0xf3) == 0x0d && x.S(0xf4) == 0xbf && x.S(0xf5) == 0xe6 && x.S(0xf6) == 0x42 && x.S(0xf7) == 0x68
    && x.S(0xf8) == 0x41 && x.S(0xf9) == 0x99 && x.S(0xfa) == 0x2d && x.S(0xfb) == 0x0f && x.S(0xfc) == 0xb0 && x.S(0xfd) == 0x54 && x.S(0xfe) == 0xbb && x.S(0xff) == 0x16
  }

  /** The first new word of the 128-bit example of appendix A. */
  lemma KeyExample128(x: Boxes, key: seq<Col>)
    requires StandardBox(x)
    requires key == 
      [Col(0x2b, 0x7e, 0x15, 0x16), Col(0x28, 0xae, 0xd2, 0xa6), Col(0xab, 0xf7, 0x15, 0x88), Col(0x09, 0xcf, 0x4f, 0x3c)]
    ensures Expanded(x, key, 4) == Col(0xa0, 0xfa, 0xfe, 0x17)
  {
    assert Expanded(x, key, 4) == Col(0xa0, 0xfa, 0xfe, 0x17);
  }

  /** The first new word of the 192-bit example. */
  lemma KeyExample192(x: Boxes, key: seq<Col>)
    requires StandardBox(x)
    requires key == 
      [Col(0x8e, 0x73, 0xb0, 0xf7), Col(0xda, 0x0e, 0x64, 0x52), Col(0xc8, 0x10, 0xf3, 0x2b), Col(0x80, 0x90, 0x79, 0xe5), Col(0x62, 0xf8, 0xea, 0xd2), Col(0x52, 0x2c, 0x6b, 0x7b)]
    ensures Expanded(x, key, 6) == Col(0xfe, 0x0c, 0x91, 0xf7)
  {
    assert Expanded(x, key, 6) == Col(0xfe, 0x0c, 0x91, 0xf7);
  }

  /** The first new words of the 256-bit example, up to the one that is only substituted. */
  lemma KeyExample256(x: Boxes, key: seq<Col>)
    requires StandardBox(x)
    requires key == 
      [Col(0x60, 0x3d, 0xeb, 0x10), Col(0x15, 0xca, 0x71, 0xbe), Col(0x2b, 0x73, 0xae, 0xf0), Col(0x85, 0x7d, 0x77, 0x81), Col(0x1f, 0x35, 0x2c, 0x07), Col(0x3b, 0x61, 0x08, 0xd7), Col(0x2d, 0x98, 0x10, 0xa3), Col(0x09, 0x14, 0xdf, 0xf4)]
    ensures Expanded(x, key, 12) == Col(0xa8, 0xb0, 0x9c, 0x1a)
  {
    assert Expanded(x, key, 8) == Col(0x9b, 0xa3, 0x54, 0x11);
    assert Expanded(x, key, 9) == Col(0x8e, 0x69, 0x25, 0xaf);
    assert Expanded(x, key, 10) == Col(0xa5, 0x1a, 0x8b, 0x5f);
    assert Expanded(x, key, 11) == Col(0x20, 0x67, 0xfc, 0xde);
    assert Expanded(x, key, 12) == Col(0xa8, 0xb0, 0x9c, 0x1a);
  }

  /** The next round key of a 128-bit key. */
  function NextKey(x: Boxes, k: Aes.Block, r: nat): (n: Aes.Block)
    requires r >= 1
  {
    var c0 := Xor(k.c0, Xor(SubWord(x, RotWord(k.c3)), Col(Rc(r - 1), 0, 0, 0)));
    var c1 := Xor(k.c1, c0);
    var c2 := Xor(k.c2, c1);
    Aes.Block(c0, c1, c2, Xor(k.c3, c2))
  }

  lemma NextKeyIs(x: Boxes, key: seq<Col>, r: nat)
    requires |key| == 4 && 1 <= r <= 10
    ensures Schedule(x, key, 10)[r] == NextKey(x, Schedule(x, key, 10)[r - 1], r)
  {
    hide Xor, SubWord, RotWord, Rc;
    var i := 4 * r;
    assert Expanded(x, key, i) == Xor(Expanded(x, key, i - 4), Mixed(x, key, i));
    assert Expanded(x, key, i + 1) == Xor(Expanded(x, key, i - 3), Mixed(x, key, i + 1));
    assert Expanded(x, key, i + 2) == Xor(Expanded(x, key, i - 2), Mixed(x, key, i + 2));
    assert Expanded(x, key, i + 3) == Xor(Expanded(x, key, i - 1), Mixed(x, key, i + 3));
  }

  /** The round keys and the states of the example of appendix C.1. */
  const KEYS: seq<Aes.Block> := [
    Aes.Block(Col(0x00, 0x01, 0x02, 0x03), Col(0x04, 0x05, 0x06, 0x07), Col(0x08, 0x09, 0x0a, 0x0b), Col(0x0c, 0x0d, 0x0e, 0x0f)),
    Aes.Block(Col(0xd6, 0xaa, 0x74, 0xfd), Col(0xd2, 0xaf, 0x72, 0xfa), Col(0xda, 0xa6, 0x78, 0xf1), Col(0xd6, 0xab, 0x76, 0xfe)),
    Aes.Block(Col(0xb6, 0x92, 0xcf, 0x0b), Col(0x64, 0x3d, 0xbd, 0xf1), Col(0xbe, 0x9b, 0xc5, 0x00), Col(0x68, 0x30, 0xb3, 0xfe)),
    Aes.Block(Col(0xb6, 0xff, 0x74, 0x4e), Col(0xd2, 0xc2, 0xc9, 0xbf), Col(0x6c, 0x59, 0x0c, 0xbf), Col(0x04, 0x69, 0xbf, 0x41)),
    Aes.Block(Col(0x47, 0xf7, 0xf7, 0xbc), Col(0x95, 0x35, 0x3e, 0x03), Col(0xf9, 0x6c, 0x32, 0xbc), Col(0xfd, 0x05, 0x8d, 0xfd)),
    Aes.Block(Col(0x3c, 0xaa, 0xa3, 0xe8), Col(0xa9, 0x9f, 0x9d, 0xeb), Col(0x50, 0xf3, 0xaf, 0x57), Col(0xad, 0xf6, 0x22, 0xaa)),
    Aes.Block(Col(0x5e, 0x39, 0x0f, 0x7d), Col(0xf7, 0xa6, 0x92, 0x96), Col(0xa7, 0x55, 0x3d, 0xc1), Col(0x0a, 0xa3, 0x1f, 0x6b)),
    Aes.Block(Col(0x14, 0xf9, 0x70, 0x1a), Col(0xe3, 0x5f, 0xe2, 0x8c), Col(0x44, 0x0a, 0xdf, 0x4d), Col(0x4e, 0xa9, 0xc0, 0x26)),
    Aes.Block(Col(0x47, 0x43, 0x87, 0x35), Col(0xa4, 0x1c, 0x65, 0xb9), Col(0xe0, 0x16, 0xba, 0xf4), Col(0xae, 0xbf, 0x7a, 0xd2)),
    Aes.Block(Col(0x54, 0x99, 0x32, 0xd1), Col(0xf0, 0x85, 0x57, 0x68), Col(0x10, 0x93, 0xed, 0x9c), Col(0xbe, 0x2c, 0x97, 0x4e)),
    Aes.Block(Col(0x13, 0x11, 0x1d, 0x7f), Col(0xe3, 0x94, 0x4a, 0x17), Col(0xf3, 0x07, 0xa7, 0x8b), Col(0x4d, 0x2b, 0x30, 0xc5))
  ]

  const STATES: seq<Aes.Block> := [
    Aes.Block(Col(0x00, 0x10, 0x20, 0x30), Col(0x40, 0x50, 0x60, 0x70), Col(0x80, 0x90, 0xa0, 0xb0), Col(0xc0, 0xd0, 0xe0, 0xf0)),
    Aes.Block(Col(0x89, 0xd8, 0x10, 0xe8), Col(0x85, 0x5a, 0xce, 0x68), Col(0x2d, 0x18, 0x43, 0xd8), Col(0xcb, 0x12, 0x8f, 0xe4)),
    Aes.Block(Col(0x49, 0x15, 0x59, 0x8f), Col(0x55, 0xe5, 0xd7, 0xa0), Col(0xda, 0xca, 0x94, 0xfa), Col(0x1f, 0x0a, 0x63, 0xf7)),
    Aes.Block(Col(0xfa, 0x63, 0x6a, 0x28), Col(0x25, 0xb3, 0x39, 0xc9), Col(0x40, 0x66, 0x8a, 0x31), Col(0x57, 0x24, 0x4d, 0x17)),
    Aes.Block(Col(0x24, 0x72, 0x40, 0x23), Col(0x69, 0x66, 0xb3, 0xfa), Col(0x6e, 0xd2, 0x75, 0x32), Col(0x88, 0x42, 0x5b, 0x6c)),
    Aes.Block(Col(0xc8, 0x16, 0x77, 0xbc), Col(0x9b, 0x7a, 0xc9, 0x3b), Col(0x25, 0x02, 0x79, 0x92), Col(0xb0, 0x26, 0x19, 0x96)),
    Aes.Block(Col(0xc6, 0x2f, 0xe1, 0x09), Col(0xf7, 0x5e, 0xed, 0xc3), Col(0xcc, 0x79, 0x39, 0x5d), Col(0x84, 0xf9, 0xcf, 0x5d)),
    Aes.Block(Col(0xd1, 0x87, 0x6c, 0x0f), Col(0x79, 0xc4, 0x30, 0x0a), Col(0xb4, 0x55, 0x94, 0xad), Col(0xd6, 0x6f, 0xf4, 0x1f)),
    Aes.Block(Col(0xfd, 0xe3, 0xba, 0xd2), Col(0x05, 0xe5, 0xd0, 0xd7), Col(0x35, 0x47, 0x96, 0x4e), Col(0xf1, 0xfe, 0x37, 0xf1)),
    Aes.Block(Col(0xbd, 0x6e, 0x7c, 0x3d), Col(0xf2, 0xb5, 0x77, 0x9e), Col(0x0b, 0x61, 0x21, 0x6e), Col(0x8b, 0x10, 0xb6, 0x89)),
    Aes.Block(Col(0x69, 0xc4, 0xe0, 0xd8), Col(0x6a, 0x7b, 0x04, 0x30), Col(0xd8, 0xcd, 0xb7, 0x80), Col(0x70, 0xb4, 0xc5, 0x5a))
  ]

  lemma ExampleKeys1(x: Boxes)
    requires StandardBox(x)
    ensures NextKey(x, KEYS[0], 1) == KEYS[1]
    ensures NextKey(x, KEYS[1], 2) == KEYS[2]
    ensures NextKey(x, KEYS[2], 3) == KEYS[3]
  {
    RoundConstants();
  }

  lemma ExampleKeys2(x: Boxes)
    requires StandardBox(x)
    ensures NextKey(x, KEYS[3], 4) == KEYS[4]
    ensures NextKey(x, KEYS[4], 5) == KEYS[5]
    ensures NextKey(x, KEYS[5], 6) == KEYS[6]
    ensures NextKey(x, KEYS[6], 7) == KEYS[7]
  {
    RoundConstants();
  }

  lemma ExampleKeys3(x: Boxes)
    requires StandardBox(x)
    ensures NextKey(x, KEYS[7], 8) == KEYS[8]
    ensures NextKey(x, KEYS[8], 9) == KEYS[9]
    ensures NextKey(x, KEYS[9], 10) == KEYS[10]
  {
    RoundConstants();
  }

  lemma RoundConstants()
    ensures Rc(0) == 0x01 && Rc(1) == 0x02 && Rc(2) == 0x04 && Rc(3) == 0x08 && Rc(4) == 0x10
    ensures Rc(5) == 0x20 && Rc(6) == 0x40 && Rc(7) == 0x80 && Rc(8) == 0x1b && Rc(9) == 0x36
  {
    assert Rc(2) == 0x04;
    assert Rc(4) == 0x10;
    assert Rc(6) == 0x40;
    assert Rc(8) == 0x1b;
  }

  /** After SubBytes and ShiftRows. */
  const SHIFTED: seq<Aes.Block> := [
    Aes.Block(Col(0x63, 0x53, 0xe0, 0x8c), Col(0x09, 0x60, 0xe1, 0x04), Col(0xcd, 0x70, 0xb7, 0x51), Col(0xba, 0xca, 0xd0, 0xe7)),
    Aes.Block(Col(0xa7, 0xbe, 0x1a, 0x69), Col(0x97, 0xad, 0x73, 0x9b), Col(0xd8, 0xc9, 0xca, 0x45), Col(0x1f, 0x61, 0x8b, 0x61)),
    Aes.Block(Col(0x3b, 0xd9, 0x22, 0x68), Col(0xfc, 0x74, 0xfb, 0x73), Col(0x57, 0x67, 0xcb, 0xe0), Col(0xc0, 0x59, 0x0e, 0x2d)),
    Aes.Block(Col(0x2d, 0x6d, 0x7e, 0xf0), Col(0x3f, 0x33, 0xe3, 0x34), Col(0x09, 0x36, 0x02, 0xdd), Col(0x5b, 0xfb, 0x12, 0xc7)),
    Aes.Block(Col(0x36, 0x33, 0x9d, 0x50), Col(0xf9, 0xb5, 0x39, 0x26), Col(0x9f, 0x2c, 0x09, 0x2d), Col(0xc4, 0x40, 0x6d, 0x23)),
    Aes.Block(Col(0xe8, 0xda, 0xb6, 0x90), Col(0x14, 0x77, 0xd4, 0x65), Col(0x3f, 0xf7, 0xf5, 0xe2), Col(0xe7, 0x47, 0xdd, 0x4f)),
    Aes.Block(Col(0xb4, 0x58, 0x12, 0x4c), Col(0x68, 0xb6, 0x8a, 0x01), Col(0x4b, 0x99, 0xf8, 0x2e), Col(0x5f, 0x15, 0x55, 0x4c)),
    Aes.Block(Col(0x3e, 0x1c, 0x22, 0xc0), Col(0xb6, 0xfc, 0xbf, 0x76), Col(0x8d, 0xa8, 0x50, 0x67), Col(0xf6, 0x17, 0x04, 0x95)),
    Aes.Block(Col(0x54, 0xd9, 0x90, 0xa1), Col(0x6b, 0xa0, 0x9a, 0xb5), Col(0x96, 0xbb, 0xf4, 0x0e), Col(0xa1, 0x11, 0x70, 0x2f)),
    Aes.Block(Col(0x7a, 0xd5, 0xfd, 0xa7), Col(0x89, 0xef, 0x4e, 0x27), Col(0x2b, 0xca, 0x10, 0x0b), Col(0x3d, 0x9f, 0xf5, 0x9f))
  ]

  lemma ExampleShifts1(x: Boxes)
    requires StandardBox(x)
    ensures SubShift(x, STATES[0]) == SHIFTED[0]
    ensures SubShift(x, STATES[1]) == SHIFTED[1]
    ensures SubShift(x, STATES[2]) == SHIFTED[2]
    ensures SubShift(x, STATES[3]) == SHIFTED[3]
    ensures SubShift(x, STATES[4]) == SHIFTED[4]
  {
  }

  lemma ExampleShifts2(x: Boxes)
    requires StandardBox(x)
    ensures SubShift(x, STATES[5]) == SHIFTED[5]
    ensures SubShift(x, STATES[6]) == SHIFTED[6]
    ensures SubShift(x, STATES[7]) == SHIFTED[7]
    ensures SubShift(x, STATES[8]) == SHIFTED[8]
    ensures SubShift(x, STATES[9]) == SHIFTED[9]
  {
  }

  lemma ExampleMixes1()
    ensures Add(MixAll(SHIFTED[0]), KEYS[1]) == STATES[1]
    ensures Add(MixAll(SHIFTED[1]), KEYS[2]) == STATES[2]
    ensures Add(MixAll(SHIFTED[2]), KEYS[3]) == STATES[3]
  {
  }

  lemma ExampleMixes2()
    ensures Add(MixAll(SHIFTED[3]), KEYS[4]) == STATES[4]
    ensures Add(MixAll(SHIFTED[4]), KEYS[5]) == STATES[5]
    ensures Add(MixAll(SHIFTED[5]), KEYS[6]) == STATES[6]
  {
  }

  lemma ExampleMixes3()
    ensures Add(MixAll(SHIFTED[6]), KEYS[7]) == STATES[7]
    ensures Add(MixAll(SHIFTED[7]), KEYS[8]) == STATES[8]
    ensures Add(MixAll(SHIFTED[8]), KEYS[9]) == STATES[9]
  {
  }

  lemma LastRound()
    ensures Add(SHIFTED[9], KEYS[10]) == STATES[10]
  {
  }

  lemma {:induction false} ExampleSchedule(x: Boxes, key: seq<Col>, r: nat)
    requires StandardBox(x) && |key| == 4 && r <= 10 && Schedule(x, key, 10)[0] == KEYS[0]
    ensures Schedule(x, key, 10)[r] == KEYS[r]
  {
    hide StandardBox, Schedule, NextKey;
    if r > 0 {
      ExampleSchedule(x, key, r - 1);
      NextKeyIs(x, key, r);
      ExampleKeys1(x); ExampleKeys2(x); ExampleKeys3(x);
    }
  }

  lemma {:induction false} ExampleStates(x: Boxes, k: seq<Aes.Block>, s: Aes.Block, n: nat)
    requires StandardBox(x) && |k| == 11 && n <= 9 && Add(s, KEYS[0]) == STATES[0]
    requires forall r :: 0 <= r <= 10 ==> k[r] == KEYS[r]
    ensures Rounds(x, k, s, n) == STATES[n]
  {
    hide StandardBox, Add, MixAll, SubShift;
    if n > 0 {
      ExampleStates(x, k, s, n - 1);
      ExampleShifts1(x); ExampleShifts2(x);
      ExampleMixes1(); ExampleMixes2(); ExampleMixes3();
    }
  }

  /** The example of appendix C.1: key 00 01 .. 0f, plaintext 00 11 .. ff. */
  lemma CipherExample(x: Boxes, key: seq<Byte>, input: seq<Byte>)
    requires StandardBox(x)
    requires key == [0x00, 0x01, 0x02, 0x03, 0x04, 0x05, 0x06, 0x07, 0x08, 0x09, 0x0a, 0x0b, 0x0c, 0x0d, 0x0e, 0x0f]
    requires input == [0x00, 0x11, 0x22, 0x33, 0x44, 0x55, 0x66, 0x77, 0x88, 0x99, 0xaa, 0xbb, 0xcc, 0xdd, 0xee, 0xff]
    ensures Cipher(x, Schedule(x, KeyWords(key), 10), FromBytes(input)) == FromBytes([
      0x69, 0xc4, 0xe0, 0xd8, 0x6a, 0x7b, 0x04, 0x30, 0xd8, 0xcd, 0xb7, 0x80, 0x70, 0xb4, 0xc5, 0x5a])
  {
    hide StandardBox, Schedule, Rounds, SubShift, Mix;
    var k, s := Schedule(x, KeyWords(key), 10), FromBytes(input);
    FirstKey(x, key);
    forall r | 0 <= r <= 10
      ensures k[r] == KEYS[r]
    {
      ExampleSchedule(x, KeyWords(key), r);
    }
    ExampleStates(x, k, s, 9);
    ExampleShifts2(x);
    LastRound();
  }

  lemma FirstKey(x: Boxes, key: seq<Byte>)
    requires key == [0x00, 0x01, 0x02, 0x03, 0x04, 0x05, 0x06, 0x07, 0x08, 0x09, 0x0a, 0x0b, 0x0c, 0x0d, 0x0e, 0x0f]
    ensures Schedule(x, KeyWords(key), 10)[0] == KEYS[0]
  {
  }
}
