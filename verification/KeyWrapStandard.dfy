/** RFC 3394 in its own terms: the shifting form of section 2.2.1, which no index of module KeyWrap appears in, and the
    example of section 4.1. */
module KeyWrapStandard {
  import opened ByteBuffers
  import opened Options
  import opened KeyWrap

  /** A ^ t on 64 bits. */
  function Taken(a: seq<Byte>, t: nat): (r: seq<Byte>)
    requires |a| == 8
    ensures |r| == 8
  {
    [Xored(a[0], t / 0x100_0000_0000_0000 % 256), Xored(a[1], t / 0x1_0000_0000_0000 % 256),
     Xored(a[2], t / 0x100_0000_0000 % 256), Xored(a[3], t / 0x1_0000_0000 % 256),
     Xored(a[4], t / 0x100_0000 % 256), Xored(a[5], t / 0x1_0000 % 256),
     Xored(a[6], t / 0x100 % 256), Xored(a[7], t % 256)]
  }

  function Xored(a: Byte, n: nat): (b: Byte)
    requires n < 256
  {
    a ^ (n as Byte)
  }

  /** The registers after t steps: the first block of R goes into the cipher, and the lower half of what comes out
      joins the end. */
  function Shifted(c: Cipher, g: Registers, t: nat): (r: Registers)
    requires |g.A| == 8 && |g.R| >= 8
    ensures |r.A| == 8 && |r.R| == |g.R|
  {
    if t == 0 then g
    else
      var h := Shifted(c, g, t - 1);
      var b := c.E(h.A + h.R[..8]);
      Registers(Taken(b[..8], t), h.R[8..] + b[8..])
  }

  lemma TakenIsCount(a: seq<Byte>, t: nat)
    requires |a| == 8 && t < 0x1_0000
    ensures Taken(a, t) == CountWide(a, t)
  {
    hide Xored, CountWide;
    HighBytes(t);
    LowBytes(a, t);
    NothingTaken(a[0]); NothingTaken(a[1]); NothingTaken(a[2]);
    NothingTaken(a[3]); NothingTaken(a[4]); NothingTaken(a[5]);
  }

  lemma NothingTaken(a: Byte)
    ensures Xored(a, 0) == a
  {
    XorZero(a);
  }

  lemma LowBytes(a: seq<Byte>, t: nat)
    requires |a| == 8 && t < 0x1_0000
    ensures CountWide(a, t) == a[..6] + [Xored(a[6], t / 256), Xored(a[7], t % 256)]
  {
  }

  lemma HighBytes(t: nat)
    requires t < 0x1_0000
    ensures t / 0x1_0000 == 0 && t / 0x100_0000 == 0 && t / 0x1_0000_0000 == 0 && t / 0x100_0000_0000 == 0
    ensures t / 0x1_0000_0000_0000 == 0 && t / 0x100_0000_0000_0000 == 0 && t / 0x100 < 256
  {
  }

  /** The rows of the index form, i places on. */
  function Turned(r: seq<Byte>, i: nat): (s: seq<Byte>)
    requires 8 * i <= |r|
  {
    r[8 * i..] + r[..8 * i]
  }

  /** The shifting form is the index form with the rows turned: the two agree whenever a pass is over. */
  lemma {:induction false} ShiftingForm(c: Cipher, n: nat, g: Registers, j: nat, i: nat)
    requires Sized(g, n) && 0 < n && i <= n && Number(n, j, i) < 0x1_0000
    ensures Shifted(c, g, Number(n, j, i)).A == WrappedWide(c, n, g, j, i).A
    ensures Shifted(c, g, Number(n, j, i)).R == Turned(WrappedWide(c, n, g, j, i).R, i)
    decreases j, i
  {
    hide Number, StepWide, Taken, Turned;
    NextNumber(n, j, i);
    if i > 0 {
      ShiftingForm(c, n, g, j, i - 1);
      ShiftStep(c, n, WrappedWide(c, n, g, j, i - 1), i - 1, Shifted(c, g, Number(n, j, i - 1)), Number(n, j, i));
    } else if j > 0 {
      ShiftingForm(c, n, g, j - 1, n);
      WholeTurn(WrappedWide(c, n, g, j - 1, n).R, n);
    } else {
      WholeTurn(g.R, n);
    }
  }

  lemma WholeTurn(r: seq<Byte>, n: nat)
    requires |r| == 8 * n
    ensures Turned(r, n) == r && Turned(r, 0) == r
  {
  }

  lemma ShiftStep(c: Cipher, n: nat, g: Registers, i: nat, h: Registers, t: nat)
    requires Sized(g, n) && i < n && t < 0x1_0000 && h.A == g.A && h.R == Turned(g.R, i)
    ensures |h.A| == 8 && |h.R| >= 8
    ensures var b := c.E(h.A + h.R[..8]);
      && Taken(b[..8], t) == StepWide(c, n, g, i, t).A
      && h.R[8..] + b[8..] == Turned(StepWide(c, n, g, i, t).R, i + 1)
  {
    hide Taken, CountWide;
    assert h.R[..8] == g.R[8 * i..8 * i + 8];
    var b := c.E(h.A + h.R[..8]);
    TakenIsCount(b[..8], t);
    TurnedPut(g.R, i, b[8..]);
  }

  lemma TurnedPut(r: seq<Byte>, i: nat, b: seq<Byte>)
    requires 8 * i + 8 <= |r| && |b| == 8
    ensures Turned(r, i)[8..] + b == Turned(Put(r, i, b), i + 1)
  {
  }

  /** aes_wrap gives the 6n-th registers of the standard, from A6..A6 and the key, for every cipher exactly up to 42
      blocks. */
  lemma WrapIsStandard(kl: nat, x: seq<Byte>)
    requires ValidKeyLength(kl) && 0 < |x| <= MAX_WRAP_LEN && |x| % 8 == 0
    ensures (forall c: Cipher :: Wrap(c, kl, x) == Standard(c, x)) <==> |x| / 8 <= 42
  {
    hide Wrapped, WrappedWide, Shifted, Number, Standard, Wrap;
    var n := |x| / 8;
    var g := Registers([0xa6, 0xa6, 0xa6, 0xa6, 0xa6, 0xa6, 0xa6, 0xa6], x);
    assert g.A == IV();
    StandardUpTo42(n, g);
    if n <= 42 {
      forall c: Cipher
        ensures Wrap(c, kl, x) == Standard(c, x)
      {
        BothForms(c, kl, x, g);
      }
    } else {
      var c: Cipher :| Wrapped(c, n, g, 6, 0) != WrappedWide(c, n, g, 6, 0);
      BothForms(c, kl, x, g);
    }
  }

  lemma BothForms(c: Cipher, kl: nat, x: seq<Byte>, g: Registers)
    requires ValidKeyLength(kl) && 0 < |x| <= MAX_WRAP_LEN && |x| % 8 == 0 && g == Registers(IV(), x)
    requires IV() == [0xa6, 0xa6, 0xa6, 0xa6, 0xa6, 0xa6, 0xa6, 0xa6]
    ensures Sized(g, |x| / 8) && Number(|x| / 8, 6, 0) == 6 * (|x| / 8)
    ensures Wrap(c, kl, x) == Standard(c, x) <==> Wrapped(c, |x| / 8, g, 6, 0) == WrappedWide(c, |x| / 8, g, 6, 0)
  {
    hide Wrapped, WrappedWide, Shifted, Number, IV;
    var n := |x| / 8;
    NextNumber(n, 6, 0);
    ShiftingForm(c, n, g, 6, 0);
    WholeTurn(WrappedWide(c, n, g, 6, 0).R, n);
    SameRegisters(Wrapped(c, n, g, 6, 0), WrappedWide(c, n, g, 6, 0));
  }

  function Standard(c: Cipher, x: seq<Byte>): (out: Option<seq<Byte>>)
    requires |x| >= 8
  {
    var g := Shifted(c, Registers([0xa6, 0xa6, 0xa6, 0xa6, 0xa6, 0xa6, 0xa6, 0xa6], x), 6 * (|x| / 8));
    Some(g.A + g.R)
  }

  lemma SameRegisters(g: Registers, h: Registers)
    requires |g.A| == 8 && |h.A| == 8
    ensures g.A + g.R == h.A + h.R <==> g == h
  {
    assert (g.A + g.R)[..8] == g.A && (g.A + g.R)[8..] == g.R;
    assert (h.A + h.R)[..8] == h.A && (h.A + h.R)[8..] == h.R;
  }

  // The example of section 4.1: the outputs of the twelve steps, and the registers after each.

  const B1: Block := [0xf4, 0x74, 0x00, 0x52, 0xe8, 0x2a, 0x22, 0x51] + [0x74, 0xce, 0x86, 0xfb, 0xd7, 0xb8, 0x05, 0xe7]
  const B2: Block := [0x06, 0xba, 0x4e, 0xbd, 0xe7, 0x76, 0x8d, 0x0b] + [0xd1, 0x32, 0xee, 0x38, 0x14, 0x7e, 0x76, 0xf8]
  const B3: Block := [0xfc, 0x96, 0x76, 0x27, 0xbe, 0x93, 0x72, 0x08] + [0xfe, 0x6e, 0x8d, 0x67, 0x9c, 0x5d, 0x34, 0x60]
  const B4: Block := [0x58, 0x96, 0xea, 0x90, 0x28, 0xee, 0x20, 0x3b] + [0x07, 0xb2, 0xbd, 0x97, 0x3e, 0x36, 0xa6, 0xfc]
  const B5: Block := [0x93, 0xae, 0xa7, 0x1b, 0x25, 0x8d, 0x90, 0xc3] + [0x25, 0xf5, 0xa3, 0xad, 0xc2, 0x19, 0x54, 0x01]
  const B6: Block := [0xe3, 0xee, 0x98, 0x63, 0x44, 0xd8, 0x78, 0xf7] + [0xf1, 0x48, 0x63, 0xbb, 0x1e, 0x9c, 0xa9, 0x0a]
  const B7: Block := [0x2b, 0xfc, 0x21, 0xb2, 0xc2, 0x0e, 0x40, 0x06] + [0xb5, 0x56, 0xd3, 0x5e, 0xd8, 0xce, 0xf0, 0x52]
  const B8: Block := [0x4b, 0xe8, 0xce, 0x99, 0xc0, 0xa4, 0x3a, 0x7d] + [0x64, 0xba, 0xe5, 0x81, 0x8d, 0x05, 0x70, 0xbb]
  const B9: Block := [0xeb, 0xe1, 0xce, 0x91, 0x06, 0x70, 0x24, 0xf3] + [0xbe, 0x11, 0x4b, 0x34, 0x3e, 0xb0, 0x09, 0x81]
  const B10: Block := [0x5a, 0x9c, 0x7b, 0x1f, 0x5b, 0x1c, 0x3b, 0x46] + [0x4f, 0xd3, 0xd2, 0xb7, 0xd7, 0x4f, 0xbb, 0x42]
  const B11: Block := [0x93, 0xb7, 0x19, 0x67, 0xee, 0xd4, 0x1f, 0xfc] + [0xae, 0xf3, 0x4b, 0xd8, 0xfb, 0x5a, 0x7b, 0x82]
  const B12: Block := [0x1f, 0xa6, 0x8b, 0x0a, 0x81, 0x12, 0xb4, 0x4b] + [0x9d, 0x3e, 0x86, 0x23, 0x71, 0xd2, 0xcf, 0xe5]

  const G0 := Registers(
    [0xa6, 0xa6, 0xa6, 0xa6, 0xa6, 0xa6, 0xa6, 0xa6],
    [0x00, 0x11, 0x22, 0x33, 0x44, 0x55, 0x66, 0x77] + [0x88, 0x99, 0xaa, 0xbb, 0xcc, 0xdd, 0xee, 0xff])
  const G1 := Registers(
    [0xf4, 0x74, 0x00, 0x52, 0xe8, 0x2a, 0x22, 0x50],
    [0x74, 0xce, 0x86, 0xfb, 0xd7, 0xb8, 0x05, 0xe7] + [0x88, 0x99, 0xaa, 0xbb, 0xcc, 0xdd, 0xee, 0xff])
  const G2 := Registers(
    [0x06, 0xba, 0x4e, 0xbd, 0xe7, 0x76, 0x8d, 0x09],
    [0x74, 0xce, 0x86, 0xfb, 0xd7, 0xb8, 0x05, 0xe7] + [0xd1, 0x32, 0xee, 0x38, 0x14, 0x7e, 0x76, 0xf8])
  const G3 := Registers(
    [0xfc, 0x96, 0x76, 0x27, 0xbe, 0x93, 0x72, 0x0b],
    [0xfe, 0x6e, 0x8d, 0x67, 0x9c, 0x5d, 0x34, 0x60] + [0xd1, 0x32, 0xee, 0x38, 0x14, 0x7e, 0x76, 0xf8])
  const G4 := Registers(
    [0x58, 0x96, 0xea, 0x90, 0x28, 0xee, 0x20, 0x3f],
    [0xfe, 0x6e, 0x8d, 0x67, 0x9c, 0x5d, 0x34, 0x60] + [0x07, 0xb2, 0xbd, 0x97, 0x3e, 0x36, 0xa6, 0xfc])
  const G5 := Registers(
    [0x93, 0xae, 0xa7, 0x1b, 0x25, 0x8d, 0x90, 0xc6],
    [0x25, 0xf5, 0xa3, 0xad, 0xc2, 0x19, 0x54, 0x01] + [0x07, 0xb2, 0xbd, 0x97, 0x3e, 0x36, 0xa6, 0xfc])
  const G6 := Registers(
    [0xe3, 0xee, 0x98, 0x63, 0x44, 0xd8, 0x78, 0xf1],
    [0x25, 0xf5, 0xa3, 0xad, 0xc2, 0x19, 0x54, 0x01] + [0xf1, 0x48, 0x63, 0xbb, 0x1e, 0x9c, 0xa9, 0x0a])
  const G7 := Registers(
    [0x2b, 0xfc, 0x21, 0xb2, 0xc2, 0x0e, 0x40, 0x01],
    [0xb5, 0x56, 0xd3, 0x5e, 0xd8, 0xce, 0xf0, 0x52] + [0xf1, 0x48, 0x63, 0xbb, 0x1e, 0x9c, 0xa9, 0x0a])
  const G8 := Registers(
    [0x4b, 0xe8, 0xce, 0x99, 0xc0, 0xa4, 0x3a, 0x75],
    [0xb5, 0x56, 0xd3, 0x5e, 0xd8, 0xce, 0xf0, 0x52] + [0x64, 0xba, 0xe5, 0x81, 0x8d, 0x05, 0x70, 0xbb])
  const G9 := Registers(
    [0xeb, 0xe1, 0xce, 0x91, 0x06, 0x70, 0x24, 0xfa],
    [0xbe, 0x11, 0x4b, 0x34, 0x3e, 0xb0, 0x09, 0x81] + [0x64, 0xba, 0xe5, 0x81, 0x8d, 0x05, 0x70, 0xbb])
  const G10 := Registers(
    [0x5a, 0x9c, 0x7b, 0x1f, 0x5b, 0x1c, 0x3b, 0x4c],
    [0xbe, 0x11, 0x4b, 0x34, 0x3e, 0xb0, 0x09, 0x81] + [0x4f, 0xd3, 0xd2, 0xb7, 0xd7, 0x4f, 0xbb, 0x42])
  const G11 := Registers(
    [0x93, 0xb7, 0x19, 0x67, 0xee, 0xd4, 0x1f, 0xf7],
    [0xae, 0xf3, 0x4b, 0xd8, 0xfb, 0x5a, 0x7b, 0x82] + [0x4f, 0xd3, 0xd2, 0xb7, 0xd7, 0x4f, 0xbb, 0x42])
  const G12 := Registers(
    [0x1f, 0xa6, 0x8b, 0x0a, 0x81, 0x12, 0xb4, 0x47],
    [0xae, 0xf3, 0x4b, 0xd8, 0xfb, 0x5a, 0x7b, 0x82] + [0x9d, 0x3e, 0x86, 0x23, 0x71, 0xd2, 0xcf, 0xe5])

  const CIPHERTEXT: seq<Byte> := [
    0x1f, 0xa6, 0x8b, 0x0a, 0x81, 0x12, 0xb4, 0x47, 0xae, 0xf3, 0x4b, 0xd8, 0xfb, 0x5a, 0x7b, 0x82, 0x9d, 0x3e, 0x86, 0x23, 0x71, 0xd2, 0xcf, 0xe5]

  ghost predicate Gives(c: Cipher, g: Registers, i: nat, b: Block)
  {
    Sized(g, 2) && i < 2 && c.E(g.A + g.R[8 * i..8 * i + 8]) == b
  }

  /** The cipher of the example. */
  ghost predicate ExampleCipher(c: Cipher)
  {
    && Gives(c, G0, 0, B1)
    && Gives(c, G1, 1, B2)
    && Gives(c, G2, 0, B3)
    && Gives(c, G3, 1, B4)
    && Gives(c, G4, 0, B5)
    && Gives(c, G5, 1, B6)
    && Gives(c, G6, 0, B7)
    && Gives(c, G7, 1, B8)
    && Gives(c, G8, 0, B9)
    && Gives(c, G9, 1, B10)
    && Gives(c, G10, 0, B11)
    && Gives(c, G11, 1, B12)
  }

  /** What a step makes of the registers and the cipher's output. */
  function Next(g: Registers, i: nat, t: nat, b: Block): (r: Registers)
    requires Sized(g, 2) && i < 2
  {
    Registers(Count(b[..8], t), Put(g.R, i, b[8..]))
  }

  lemma ExampleWrap(c: Cipher)
    requires ExampleCipher(c)
    ensures Wrap(c, 16, G0.R) == Some(CIPHERTEXT)
  {
    hide Wrapped, Step, Gives, Next, Count, Put, CIPHERTEXT;
    hide G0, G1, G2, G3, G4, G5, G6, G7, G8, G9, G10, G11, G12;
    hide B1, B2, B3, B4, B5, B6, B7, B8, B9, B10, B11, B12;
    ExampleEnds();
    ExampleSteps1(); ExampleSteps2(); ExampleSteps3();
    Start(c, 2, G0);
    OnePass(c, 0, G0, G0, B1, G1, B2, G2);
    OnePass(c, 1, G0, G2, B3, G3, B4, G4);
    OnePass(c, 2, G0, G4, B5, G5, B6, G6);
    OnePass(c, 3, G0, G6, B7, G7, B8, G8);
    OnePass(c, 4, G0, G8, B9, G9, B10, G10);
    OnePass(c, 5, G0, G10, B11, G11, B12, G12);
  }

  lemma ExampleEnds()
    ensures G0.A == IV() && Sized(G0, 2) && G12.A + G12.R == CIPHERTEXT
  {
  }

  lemma OnePass(c: Cipher, j: nat, g0: Registers, g: Registers, b: Block, h: Registers, d: Block, k: Registers)
    requires Sized(g0, 2) && Wrapped(c, 2, g0, j, 0) == g && Gives(c, g, 0, b) && Next(g, 0, 2 * j + 1, b) == h
    requires Sized(h, 2) && Gives(c, h, 1, d) && Next(h, 1, 2 * j + 2, d) == k
    ensures Wrapped(c, 2, g0, j + 1, 0) == k
  {
    hide Wrapped, Put, Count;
    OneStep(c, 2, g0, j, 0);
    OneStep(c, 2, g0, j, 1);
    NextPass(c, 2, g0, j);
  }

  lemma Halves(r: seq<Byte>, b: seq<Byte>)
    requires |r| == 16 && |b| == 8
    ensures Put(r, 0, b) == b + r[8..] && Put(r, 1, b) == r[..8] + b
  {
  }

  lemma ExampleSteps1()
    ensures Sized(G0, 2) && Next(G0, 0, 1, B1) == G1
    ensures Sized(G1, 2) && Next(G1, 1, 2, B2) == G2
    ensures Sized(G2, 2) && Next(G2, 0, 3, B3) == G3
    ensures Sized(G3, 2) && Next(G3, 1, 4, B4) == G4
  {
    hide Put;
    Halves(G0.R, B1[8..]);
    Halves(G1.R, B2[8..]);
    Halves(G2.R, B3[8..]);
    Halves(G3.R, B4[8..]);
  }

  lemma ExampleSteps2()
    ensures Sized(G4, 2) && Next(G4, 0, 5, B5) == G5
    ensures Sized(G5, 2) && Next(G5, 1, 6, B6) == G6
    ensures Sized(G6, 2) && Next(G6, 0, 7, B7) == G7
    ensures Sized(G7, 2) && Next(G7, 1, 8, B8) == G8
  {
    hide Put;
    Halves(G4.R, B5[8..]);
    Halves(G5.R, B6[8..]);
    Halves(G6.R, B7[8..]);
    Halves(G7.R, B8[8..]);
  }

  lemma ExampleSteps3()
    ensures Sized(G8, 2) && Next(G8, 0, 9, B9) == G9
    ensures Sized(G9, 2) && Next(G9, 1, 10, B10) == G10
    ensures Sized(G10, 2) && Next(G10, 0, 11, B11) == G11
    ensures Sized(G11, 2) && Next(G11, 1, 12, B12) == G12
  {
    hide Put;
    Halves(G8.R, B9[8..]);
    Halves(G9.R, B10[8..]);
    Halves(G10.R, B11[8..]);
    Halves(G11.R, B12[8..]);
  }
}
