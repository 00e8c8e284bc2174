/** The two SHA-256 block loops of sha256.c against the textbook block function of section 6.2.2 of FIPS 180-4. */
module Sha256 {
  import opened ByteBuffers
  import opened Md32

  type U32 = bv32

  /** Addition modulo 2^32. */
  function Plus(x: U32, y: U32): (r: U32) { x + y }

  lemma PlusComm(x: U32, y: U32)
    ensures Plus(x, y) == Plus(y, x)
  {
  }

  lemma PlusAssoc(x: U32, y: U32, z: U32)
    ensures Plus(Plus(x, y), z) == Plus(x, Plus(y, z))
  {
    AddAssoc(x, y, z);
    assert Plus(x, y) == x + y && Plus(y, z) == y + z;
  }

  lemma AddAssoc(x: U32, y: U32, z: U32)
    ensures (x + y) + z == x + (y + z)
  {
  }

  // The bit functions; ROTATE turns left.

  function Rotate(a: U32, n: bv32): (r: U32)
    requires 0 < n < 32
  {
    (a << n) | (a >> (32 - n))
  }

  function Sigma0(x: U32): (r: U32) { Rotate(x, 30) ^ Rotate(x, 19) ^ Rotate(x, 10) }
  function Sigma1(x: U32): (r: U32) { Rotate(x, 26) ^ Rotate(x, 21) ^ Rotate(x, 7) }
  function LowSigma0(x: U32): (r: U32) { Rotate(x, 25) ^ Rotate(x, 14) ^ (x >> 3) }
  function LowSigma1(x: U32): (r: U32) { Rotate(x, 15) ^ Rotate(x, 13) ^ (x >> 10) }
  function Ch(x: U32, y: U32, z: U32): (r: U32) { (x & y) ^ (!x & z) }
  function Maj(x: U32, y: U32, z: U32): (r: U32) { (x & y) ^ (x & z) ^ (y & z) }

  const K256: seq<U32> :=
    [0x428a2f98, 0x71374491, 0xb5c0fbcf, 0xe9b5dba5, 0x3956c25b, 0x59f111f1, 0x923f82a4, 0xab1c5ed5] +
    [0xd807aa98, 0x12835b01, 0x243185be, 0x550c7dc3, 0x72be5d74, 0x80deb1fe, 0x9bdc06a7, 0xc19bf174] +
    [0xe49b69c1, 0xefbe4786, 0x0fc19dc6, 0x240ca1cc, 0x2de92c6f, 0x4a7484aa, 0x5cb0a9dc, 0x76f988da] +
    [0x983e5152, 0xa831c66d, 0xb00327c8, 0xbf597fc7, 0xc6e00bf3, 0xd5a79147, 0x06ca6351, 0x14292967] +
    [0x27b70a85, 0x2e1b2138, 0x4d2c6dfc, 0x53380d13, 0x650a7354, 0x766a0abb, 0x81c2c92e, 0x92722c85] +
    [0xa2bfe8a1, 0xa81a664b, 0xc24b8b70, 0xc76c51a3, 0xd192e819, 0xd6990624, 0xf40e3585, 0x106aa070] +
    [0x19a4c116, 0x1e376c08, 0x2748774c, 0x34b0bcb5, 0x391c0cb3, 0x4ed8aa4a, 0x5b9cca4f, 0x682e6ff3] +
    [0x748f82ee, 0x78a5636f, 0x84c87814, 0x8cc70208, 0x90befffa, 0xa4506ceb, 0xbef9a3f7, 0xc67178f2]

  lemma KLength()
    ensures |K256| == 64
  {
  }

  /** The eight working variables, and the chaining value. */
  datatype Regs = Regs(a: U32, b: U32, c: U32, d: U32, e: U32, f: U32, g: U32, h: U32)

  // The textbook function.

  /** Word t of the message schedule. */
  function Schedule(m: seq<U32>, t: nat): (w: U32)
    requires |m| == 16
  {
    if t < 16 then m[t]
    else Plus(Plus(Plus(LowSigma1(Schedule(m, t - 2)), Schedule(m, t - 7)), LowSigma0(Schedule(m, t - 15))), Schedule(m, t - 16))
  }

  /** h + Sigma1(e) + Ch(e, f, g) + K, to which the word is added. */
  function RoundConstant(r: Regs, k: U32): (x: U32)
  {
    Plus(Plus(Plus(r.h, Sigma1(r.e)), Ch(r.e, r.f, r.g)), k)
  }

  function Step(r: Regs, k: U32, w: U32): (s: Regs)
  {
    var t1 := Plus(RoundConstant(r, k), w);
    var t2 := Plus(Sigma0(r.a), Maj(r.a, r.b, r.c));
    Regs(Plus(t1, t2), r.a, r.b, r.c, Plus(r.d, t1), r.e, r.f, r.g)
  }

  /** The working variables after t rounds. */
  function Rounds(h: Regs, m: seq<U32>, t: nat): (r: Regs)
    requires |m| == 16 && t <= 64
  {
    KLength();
    if t == 0 then h else Step(Rounds(h, m, t - 1), K256[t - 1], Schedule(m, t - 1))
  }

  function AddRegs(h: Regs, r: Regs): (s: Regs)
  {
    Regs(Plus(h.a, r.a), Plus(h.b, r.b), Plus(h.c, r.c), Plus(h.d, r.d),
         Plus(h.e, r.e), Plus(h.f, r.f), Plus(h.g, r.g), Plus(h.h, r.h))
  }

  function Compress(h: Regs, m: seq<U32>): (r: Regs)
    requires |m| == 16
  {
    AddRegs(h, Rounds(h, m, 64))
  }

  // The 16-word ring.

  /** Before round i the ring holds the last sixteen schedule words. */
  ghost predicate Ring(x: seq<U32>, m: seq<U32>, i: nat)
  {
    && |x| == 16 && |m| == 16
    && forall t :: 0 <= t < i && t + 16 >= i ==> x[t % 16] == Schedule(m, t)
  }

  /** X[i] = W[i] */
  method Load(X: array<U32>, i: nat, m: seq<U32>) returns (t1: U32)
    requires i < 16 && Ring(X[..], m, i)
    modifies X
    ensures Ring(X[..], m, i + 1) && t1 == Schedule(m, i)
  {
    ghost var x := X[..];
    X[i] := m[i];
    t1 := X[i];
    assert X[..] == x[i := m[i]];
    RingNext(x, m, i, m[i]);
  }

  lemma RingNext(x: seq<U32>, m: seq<U32>, i: nat, w: U32)
    requires Ring(x, m, i) && w == Schedule(m, i)
    ensures Ring(x[i % 16 := w], m, i + 1)
  {
    forall t | 0 <= t < i + 1 && t + 16 >= i + 1
      ensures x[i % 16 := w][t % 16] == Schedule(m, t)
    {
      if t < i { OtherPlace(t, i); }
    }
  }

  lemma OtherPlace(t: nat, i: nat)
    requires t < i <= t + 15
    ensures t % 16 != i % 16
  {
  }

  /** X[i & 15] += sigma0(X[(i+1) & 15]) + sigma1(X[(i+14) & 15]) + X[(i+9) & 15] is the next schedule word. */
  method Extend(X: array<U32>, i: nat, ghost m: seq<U32>) returns (t1: U32)
    requires 16 <= i && Ring(X[..], m, i)
    modifies X
    ensures Ring(X[..], m, i + 1) && t1 == Schedule(m, i)
  {
    hide LowSigma0, LowSigma1, Plus;
    ghost var x := X[..];
    var s0 := LowSigma0(X[(i + 1) % 16]);
    var s1 := LowSigma1(X[(i + 14) % 16]);
    Places(i);
    assert x[(i + 1) % 16] == Schedule(m, i - 15) && x[(i + 14) % 16] == Schedule(m, i - 2);
    assert x[(i + 9) % 16] == Schedule(m, i - 7) && x[i % 16] == Schedule(m, i - 16);
    t1 := Plus(X[i % 16], Plus(Plus(s0, s1), X[(i + 9) % 16]));
    SumOrder(X[i % 16], s0, s1, X[(i + 9) % 16]);
    X[i % 16] := t1;
    assert X[..] == x[i % 16 := t1];
    RingNext(x, m, i, t1);
  }

  lemma Places(i: nat)
    requires i >= 16
    ensures (i + 1) % 16 == (i - 15) % 16 && (i + 14) % 16 == (i - 2) % 16
    ensures (i + 9) % 16 == (i - 7) % 16 && i % 16 == (i - 16) % 16
  {
  }

  lemma SumOrder(x: U32, s0: U32, s1: U32, y: U32)
    ensures Plus(x, Plus(Plus(s0, s1), y)) == Plus(Plus(Plus(s1, y), s0), x)
  {
    hide Plus;
    PlusComm(x, Plus(Plus(s0, s1), y));
    PlusComm(s0, s1); PlusAssoc(s1, s0, y); PlusComm(s0, y); PlusAssoc(s1, y, s0);
  }

  /** ROUND_00_15: only d and h change; the next round renames the variables instead of moving them. */
  method Round(t: U32, a: U32, b: U32, c: U32, d: U32, e: U32, f: U32, g: U32, h: U32, i: nat) returns (d': U32, h': U32)
    requires i < |K256|
    ensures Regs(h', a, b, c, d', e, f, g) == Step(Regs(a, b, c, d, e, f, g, h), K256[i], t)
  {
    hide Sigma0, Sigma1, Ch, Maj, Plus;
    var x := RoundConstant(Regs(a, b, c, d, e, f, g, h), K256[i]);
    var t1 := Plus(t, x);
    PlusComm(t, x);
    h' := Plus(Sigma0(a), Maj(a, b, c));
    d' := Plus(d, t1);
    PlusComm(h', t1);
    h' := Plus(h', t1);
  }

  lemma NextRound(h0: Regs, m: seq<U32>, i: nat, r: Regs)
    requires |m| == 16 && i < 64 && r == Rounds(h0, m, i)
    ensures |K256| == 64 && Rounds(h0, m, i + 1) == Step(r, K256[i], Schedule(m, i))
  {
  }

  /** The unrolled loop: eight rounds with renamed variables bring every variable back to its own name. */
  method BlockUnrolled(h0: Regs, w: seq<U32>) returns (r: Regs)
    requires |w| == 16
    ensures r == Compress(h0, w)
  {
    hide Step, Rounds, Schedule, AddRegs, K256, Ring;
    var X := new U32[16](_ => 0);
    var a, b, c, d, e, f, g, h := FirstRounds(h0, w, X);
    var i := 16;
    while i < 64
      invariant 16 <= i <= 64 && i % 8 == 0 && Ring(X[..], w, i)
      invariant Regs(a, b, c, d, e, f, g, h) == Rounds(h0, w, i)
    {
      a, b, c, d, e, f, g, h := EightRounds(h0, w, X, i, a, b, c, d, e, f, g, h);
      i := i + 8;
    }
    r := AddRegs(h0, Regs(a, b, c, d, e, f, g, h));
  }

  /** The body of the unrolled loop. */
  method EightRounds(ghost h0: Regs, ghost w: seq<U32>, X: array<U32>, i: nat,
                     a0: U32, b0: U32, c0: U32, d0: U32, e0: U32, f0: U32, g0: U32, hh: U32)
    returns (a: U32, b: U32, c: U32, d: U32, e: U32, f: U32, g: U32, h: U32)
    requires |w| == 16 && 16 <= i <= 56 && Ring(X[..], w, i)
    requires Regs(a0, b0, c0, d0, e0, f0, g0, hh) == Rounds(h0, w, i)
    modifies X
    ensures Ring(X[..], w, i + 8) && Regs(a, b, c, d, e, f, g, h) == Rounds(h0, w, i + 8)
  {
    hide Step, Rounds, Schedule, K256, Ring;
    a, b, c, d, e, f, g, h := a0, b0, c0, d0, e0, f0, g0, hh;
    var t1: U32;
    t1 := Extend(X, i + 0, w);
    NextRound(h0, w, i + 0, Regs(a, b, c, d, e, f, g, h));
    d, h := Round(t1, a, b, c, d, e, f, g, h, i + 0);
    t1 := Extend(X, i + 1, w);
    NextRound(h0, w, i + 1, Regs(h, a, b, c, d, e, f, g));
    c, g := Round(t1, h, a, b, c, d, e, f, g, i + 1);
    t1 := Extend(X, i + 2, w);
    NextRound(h0, w, i + 2, Regs(g, h, a, b, c, d, e, f));
    b, f := Round(t1, g, h, a, b, c, d, e, f, i + 2);
    t1 := Extend(X, i + 3, w);
    NextRound(h0, w, i + 3, Regs(f, g, h, a, b, c, d, e));
    a, e := Round(t1, f, g, h, a, b, c, d, e, i + 3);
    t1 := Extend(X, i + 4, w);
    NextRound(h0, w, i + 4, Regs(e, f, g, h, a, b, c, d));
    h, d := Round(t1, e, f, g, h, a, b, c, d, i + 4);
    t1 := Extend(X, i + 5, w);
    NextRound(h0, w, i + 5, Regs(d, e, f, g, h, a, b, c));
    g, c := Round(t1, d, e, f, g, h, a, b, c, i + 5);
    t1 := Extend(X, i + 6, w);
    NextRound(h0, w, i + 6, Regs(c, d, e, f, g, h, a, b));
    f, b := Round(t1, c, d, e, f, g, h, a, b, i + 6);
    t1 := Extend(X, i + 7, w);
    NextRound(h0, w, i + 7, Regs(b, c, d, e, f, g, h, a));
    e, a := Round(t1, b, c, d, e, f, g, h, a, i + 7);
  }

  /** The sixteen rounds that take the message words. */
  method FirstRounds(h0: Regs, w: seq<U32>, X: array<U32>)
    returns (a: U32, b: U32, c: U32, d: U32, e: U32, f: U32, g: U32, h: U32)
    requires |w| == 16 && X.Length == 16
    modifies X
    ensures Ring(X[..], w, 16) && Regs(a, b, c, d, e, f, g, h) == Rounds(h0, w, 16)
  {
    hide Step, Rounds, Schedule, K256, Ring;
    Start(h0, w, X[..]);
    a, b, c, d, e, f, g, h := EightFirst(h0, w, X, 0, h0.a, h0.b, h0.c, h0.d, h0.e, h0.f, h0.g, h0.h);
    a, b, c, d, e, f, g, h := EightFirst(h0, w, X, 8, a, b, c, d, e, f, g, h);
  }

  /** Eight of them. */
  method EightFirst(ghost h0: Regs, w: seq<U32>, X: array<U32>, i: nat,
                    a0: U32, b0: U32, c0: U32, d0: U32, e0: U32, f0: U32, g0: U32, hh: U32)
    returns (a: U32, b: U32, c: U32, d: U32, e: U32, f: U32, g: U32, h: U32)
    requires |w| == 16 && i <= 8 && Ring(X[..], w, i)
    requires Regs(a0, b0, c0, d0, e0, f0, g0, hh) == Rounds(h0, w, i)
    modifies X
    ensures Ring(X[..], w, i + 8) && Regs(a, b, c, d, e, f, g, h) == Rounds(h0, w, i + 8)
  {
    hide Step, Rounds, Schedule, K256, Ring;
    a, b, c, d, e, f, g, h := a0, b0, c0, d0, e0, f0, g0, hh;
    var t1: U32;
    t1 := Load(X, i + 0, w);
    NextRound(h0, w, i + 0, Regs(a, b, c, d, e, f, g, h));
    d, h := Round(t1, a, b, c, d, e, f, g, h, i + 0);
    t1 := Load(X, i + 1, w);
    NextRound(h0, w, i + 1, Regs(h, a, b, c, d, e, f, g));
    c, g := Round(t1, h, a, b, c, d, e, f, g, i + 1);
    t1 := Load(X, i + 2, w);
    NextRound(h0, w, i + 2, Regs(g, h, a, b, c, d, e, f));
    b, f := Round(t1, g, h, a, b, c, d, e, f, i + 2);
    t1 := Load(X, i + 3, w);
    NextRound(h0, w, i + 3, Regs(f, g, h, a, b, c, d, e));
    a, e := Round(t1, f, g, h, a, b, c, d, e, i + 3);
    t1 := Load(X, i + 4, w);
    NextRound(h0, w, i + 4, Regs(e, f, g, h, a, b, c, d));
    h, d := Round(t1, e, f, g, h, a, b, c, d, i + 4);
    t1 := Load(X, i + 5, w);
    NextRound(h0, w, i + 5, Regs(d, e, f, g, h, a, b, c));
    g, c := Round(t1, d, e, f, g, h, a, b, c, i + 5);
    t1 := Load(X, i + 6, w);
    NextRound(h0, w, i + 6, Regs(c, d, e, f, g, h, a, b));
    f, b := Round(t1, c, d, e, f, g, h, a, b, i + 6);
    t1 := Load(X, i + 7, w);
    NextRound(h0, w, i + 7, Regs(b, c, d, e, f, g, h, a));
    e, a := Round(t1, b, c, d, e, f, g, h, a, i + 7);
  }

  lemma Start(h0: Regs, m: seq<U32>, x: seq<U32>)
    requires |m| == 16 && |x| == 16
    ensures Rounds(h0, m, 0) == h0 && Ring(x, m, 0)
  {
  }

  /** The small-footprint loop moves the variables. */
  method BlockSmall(h0: Regs, w: seq<U32>) returns (r: Regs)
    requires |w| == 16
    ensures r == Compress(h0, w)
  {
    hide Step, Rounds, Schedule, AddRegs, K256, Ring;
    var X := new U32[16](_ => 0);
    var s, i := h0, 0;
    Start(h0, w, X[..]);
    while i < 16
      invariant 0 <= i <= 16 && Ring(X[..], w, i) && s == Rounds(h0, w, i)
    {
      NextRound(h0, w, i, s);
      var t := Load(X, i, w);
      s := Move(s, t, i);
      i := i + 1;
    }
    while i < 64
      invariant 16 <= i <= 64 && Ring(X[..], w, i) && s == Rounds(h0, w, i)
    {
      NextRound(h0, w, i, s);
      var t := Extend(X, i, w);
      s := Move(s, t, i);
      i := i + 1;
    }
    r := AddRegs(h0, s);
  }

  /** T1, T2 and the shift of the eight variables. */
  method Move(s: Regs, t: U32, i: nat) returns (r: Regs)
    requires i < |K256|
    ensures r == Step(s, K256[i], t)
  {
    hide Sigma0, Sigma1, Ch, Maj, Plus;
    var a, b, c, d, e, f, g, h := s.a, s.b, s.c, s.d, s.e, s.f, s.g, s.h;
    var x := RoundConstant(s, K256[i]);
    var t1 := Plus(t, x);
    PlusComm(t, x);
    var t2 := Plus(Sigma0(a), Maj(a, b, c));
    h := g; g := f; f := e; e := Plus(d, t1);
    d := c; c := b; b := a; a := Plus(t1, t2);
    r := Regs(a, b, c, d, e, f, g, h);
  }

  // Block sequences, and the instance of the hash collector.

  /** HOST_c2l and HOST_l2c: a word is its four bytes, most significant first. */
  function Value(w: Word): (x: U32)
  {
    ((w.b0 as bv32) << 24) | ((w.b1 as bv32) << 16) | ((w.b2 as bv32) << 8) | (w.b3 as bv32)
  }

  function Split(x: U32): (w: Word)
  {
    Word((x >> 24) as bv8, ((x >> 16) & 0xff) as bv8, ((x >> 8) & 0xff) as bv8, (x & 0xff) as bv8)
  }

  function Values(w: seq<Word>): (m: seq<U32>)
    ensures |m| == 16
  {
    seq(16, i requires 0 <= i < 16 => if i < |w| then Value(w[i]) else 0)
  }

  /** The block function on the collector's words. */
  function BlockOf(h: Regs, w: seq<Word>): (r: Regs)
  {
    Compress(h, Values(w))
  }

  /** sha256_block in either form: num blocks of the input, chained. */
  method Sha256Block(h0: Regs, input: seq<Byte>, num: nat, smallFootprint: bool) returns (h: Regs)
    requires |input| == CBLOCK * num
    ensures h == Fold(BlockOf, h0, input)
  {
    hide Fold, Compress, Values, Words;
    h := h0;
    FoldNothing(BlockOf, h0);
    var k := 0;
    assert input[..0] == [];
    while k < num
      invariant 0 <= k <= num && h == Fold(BlockOf, h0, input[..64 * k])
    {
      var b := input[64 * k..64 * k + 64];
      FoldAppend(BlockOf, h0, input[..64 * k], b);
      FoldOne(BlockOf, h, b);
      assert input[..64 * k] + b == input[..64 * (k + 1)];
      var m := Values(Words(b));
      if smallFootprint {
        h := BlockSmall(h, m);
      } else {
        h := BlockUnrolled(h, m);
      }
      k := k + 1;
    }
    assert input[..64 * k] == input;
  }

  // Digests.

  /** Word n of a chaining value. */
  function Nth(h: Regs, n: nat): (x: U32)
    requires n < 8
  {
    [h.a, h.b, h.c, h.d, h.e, h.f, h.g, h.h][n]
  }

  /** The first n words of a chaining value as bytes, most significant first. */
  function DigestBytes(h: Regs, n: nat): (s: seq<Byte>)
    requires n <= 8
    ensures |s| == 4 * n
  {
    if n == 0 then [] else DigestBytes(h, n - 1) + WordBytes(Split(Nth(h, n - 1)))
  }

  lemma ValueOfWord(x: U32)
    ensures Value(Split(x)) == x
  {
  }

  /** A full digest determines the chaining value. */
  lemma {:induction false} DigestReadBack(h: Regs, h': Regs, n: nat)
    requires n <= 8 && DigestBytes(h, n) == DigestBytes(h', n)
    ensures forall k :: 0 <= k < n ==> Nth(h, k) == Nth(h', k)
  {
    hide Split, Nth;
    if n > 0 {
      var s, t := DigestBytes(h, n), DigestBytes(h', n);
      var l := 4 * (n - 1);
      assert s[..l] == DigestBytes(h, n - 1) && t[..l] == DigestBytes(h', n - 1);
      assert s[l..] == WordBytes(Split(Nth(h, n - 1))) && t[l..] == WordBytes(Split(Nth(h', n - 1)));
      SameBytes(Split(Nth(h, n - 1)), Split(Nth(h', n - 1)));
      ValueOfWord(Nth(h, n - 1));
      ValueOfWord(Nth(h', n - 1));
      DigestReadBack(h, h', n - 1);
    }
  }

  lemma SameBytes(w: Word, w': Word)
    requires WordBytes(w) == WordBytes(w')
    ensures w == w'
  {
    assert WordBytes(w)[0] == w.b0 && WordBytes(w)[1] == w.b1 && WordBytes(w)[2] == w.b2 && WordBytes(w)[3] == w.b3;
  }

  lemma NextWord(before: seq<Byte>, done: seq<Byte>, b: seq<Byte>, after: seq<Byte>)
    requires |done| + 4 <= |before| && |b| == 4
    requires after == (done + before[|done|..])[..|done|] + b + (done + before[|done|..])[|done| + 4..]
    ensures after == done + b + before[|done| + 4..]
  {
  }

  /** HOST_l2c(c->h[n], s) */
  method PutWord(md: array<Byte>, h: Regs, n: nat, ghost before: seq<Byte>)
    requires n < 8 && 4 * n + 4 <= md.Length == |before| && md[..] == DigestBytes(h, n) + before[4 * n..]
    modifies md
    ensures md[..] == DigestBytes(h, n + 1) + before[4 * (n + 1)..]
  {
    hide WordBytes, Split, Nth;
    Copy(md, 4 * n, WordBytes(Split(Nth(h, n))));
    NextWord(before, DigestBytes(h, n), WordBytes(Split(Nth(h, n))), md[..]);
  }

  /** HASH_MAKE_STRING: the whole words of a digest of mdLen bytes; a length of more than 32 is refused. */
  method MakeString(h: Regs, mdLen: nat, md: array<Byte>) returns (ok: bool)
    requires mdLen <= 32 ==> mdLen <= md.Length
    modifies md
    ensures ok <==> mdLen <= 32
    ensures md[..] == if ok then DigestBytes(h, mdLen / 4) + old(md[4 * (mdLen / 4)..]) else old(md[..])
  {
    if mdLen > 32 { return false; }
    ghost var before := md[..];
    var n := 0;
    while n < mdLen / 4
      invariant 0 <= n <= mdLen / 4
      invariant md[..] == DigestBytes(h, n) + before[4 * n..]
    {
      PutWord(md, h, n, before);
      n := n + 1;
    }
    return true;
  }

  /** The start values of SHA256_Init and SHA224_Init. */
  const INITIAL := Regs(0x6a09e667, 0xbb67ae85, 0x3c6ef372, 0xa54ff53a, 0x510e527f, 0x9b05688c, 0x1f83d9ab, 0x5be0cd19)
  const INITIAL224 := Regs(0xc1059ed8, 0x367cd507, 0x3070dd17, 0xf70e5939, 0xffc00b31, 0x68581511, 0x64f98fa7, 0xbefa4fa4)

  /** SHA256_Init or SHA224_Init, any updates, SHA256_Final: the bytes of the chaining value of the padded message. */
  method Hash(parts: seq<seq<Byte>>, short: bool, md: array<Byte>)
    requires md.Length >= if short then 28 else 32
    modifies md
    ensures short ==> md[..28] == DigestBytes(Fold(BlockOf, INITIAL224, Padded(Flatten(parts))), 7)
    ensures !short ==> md[..32] == DigestBytes(Fold(BlockOf, INITIAL, Padded(Flatten(parts))), 8)
  {
    hide Fold, Padded, Flatten, DigestBytes;
    var h := Digest(BlockOf, if short then INITIAL224 else INITIAL, parts);
    var _ := MakeString(h, if short then 28 else 32, md);
  }
}
