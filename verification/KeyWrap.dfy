/** AES key wrap (RFC 3394) over any invertible block cipher. */
module KeyWrap {
  import opened ByteBuffers
  import opened Options

  /** A block cipher under a fixed key. */
  datatype Cipher = Cipher(E: Block -> Block, D: Block -> Block)

  ghost predicate Invertible(c: Cipher)
  {
    (forall b: Block :: c.D(c.E(b)) == b) && (forall b: Block :: c.E(c.D(b)) == b)
  }

  const BLOCK_LEN: nat := 8
  const MAX_WRAP_LEN: nat := 384

  function IV(): (iv: seq<Byte>)
    ensures |iv| == 8
  {
    seq(8, _ => 0xa6)
  }

  /** The registers: A and the n blocks of R, as bytes. */
  datatype Registers = Registers(A: seq<Byte>, R: seq<Byte>)

  ghost predicate Sized(g: Registers, n: nat)
  {
    |g.A| == 8 && |g.R| == 8 * n
  }

  /** A with the step number taken into its last byte; higher bits of the number are lost. */
  function Count(a: seq<Byte>, t: nat): (r: seq<Byte>)
    requires |a| == 8
    ensures |r| == 8
  {
    a[7 := a[7] ^ ((t % 256) as Byte)]
  }

  function Put(r: seq<Byte>, i: nat, b: seq<Byte>): (r': seq<Byte>)
    requires 8 * i + 8 <= |r| && |b| == 8
    ensures |r'| == |r|
  {
    r[..8 * i] + b + r[8 * i + 8..]
  }

  function Step(c: Cipher, n: nat, g: Registers, i: nat, t: nat): (r: Registers)
    requires Sized(g, n) && i < n
    ensures Sized(r, n)
  {
    var b := c.E(g.A + g.R[8 * i..8 * i + 8]);
    Registers(Count(b[..8], t), Put(g.R, i, b[8..]))
  }

  function Unstep(c: Cipher, n: nat, g: Registers, i: nat, t: nat): (r: Registers)
    requires Sized(g, n) && i < n
    ensures Sized(r, n)
  {
    var b := c.D(Count(g.A, t) + g.R[8 * i..8 * i + 8]);
    Registers(b[..8], Put(g.R, i, b[8..]))
  }

  lemma CountTwice(a: seq<Byte>, t: nat)
    requires |a| == 8
    ensures Count(Count(a, t), t) == a
  {
    XorTwice(a[7], (t % 256) as Byte);
  }

  lemma PutAt(r: seq<Byte>, i: nat, b: seq<Byte>)
    requires 8 * i + 8 <= |r| && |b| == 8
    ensures Put(r, i, b)[8 * i..8 * i + 8] == b
    ensures Put(Put(r, i, b), i, r[8 * i..8 * i + 8]) == r
  {
  }

  /** A step and its inverse cancel, in both orders. */
  lemma StepInverse(c: Cipher, n: nat, g: Registers, i: nat, t: nat)
    requires Invertible(c) && Sized(g, n) && i < n
    ensures Unstep(c, n, Step(c, n, g, i, t), i, t) == g
    ensures Step(c, n, Unstep(c, n, g, i, t), i, t) == g
  {
    hide Count, Put;
    var r := g.R[8 * i..8 * i + 8];
    var b: Block := c.E(g.A + r);
    CountTwice(b[..8], t);
    PutAt(g.R, i, b[8..]);
    assert b[..8] + b[8..] == b;
    assert (g.A + r)[..8] == g.A && (g.A + r)[8..] == r;
    var a := Count(g.A, t);
    var d: Block := c.D(a + r);
    CountTwice(g.A, t);
    PutAt(g.R, i, d[8..]);
    assert d[..8] + d[8..] == d;
    assert (a + r)[..8] == a && (a + r)[8..] == r;
  }

  /** The number of the i-th step of pass j, counting from 1. */
  function Number(n: nat, j: nat, i: nat): (t: nat)
  {
    n * j + i
  }

  lemma NextNumber(n: nat, j: nat, i: nat)
    ensures i > 0 ==> Number(n, j, i) == Number(n, j, i - 1) + 1
    ensures j > 0 ==> Number(n, j, 0) == Number(n, j - 1, n)
    ensures Number(n, 0, 0) == 0 && Number(n, 6, 0) == 6 * n
  {
  }

  /** The registers after j passes over the n blocks and i more steps. */
  function Wrapped(c: Cipher, n: nat, g: Registers, j: nat, i: nat): (r: Registers)
    requires Sized(g, n) && i <= n
    ensures Sized(r, n)
    decreases j, i
  {
    if i > 0 then Step(c, n, Wrapped(c, n, g, j, i - 1), i - 1, Number(n, j, i))
    else if j > 0 then Wrapped(c, n, g, j - 1, n)
    else g
  }

  /** Undoing those steps, last first. */
  function Unwrapped(c: Cipher, n: nat, g: Registers, j: nat, i: nat): (r: Registers)
    requires Sized(g, n) && i <= n
    ensures Sized(r, n)
    decreases j, i
  {
    if i > 0 then Unwrapped(c, n, Unstep(c, n, g, i - 1, Number(n, j, i)), j, i - 1)
    else if j > 0 then Unwrapped(c, n, g, j - 1, n)
    else g
  }

  lemma {:induction false} Rewind(c: Cipher, n: nat, g: Registers, j: nat, i: nat)
    requires Invertible(c) && Sized(g, n) && i <= n
    ensures Unwrapped(c, n, Wrapped(c, n, g, j, i), j, i) == g
    ensures Wrapped(c, n, Unwrapped(c, n, g, j, i), j, i) == g
    decreases j, i
  {
    hide Invertible, Step, Unstep;
    if i > 0 {
      Rewind(c, n, g, j, i - 1);
      StepInverse(c, n, Wrapped(c, n, g, j, i - 1), i - 1, Number(n, j, i));
      var h := Unstep(c, n, g, i - 1, Number(n, j, i));
      Rewind(c, n, h, j, i - 1);
      StepInverse(c, n, g, i - 1, Number(n, j, i));
    } else if j > 0 {
      Rewind(c, n, g, j - 1, n);
    }
  }

  predicate ValidKeyLength(kl: nat)
  {
    kl == 16 || kl == 24 || kl == 32
  }

  /** What aes_wrap returns: None is the error status. */
  function Wrap(c: Cipher, kl: nat, input: seq<Byte>): (out: Option<seq<Byte>>)
  {
    if !ValidKeyLength(kl) || |input| > MAX_WRAP_LEN || |input| % BLOCK_LEN != 0 then None
    else var g := Wrapped(c, |input| / 8, Registers(IV(), input), 6, 0); Some(g.A + g.R)
  }

  function Unwrap(c: Cipher, kl: nat, input: seq<Byte>): (out: Option<seq<Byte>>)
    requires input != []
  {
    if !ValidKeyLength(kl) || |input| > MAX_WRAP_LEN + BLOCK_LEN || |input| % BLOCK_LEN != 0 then None
    else
      var g := Unwrapped(c, |input| / 8 - 1, Registers(input[..8], input[8..]), 6, 0);
      if g.A == IV() then Some(g.R) else None
  }

  /** Unwrapping what was wrapped gives it back. */
  lemma UnwrapWrap(c: Cipher, kl: nat, x: seq<Byte>)
    requires Invertible(c) && ValidKeyLength(kl) && |x| <= MAX_WRAP_LEN && |x| % BLOCK_LEN == 0
    ensures Wrap(c, kl, x).Some? && Wrap(c, kl, x).value != []
    ensures Unwrap(c, kl, Wrap(c, kl, x).value) == Some(x)
  {
    hide Invertible, Wrapped, Unwrapped, IV;
    var n, g := |x| / 8, Registers(IV(), x);
    var w := Wrapped(c, n, g, 6, 0);
    Rewind(c, n, g, 6, 0);
    var y := w.A + w.R;
    assert y[..8] == w.A && y[8..] == w.R;
  }

  /** A successful unwrap means that wrapping its output gives its input back. */
  lemma WrapUnwrap(c: Cipher, kl: nat, y: seq<Byte>)
    requires Invertible(c) && y != [] && Unwrap(c, kl, y).Some?
    ensures Wrap(c, kl, Unwrap(c, kl, y).value) == Some(y)
  {
    hide Invertible, Wrapped, Unwrapped, IV;
    var n, g := |y| / 8 - 1, Registers(y[..8], y[8..]);
    Rewind(c, n, g, 6, 0);
    assert y[..8] + y[8..] == y;
  }

  lemma Joined(a: seq<Byte>, r: seq<Byte>, s: seq<Byte>)
    requires |a| == 8 && |r| == 8 && |s| == 16 && s[..8] == a && s[8..] == r
    ensures s == a + r
  {
  }

  lemma CutAt(r: seq<Byte>, n: nat, i: nat)
    requires i < n && 8 * n <= |r|
    ensures r[..8 * n][8 * i..8 * i + 8] == r[8 * i..8 * i + 8]
  {
  }

  function Output(f: Block -> Block, a: seq<Byte>, r: seq<Byte>, i: nat): (b: Block)
    requires |a| == 8 && 8 * i + 8 <= |r|
  {
    f(a + r[8 * i..8 * i + 8])
  }

  /** B := AES(K, A | R[i]) by way of the upper half of A; the register R[i] gets the lower half of B. */
  method Crypt(f: Block -> Block, A: array<Byte>, R: array<Byte>, B: array<Byte>, n: nat, i: nat)
    requires A.Length == 16 && B.Length == 16 && R.Length >= 8 * n && i < n && A != R && A != B && B != R
    modifies A, R, B
    ensures A[..8] == Output(f, old(A[..8]), old(R[..8 * n]), i)[..8]
    ensures R[..8 * n] == Put(old(R[..8 * n]), i, Output(f, old(A[..8]), old(R[..8 * n]), i)[8..])
  {
    ghost var a, r := A[..8], R[..8 * n];
    CutAt(R[..], n, i);
    var half := R[8 * i..8 * i + 8];
    Copy(A, 8, half);
    Joined(a, half, A[..]);
    var out: Block := f(A[..]);
    Copy(B, 0, out);
    assert B[..] == out && B[8..] == out[8..] && B[..8] == out[..8];
    ghost var whole := R[..];
    Copy(R, 8 * i, B[8..]);
    Replaced(whole, R[..], n, i, out[8..]);
    Copy(A, 0, B[..8]);
    assert A[..8] == out[..8];
  }

  lemma Replaced(r: seq<Byte>, r': seq<Byte>, n: nat, i: nat, b: seq<Byte>)
    requires i < n && 8 * n <= |r| && |b| == 8 && r' == r[..8 * i] + b + r[8 * i + 8..]
    ensures r'[..8 * n] == Put(r[..8 * n], i, b)
  {
  }

  /** A[7] ^= t */
  method CountIn(A: array<Byte>, t: nat)
    requires A.Length == 16
    modifies A
    ensures A[..8] == Count(old(A[..8]), t)
  {
    A[7] := A[7] ^ ((t % 256) as Byte);
  }

  /** One step of aes_wrap on the arrays. */
  method WrapStep(c: Cipher, A: array<Byte>, R: array<Byte>, B: array<Byte>, n: nat, i: nat, t: nat)
    requires A.Length == 16 && B.Length == 16 && R.Length >= 8 * n && i < n && A != R && A != B && B != R
    modifies A, R, B
    ensures Regs(A, R, n) == Step(c, n, old(Regs(A, R, n)), i, t)
  {
    hide Put, Count;
    Crypt(c.E, A, R, B, n, i);
    CountIn(A, t);
  }

  /** One step of aes_unwrap. */
  method UnwrapStep(c: Cipher, A: array<Byte>, R: array<Byte>, B: array<Byte>, n: nat, i: nat, t: nat)
    requires A.Length == 16 && B.Length == 16 && R.Length >= 8 * n && i < n && A != R && A != B && B != R
    modifies A, R, B
    ensures Regs(A, R, n) == Unstep(c, n, old(Regs(A, R, n)), i, t)
  {
    hide Put, Count;
    CountIn(A, t);
    Crypt(c.D, A, R, B, n, i);
  }

  lemma NextPass(c: Cipher, n: nat, g: Registers, j: nat)
    requires Sized(g, n)
    ensures Wrapped(c, n, g, j + 1, 0) == Wrapped(c, n, g, j, n)
    ensures Unwrapped(c, n, g, j + 1, 0) == Unwrapped(c, n, g, j, n)
  {
  }

  lemma Start(c: Cipher, n: nat, g: Registers)
    requires Sized(g, n)
    ensures Wrapped(c, n, g, 0, 0) == g && Unwrapped(c, n, g, 0, 0) == g
  {
  }

  lemma OneStep(c: Cipher, n: nat, g: Registers, j: nat, i: nat)
    requires Sized(g, n) && i < n
    ensures Wrapped(c, n, g, j, i + 1) == Step(c, n, Wrapped(c, n, g, j, i), i, Number(n, j, i + 1))
    ensures Unwrapped(c, n, g, j, i + 1) == Unwrapped(c, n, Unstep(c, n, g, i, Number(n, j, i + 1)), j, i)
  {
  }

  method Buffers(len: nat) returns (A: array<Byte>, R: array<Byte>, B: array<Byte>)
    ensures fresh(A) && fresh(R) && fresh(B) && A != R && A != B && R != B
    ensures A.Length == 16 && B.Length == 16 && R.Length == len
  {
    A := new Byte[16](_ => 0);
    R := new Byte[len](_ => 0);
    B := new Byte[16](_ => 0);
  }

  /** The registers in the arrays. */
  ghost function Regs(A: array<Byte>, R: array<Byte>, n: nat): (g: Registers)
    requires A.Length >= 8 && R.Length >= 8 * n
    reads A, R
    ensures Sized(g, n)
  {
    Registers(A[..8], R[..8 * n])
  }

  /** The six passes of aes_wrap. */
  method WrapPasses(c: Cipher, A: array<Byte>, R: array<Byte>, B: array<Byte>, n: nat)
    requires A.Length == 16 && B.Length == 16 && R.Length >= 8 * n && A != R && A != B && B != R
    modifies A, R, B
    ensures Regs(A, R, n) == Wrapped(c, n, old(Regs(A, R, n)), 6, 0)
  {
    hide Wrapped, Step, Number, Regs;
    ghost var g := Regs(A, R, n);
    Start(c, n, g);
    var j := 0;
    while j < 6
      invariant 0 <= j <= 6 && Regs(A, R, n) == Wrapped(c, n, g, j, 0)
    {
      var i := 0;
      while i < n
        invariant 0 <= i <= n && Regs(A, R, n) == Wrapped(c, n, g, j, i)
      {
        OneStep(c, n, g, j, i);
        WrapStep(c, A, R, B, n, i, Number(n, j, i + 1));
        i := i + 1;
      }
      NextPass(c, n, g, j);
      j := j + 1;
    }
  }

  /** The six passes of aes_unwrap. */
  method UnwrapPasses(c: Cipher, A: array<Byte>, R: array<Byte>, B: array<Byte>, n: nat)
    requires A.Length == 16 && B.Length == 16 && R.Length >= 8 * n && A != R && A != B && B != R
    modifies A, R, B
    ensures Regs(A, R, n) == Unwrapped(c, n, old(Regs(A, R, n)), 6, 0)
  {
    hide Unwrapped, Unstep, Number, Regs;
    ghost var h := Unwrapped(c, n, Regs(A, R, n), 6, 0);
    var j: int := 5;
    while j >= 0
      invariant -1 <= j <= 5 && Unwrapped(c, n, Regs(A, R, n), j + 1, 0) == h
    {
      NextPass(c, n, Regs(A, R, n), j);
      var i := n as int - 1;
      while i >= 0
        invariant -1 <= i < n && Unwrapped(c, n, Regs(A, R, n), j, i + 1) == h
      {
        OneStep(c, n, Regs(A, R, n), j, i);
        UnwrapStep(c, A, R, B, n, i, Number(n, j, i + 1));
        i := i - 1;
      }
      j := j - 1;
    }
    Start(c, n, Regs(A, R, n));
  }

  /** aes_wrap */
  method AesWrap(c: Cipher, kl: nat, input: seq<Byte>, output: array<Byte>) returns (status: int)
    requires output.Length >= |input| + 8
    modifies output
    ensures status == if Wrap(c, kl, input).Some? then 0 else 1
    ensures status == 0 ==> output[..] == Wrap(c, kl, input).value + old(output[|input| + 8..])
    ensures status == 1 ==> output[..] == old(output[..])
  {
    hide Wrapped, IV, Put;
    if !ValidKeyLength(kl) || |input| > MAX_WRAP_LEN || |input| % BLOCK_LEN != 0 { return 1; }
    var n := |input| / 8;
    var A, R, B := Buffers(MAX_WRAP_LEN);
    Copy(A, 0, IV());
    Copy(R, 0, input);
    assert A[..8] == IV() && R[..8 * n] == input;
    WrapPasses(c, A, R, B, n);
    Deliver(output, A[..8], R[..8 * n]);
    return 0;
  }

  /** C[0] = A, then C[i] = R[i]. */
  method Deliver(output: array<Byte>, a: seq<Byte>, r: seq<Byte>)
    requires |a| == 8 && 8 + |r| <= output.Length
    modifies output
    ensures output[..] == a + r + old(output[|r| + 8..])
  {
    ghost var rest := output[|r| + 8..];
    Copy(output, 0, a);
    assert output[..8] == a && output[8 + |r|..] == rest;
    Copy(output, 8, r);
  }

  /** aes_unwrap. An empty input is outside its domain: the length of the output would be negative. */
  method AesUnwrap(c: Cipher, kl: nat, input: seq<Byte>, output: array<Byte>) returns (status: int)
    requires input != [] && output.Length + 8 >= |input|
    modifies output
    ensures status == if Unwrap(c, kl, input).Some? then 0 else 1
    ensures status == 0 ==> output[..] == Unwrap(c, kl, input).value + old(output[|input| - 8..])
    ensures status == 1 ==> output[..] == old(output[..])
  {
    hide Unwrapped, IV;
    if !ValidKeyLength(kl) || |input| > MAX_WRAP_LEN + BLOCK_LEN || |input| % BLOCK_LEN != 0 { return 1; }
    var n := |input| / 8 - 1;
    var A, R, B := Buffers(MAX_WRAP_LEN + BLOCK_LEN);
    Copy(A, 0, input[..8]);
    Copy(R, 0, input[8..]);
    assert A[..8] == input[..8] && R[..8 * n] == input[8..];
    UnwrapPasses(c, A, R, B, n);
    if A[..8] == IV() {
      Copy(output, 0, R[..8 * n]);
      return 0;
    }
    return 1;
  }

  // The standard's own counter is 64 bits wide.

  function CountWide(a: seq<Byte>, t: nat): (r: seq<Byte>)
    requires |a| == 8 && t < 0x1_0000
    ensures |r| == 8
  {
    a[6 := a[6] ^ ((t / 256) as Byte)][7 := a[7] ^ ((t % 256) as Byte)]
  }

  function StepWide(c: Cipher, n: nat, g: Registers, i: nat, t: nat): (r: Registers)
    requires Sized(g, n) && i < n && t < 0x1_0000
    ensures Sized(r, n)
  {
    var b := c.E(g.A + g.R[8 * i..8 * i + 8]);
    Registers(CountWide(b[..8], t), Put(g.R, i, b[8..]))
  }

  /** The registers of section 2.2.1 of RFC 3394, for the input lengths aes_wrap accepts. */
  function WrappedWide(c: Cipher, n: nat, g: Registers, j: nat, i: nat): (r: Registers)
    requires Sized(g, n) && i <= n && Number(n, j, i) < 0x1_0000
    ensures Sized(r, n)
    decreases j, i
  {
    NextNumber(n, j, i);
    if i > 0 then StepWide(c, n, WrappedWide(c, n, g, j, i - 1), i - 1, Number(n, j, i))
    else if j > 0 then WrappedWide(c, n, g, j - 1, n)
    else g
  }

  /** Up to 255 steps the two counters agree. */
  lemma {:induction false} NarrowIsWide(c: Cipher, n: nat, g: Registers, j: nat, i: nat)
    requires Sized(g, n) && i <= n && Number(n, j, i) <= 255
    ensures Wrapped(c, n, g, j, i) == WrappedWide(c, n, g, j, i)
    decreases j, i
  {
    hide Number, Step, StepWide;
    NextNumber(n, j, i);
    if i > 0 {
      NarrowIsWide(c, n, g, j, i - 1);
      NarrowStep(c, n, Wrapped(c, n, g, j, i - 1), i - 1, Number(n, j, i));
    } else if j > 0 {
      NarrowIsWide(c, n, g, j - 1, n);
    }
  }

  lemma NarrowStep(c: Cipher, n: nat, g: Registers, i: nat, t: nat)
    requires Sized(g, n) && i < n && t <= 255
    ensures Step(c, n, g, i, t) == StepWide(c, n, g, i, t)
  {
    hide Count, CountWide;
    NarrowCount(c.E(g.A + g.R[8 * i..8 * i + 8])[..8], t);
  }

  lemma NarrowCount(a: seq<Byte>, t: nat)
    requires |a| == 8 && t <= 255
    ensures Count(a, t) == CountWide(a, t)
  {
    XorZero(a[6]);
  }

  const IDENTITY := Cipher(b => b, b => b)

  /** The byte above the last one under the identity cipher: the parity of the steps past 255. */
  function Flipped(a: Byte, t: nat): (b: Byte)
  {
    if t > 255 && t % 2 == 0 then a ^ 1 else a
  }

  lemma FlipNext(a: Byte, t: nat)
    requires t < 511
    ensures Flipped(a, t) ^ (((t + 1) / 256) as Byte) == Flipped(a, t + 1)
  {
    XorZero(a);
    XorTwice(a, 1);
  }

  lemma IdentityStep(n: nat, g: Registers, i: nat, t: nat)
    requires Sized(g, n) && i < n && t < 512
    ensures Step(IDENTITY, n, g, i, t).A[6] == g.A[6]
    ensures StepWide(IDENTITY, n, g, i, t).A[6] == g.A[6] ^ ((t / 256) as Byte)
  {
    hide Put;
  }

  lemma {:induction false} IdentitySteps(n: nat, g: Registers, j: nat, i: nat)
    requires Sized(g, n) && i <= n && Number(n, j, i) < 512
    ensures Wrapped(IDENTITY, n, g, j, i).A[6] == g.A[6]
    ensures WrappedWide(IDENTITY, n, g, j, i).A[6] == Flipped(g.A[6], Number(n, j, i))
    decreases j, i
  {
    hide Number, Step, StepWide, Flipped;
    NextNumber(n, j, i);
    if i > 0 {
      var t := Number(n, j, i);
      IdentitySteps(n, g, j, i - 1);
      IdentityStep(n, Wrapped(IDENTITY, n, g, j, i - 1), i - 1, t);
      IdentityStep(n, WrappedWide(IDENTITY, n, g, j, i - 1), i - 1, t);
      FlipNext(g.A[6], t - 1);
    } else if j > 0 {
      IdentitySteps(n, g, j - 1, n);
    } else {
      NotFlipped(g.A[6]);
    }
  }

  lemma NotFlipped(a: Byte)
    ensures Flipped(a, 0) == a
  {
  }

  lemma FlippedAtEnd(a: Byte, n: nat)
    requires 42 < n <= 48
    ensures Flipped(a, 6 * n) != a
  {
    XorOne(a);
  }

  lemma XorOne(a: Byte)
    ensures a ^ 1 != a
  {
  }

  /** aes_wrap computes the standard's wrapping for every cipher exactly up to 42 blocks of input; the limit it
      accepts is 48. */
  lemma StandardUpTo42(n: nat, g: Registers)
    requires Sized(g, n) && n <= 48
    ensures Number(n, 6, 0) == 6 * n
    ensures (forall c: Cipher :: Wrapped(c, n, g, 6, 0) == WrappedWide(c, n, g, 6, 0)) <==> n <= 42
  {
    hide Wrapped, WrappedWide, Flipped, Number;
    NextNumber(n, 6, 0);
    if n <= 42 {
      forall c: Cipher
        ensures Wrapped(c, n, g, 6, 0) == WrappedWide(c, n, g, 6, 0)
      {
        NarrowIsWide(c, n, g, 6, 0);
      }
    } else {
      IdentitySteps(n, g, 6, 0);
      FlippedAtEnd(g.A[6], n);
    }
  }
}
