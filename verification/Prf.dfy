/** SHA-1 streaming, HMAC-SHA1 and the two pseudo-random functions of prf.c. SHA-1's block function and start value
    are parameters. A context is a value: copying it is what memcpy does. */
module Prf {
  import opened ByteBuffers
  import opened Md32

  type Digest = s: seq<Byte> | |s| == 20 witness seq(20, _ => 0)

  const MAX_I_D_LEN: nat := 128
  const MAX_KEY_LEN: nat := 64

  /** The hash the contexts run. */
  datatype Hash = Hash(f: BlockFunction<Digest>, iv: Digest)

  /** SHA-1 of a whole message. */
  function Sha1(p: Hash, m: seq<Byte>): (d: Digest)
  {
    Fold(p.f, p.iv, Padded(m))
  }

  const SHA_SUCCESS: nat := 0
  const SHA_STATE_ERROR: nat := 3

  datatype Context = Context(h: Digest, block: seq<Byte>, bits: nat, computed: bool, corrupted: nat)

  /** A context that takes input. */
  predicate Open(c: Context)
  {
    !c.computed && c.corrupted == 0
  }

  /** The context after the bytes m. */
  ghost predicate Holds(p: Hash, c: Context, m: seq<Byte>)
  {
    && Open(c) && 8 * |m| < TWO64 && |c.block| == |m| % CBLOCK && c.block == m[|m| - |c.block|..]
    && c.h == Fold(p.f, p.iv, m[..|m| - |c.block|])
    && c.bits == 8 * |m|
  }

  /** SHA1Reset */
  method Reset(p: Hash) returns (c: Context)
    ensures Holds(p, c, [])
  {
    hide Fold;
    FoldNothing(p.f, p.iv);
    c := Context(p.iv, [], 0, false, 0);
  }

  /** SHA1ProcessMessageBlock */
  method ProcessBlock(p: Hash, c: Context, ghost m: seq<Byte>) returns (c': Context)
    requires |c.block| == CBLOCK && |m| % CBLOCK == 0 && |m| >= CBLOCK && c.block == m[|m| - CBLOCK..]
    requires c.h == Fold(p.f, p.iv, m[..|m| - CBLOCK])
    ensures c' == c.(h := Fold(p.f, p.iv, m), block := [])
  {
    hide Fold, Words;
    ghost var whole := m[..|m| - CBLOCK];
    FoldAppend(p.f, p.iv, whole, c.block);
    FoldOne(p.f, c.h, c.block);
    assert whole + c.block == m;
    c' := c.(h := p.f(c.h, Words(c.block)), block := []);
  }

  /** The length counter after one byte more; at 2^64 bits it is zero again. */
  lemma CountByte(n: nat)
    requires 8 * n < TWO64
    ensures (8 * n + 8) % TWO64 == if 8 * (n + 1) < TWO64 then 8 * (n + 1) else 0
  {
  }

  /** One byte of SHA1Input. The length counter may overflow, which corrupts the context. */
  method AddByte(p: Hash, c0: Context, b: Byte, ghost m: seq<Byte>) returns (c: Context)
    requires Holds(p, c0, m)
    ensures if 8 * (|m| + 1) < TWO64 then Holds(p, c, m + [b]) else c.corrupted == 1 && !c.computed
  {
    hide Fold;
    CountByte(|m|);
    var bits := (c0.bits + 8) % TWO64;
    c := c0.(block := c0.block + [b], bits := bits, corrupted := if bits == 0 then 1 else 0);
    ghost var v := m + [b];
    assert v[..|v| - |c.block|] == m[..|m| - |c0.block|] && v[|v| - |c.block|..] == c.block;
    c := TakeBlock(p, c, v, |m|);
  }

  /** A full block is processed. */
  method TakeBlock(p: Hash, c0: Context, ghost v: seq<Byte>, ghost n: nat) returns (c: Context)
    requires |v| == n + 1 && |c0.block| == n % CBLOCK + 1 && c0.block == v[|v| - |c0.block|..]
    requires c0.h == Fold(p.f, p.iv, v[..|v| - |c0.block|])
    ensures |c.block| == |v| % CBLOCK && c.block == v[|v| - |c.block|..]
    ensures c.h == Fold(p.f, p.iv, v[..|v| - |c.block|])
    ensures c.bits == c0.bits && c.computed == c0.computed && c.corrupted == c0.corrupted
  {
    hide Fold;
    c := c0;
    if |c.block| == CBLOCK {
      c := ProcessBlock(p, c, v);
      assert v[..|v|] == v && v[|v|..] == [];
    }
  }

  /** SHA1Input, a byte at a time. A message of 2^64 bits or more corrupts the context, although the call that makes it
      so long reports success; after the result has been taken the context refuses input and is corrupted too. */
  method Input(p: Hash, c0: Context, s: seq<Byte>, ghost m: seq<Byte>) returns (c: Context, status: nat)
    requires Open(c0) ==> Holds(p, c0, m)
    ensures s == [] ==> c == c0 && status == SHA_SUCCESS
    ensures s != [] && c0.computed ==> c == c0.(corrupted := SHA_STATE_ERROR) && status == SHA_STATE_ERROR
    ensures s != [] && !c0.computed && c0.corrupted != 0 ==> c == c0 && status == c0.corrupted
    ensures Open(c0) ==> status == SHA_SUCCESS && !c.computed
    ensures Open(c0) ==> if 8 * (|m| + |s|) < TWO64 then Holds(p, c, m + s) else c.corrupted == 1
  {
    hide Holds;
    c, status := c0, SHA_SUCCESS;
    if s == [] {
      assert m + s == m;
      HoldsOpen(p, c, m);
      return;
    }
    if c.computed { return c.(corrupted := SHA_STATE_ERROR), SHA_STATE_ERROR; }
    if c.corrupted != 0 { return c, c.corrupted; }
    var i := 0;
    assert m + s[..0] == m;
    HoldsOpen(p, c, m);
    while i < |s| && c.corrupted == 0
      invariant 0 <= i <= |s| && !c.computed && (i == |s| ==> s[..i] == s)
      invariant if c.corrupted == 0 then Holds(p, c, m + s[..i]) && 8 * (|m| + i) < TWO64
                else c.corrupted == 1 && 8 * (|m| + i) >= TWO64
      decreases |s| - i
    {
      assert m + s[..i + 1] == m + s[..i] + [s[i]];
      c := AddByte(p, c, s[i], m + s[..i]);
      if 8 * (|m| + i + 1) < TWO64 { HoldsOpen(p, c, m + s[..i + 1]); }
      i := i + 1;
    }
  }

  lemma HoldsOpen(p: Hash, c: Context, m: seq<Byte>)
    ensures Holds(p, c, m) ==> Open(c) && 8 * |m| < TWO64
  {
  }

  /** Process a block that follows whole blocks. */
  method ProcessNext(p: Hash, c: Context, ghost whole: seq<Byte>) returns (c': Context)
    requires |c.block| == CBLOCK && |whole| % CBLOCK == 0 && c.h == Fold(p.f, p.iv, whole)
    ensures c' == c.(h := Fold(p.f, p.iv, whole + c.block), block := [])
  {
    hide Fold;
    ghost var m := whole + c.block;
    assert m[..|m| - CBLOCK] == whole && m[|m| - CBLOCK..] == c.block;
    c' := ProcessBlock(p, c, m);
  }

  /** SHA1Result: a corrupted context gives its error, one whose result has been taken the same digest again. */
  method Result(p: Hash, c0: Context, ghost m: seq<Byte>) returns (c: Context, status: nat, d: Digest)
    requires Open(c0) ==> Holds(p, c0, m)
    ensures status == c0.corrupted
    ensures c0.corrupted != 0 ==> c == c0
    ensures c0.corrupted == 0 ==> c.computed && c.corrupted == 0 && c.h == d
    ensures c0.corrupted == 0 ==> d == if c0.computed then c0.h else Sha1(p, m)
  {
    hide Sha1, Holds;
    c, status, d := c0, c0.corrupted, c0.h;
    if c.corrupted != 0 { return; }
    if !c.computed {
      d := Padding(p, c, m);
      c := Context(d, [], 0, true, 0);
    }
  }

  /** SHA1PadMessage: pad into one block or two. */
  method Padding(p: Hash, c0: Context, ghost m: seq<Byte>) returns (d: Digest)
    requires Holds(p, c0, m)
    ensures d == Sha1(p, m)
  {
    hide Fold, Padded, LengthBytes, Zeros, WordOf, WordBytes;
    var c := c0;
    ghost var whole, tail := m[..|m| - |c.block|], c.block;
    assert m == whole + tail;
    var length := WordBytes(WordOf(c.bits / TWO32)) + WordBytes(WordOf(c.bits % TWO32));
    LengthOf(|m|);
    if |c.block| > 55 {
      c := c.(block := c.block + [0x80] + Zeros(63 - |c.block|));
      PaddedTwo(m, whole, tail);
      whole := whole + c.block;
      c := ProcessNext(p, c, whole[..|whole| - CBLOCK]);
      assert whole[..|whole| - CBLOCK] + whole[|whole| - CBLOCK..] == whole;
      c := c.(block := Zeros(56));
    } else {
      c := c.(block := c.block + [0x80] + Zeros(55 - |c.block|));
      PaddedOne(m, whole, tail);
    }
    c := c.(block := c.block + length);
    c := ProcessNext(p, c, whole);
    d := c.h;
  }

  lemma LengthOf(n: nat)
    requires 8 * n < TWO64
    ensures LengthBytes(n) == WordBytes(WordOf(8 * n / TWO32)) + WordBytes(WordOf(8 * n % TWO32))
  {
    hide WordOf, WordBytes;
    assert 8 * n % TWO64 == 8 * n;
  }

  /** The last input to a context, and its result. */
  method HashOf(p: Hash, c0: Context, s: seq<Byte>, ghost m: seq<Byte>) returns (d: Digest)
    requires Holds(p, c0, m) && 8 * (|m| + |s|) < TWO64
    ensures d == Sha1(p, m + s)
  {
    hide Sha1, Holds;
    HoldsOpen(p, c0, m);
    var c, status := Input(p, c0, s, m);
    HoldsOpen(p, c, m + s);
    c, status, d := Result(p, c, m + s);
  }

  // HMAC.

  /** The key padded with zeros to a block and exclusive-ored with the pad byte. */
  function PadKey(key: seq<Byte>, pad: Byte): (s: seq<Byte>)
    requires |key| <= MAX_KEY_LEN
    ensures |s| == 64
  {
    seq(64, i requires 0 <= i < 64 => Masked(if i < |key| then key[i] else 0, pad))
  }

  function Masked(a: Byte, b: Byte): (r: Byte) { a ^ b }

  /** A key longer than a block is replaced by its hash. */
  function Effective(p: Hash, key: seq<Byte>): (k: seq<Byte>)
    ensures |k| <= MAX_KEY_LEN
  {
    if |key| > MAX_KEY_LEN then Sha1(p, key) else key
  }

  function Hmac(p: Hash, key: seq<Byte>, text: seq<Byte>): (d: Digest)
    requires |key| <= MAX_KEY_LEN
  {
    Sha1(p, PadKey(key, 0x5c) + Sha1(p, PadKey(key, 0x36) + text))
  }

  /** What is in the caller's key buffer after one call: hmac_sha1 writes the hash of a long key over it. */
  function Rekeyed(p: Hash, key: seq<Byte>): (k: seq<Byte>)
    ensures |k| == |key|
  {
    if |key| > MAX_KEY_LEN then Sha1(p, key) + key[20..] else key
  }

  /** The pads of a key. */
  method Pads(key: seq<Byte>) returns (ipad: seq<Byte>, opad: seq<Byte>)
    requires |key| <= MAX_KEY_LEN
    ensures ipad == PadKey(key, 0x36) && opad == PadKey(key, 0x5c)
  {
    var k := new Byte[64](_ => 0);
    Copy(k, 0, key);
    var o := new Byte[64](_ => 0);
    Copy(o, 0, k[..]);
    assert o[..] == k[..] == key + seq(64 - |key|, _ => 0);
    XorPad(k, 0x36, key);
    XorPad(o, 0x5c, key);
    ipad, opad := k[..], o[..];
  }

  /** Exclusive or with a pad byte; the C loop treats both pads in one go, a word at a time. */
  method XorPad(k: array<Byte>, pad: Byte, ghost key: seq<Byte>)
    requires |key| <= MAX_KEY_LEN && k.Length == 64 && k[..] == key + seq(64 - |key|, _ => 0)
    modifies k
    ensures k[..] == PadKey(key, pad)
  {
    hide Masked;
    ghost var z := k[..];
    var i := 0;
    while i < 64
      invariant 0 <= i <= 64
      invariant forall j :: 0 <= j < i ==> k[j] == Masked(z[j], pad)
      invariant forall j :: i <= j < 64 ==> k[j] == z[j]
    {
      k[i] := Masked(k[i], pad);
      i := i + 1;
    }
  }

  /** The key as hmac_sha1 uses it, which for a long key changes the buffer. */
  method ShortKey(p: Hash, key: array<Byte>) returns (k: seq<Byte>)
    requires 8 * key.Length < TWO64
    modifies key
    ensures k == Effective(p, old(key[..])) && key[..] == Rekeyed(p, old(key[..]))
  {
    hide Sha1;
    k := key[..];
    if key.Length > MAX_KEY_LEN {
      var c := Reset(p);
      var d := HashOf(p, c, key[..], []);
      assert [] + key[..] == key[..];
      Copy(key, 0, d);
      k := d;
    }
  }

  /** The inner and outer pass from contexts that have taken the pads. The digest's place holds the inner digest in
      between. */
  method Passes(p: Hash, ghost key: seq<Byte>, ghost ipad: seq<Byte>, ghost opad: seq<Byte>, inner: Context, outer: Context,
                  text: seq<Byte>, output: array<Byte>, at: nat)
    requires |key| <= MAX_KEY_LEN && ipad == PadKey(key, 0x36) && opad == PadKey(key, 0x5c)
    requires Holds(p, inner, ipad) && Holds(p, outer, opad) && at + 20 <= output.Length && 8 * (64 + |text|) < TWO64
    modifies output
    ensures output[..] == old(output[..at]) + Hmac(p, key, text) + old(output[at + 20..])
  {
    hide Sha1, Holds, PadKey;
    ghost var before := output[..];
    PadLength(key);
    var icontext, ocontext := inner, outer;
    var d := HashOf(p, icontext, text, ipad);
    Copy(output, at, d);
    assert output[at..at + 20] == d;
    d := HashOf(p, ocontext, output[at..at + 20], opad);
    Copy(output, at, d);
    assert output[..] == before[..at] + d + before[at + 20..];
  }

  /** hmac_sha1: both contexts from scratch. */
  method HmacSha1(p: Hash, text: seq<Byte>, key: array<Byte>, digest: array<Byte>, at: nat)
    requires key != digest && at + 20 <= digest.Length && 8 * key.Length < TWO64 && 8 * (64 + |text|) < TWO64
    modifies key, digest
    ensures key[..] == Rekeyed(p, old(key[..]))
    ensures digest[..] == old(digest[..at]) + Hmac(p, Effective(p, old(key[..])), text) + old(digest[at + 20..])
  {
    hide Sha1, Holds, PadKey, Hmac, Effective, Rekeyed;
    var k := ShortKey(p, key);
    var ipad, opad, icontext, ocontext := Keyed(p, k);
    Passes(p, k, ipad, opad, icontext, ocontext, text, digest, at);
  }

  /** The contexts after the pads. */
  method Keyed(p: Hash, key: seq<Byte>) returns (ghost ipad: seq<Byte>, ghost opad: seq<Byte>, inner: Context, outer: Context)
    requires |key| <= MAX_KEY_LEN
    ensures ipad == PadKey(key, 0x36) && opad == PadKey(key, 0x5c)
    ensures Holds(p, inner, ipad) && Holds(p, outer, opad)
  {
    hide Holds, PadKey;
    var k, o := Pads(key);
    PadLength(key);
    inner := Reset(p);
    outer := inner;
    HoldsOpen(p, inner, []);
    var status;
    inner, status := Input(p, inner, k, []);
    outer, status := Input(p, outer, o, []);
    assert [] + k == k && [] + o == o;
    ipad, opad := k, o;
  }

  // The pseudo-random functions.

  /** Prefix, a zero byte, data and the counter; without prefix no zero byte. */
  function InputOf(prefix: seq<Byte>, data: seq<Byte>, i: nat): (s: seq<Byte>)
  {
    (if prefix == [] then data else prefix + [0] + data) + [Small(i)]
  }

  /** The key buffer after i calls of hmac_sha1. */
  function KeyAfter(p: Hash, key: seq<Byte>, i: nat): (k: seq<Byte>)
    ensures |k| == |key|
  {
    if i == 0 then key else Rekeyed(p, KeyAfter(p, key, i - 1))
  }

  /** n output blocks of PRF, the key buffer being used again for every block. */
  function Blocks(p: Hash, key: seq<Byte>, prefix: seq<Byte>, data: seq<Byte>, n: nat): (s: seq<Byte>)
    ensures |s| == 20 * n
  {
    if n == 0 then []
    else
      var last := Hmac(p, Effective(p, KeyAfter(p, key, n - 1)), InputOf(prefix, data, n - 1));
      Blocks(p, key, prefix, data, n - 1) + last
  }

  /** n output blocks of fPRF, the key being shortened once. */
  function FastBlocks(p: Hash, key: seq<Byte>, prefix: seq<Byte>, data: seq<Byte>, n: nat): (s: seq<Byte>)
    ensures |s| == 20 * n
  {
    if n == 0 then []
    else FastBlocks(p, key, prefix, data, n - 1) + Hmac(p, Effective(p, key), InputOf(prefix, data, n - 1))
  }

  lemma {:induction false} ShortKeyKept(p: Hash, key: seq<Byte>, i: nat)
    requires |key| <= MAX_KEY_LEN
    ensures KeyAfter(p, key, i) == key
  {
    if i > 0 {
      ShortKeyKept(p, key, i - 1);
    }
  }

  /** The fast function is the slow one for every key of up to 64 bytes, and for one block of output. */
  lemma {:induction false} FastAgrees(p: Hash, key: seq<Byte>, prefix: seq<Byte>, data: seq<Byte>, n: nat)
    requires |key| <= MAX_KEY_LEN || n <= 1
    ensures FastBlocks(p, key, prefix, data, n) == Blocks(p, key, prefix, data, n)
  {
    if n > 0 {
      FastAgrees(p, key, prefix, data, n - 1);
      if n > 1 { ShortKeyKept(p, key, n - 1); }
    }
  }

  function Repeated(b: Byte): (d: Digest) { seq(20, _ => b) }

  /** A block function that looks at the first byte of the first block only: it tells the first byte a of a
      long key and the first byte x of an outer pad from all others. */
  function FirstByte(a: Byte, b: Byte, x: Byte): (f: BlockFunction<Digest>)
  {
    (h: Digest, w: seq<Word>) =>
      if h != Repeated(0) || w == [] then h
      else if w[0].b0 == a then Repeated(b)
      else if w[0].b0 == x then Repeated(4)
      else Repeated(3)
  }

  lemma {:induction false} FirstByteStays(a: Byte, b: Byte, x: Byte, h: Digest, s: seq<Byte>)
    requires |s| % CBLOCK == 0 && h != Repeated(0)
    ensures Fold(FirstByte(a, b, x), h, s) == h
    decreases |s|
  {
    hide Words, Repeated;
    if s != [] {
      FirstByteStays(a, b, x, h, s[64..]);
    }
  }

  /** Its hash of a message. */
  lemma FirstByteHash(a: Byte, b: Byte, x: Byte, m: seq<Byte>)
    requires m != [] && b != 0
    ensures Sha1(Hash(FirstByte(a, b, x), Repeated(0)), m)
         == if m[0] == a then Repeated(b) else if m[0] == x then Repeated(4) else Repeated(3)
  {
    hide LengthBytes, Zeros, ZeroCount;
    var f, s := FirstByte(a, b, x), Padded(m);
    assert s[..64][0] == s[0] == m[0];
    var h := f(Repeated(0), Words(s[..64]));
    assert Repeated(0)[0] == 0 && Repeated(b)[0] == b && Repeated(3)[0] == 3 && Repeated(4)[0] == 4;
    FirstByteStays(a, b, x, h, s[64..]);
  }

  /** The first byte of a pad decides this hash's HMAC. */
  lemma FirstByteHmac(p: Hash, a: Byte, b: Byte, x: Byte, c: Byte, y: Byte, text: seq<Byte>)
    requires p == Hash(FirstByte(a, b, x), Repeated(0)) && b != 0 && y == Masked(c, 0x5c)
    ensures Hmac(p, Repeated(c), text)
         == if y == a then Repeated(b) else if y == x then Repeated(4) else Repeated(3)
  {
    hide Sha1, Masked;
    var pad := PadKey(Repeated(c), 0x5c);
    assert pad[0] == y;
    FirstByteHash(a, b, x, pad + Sha1(p, PadKey(Repeated(c), 0x36) + text));
  }

  /** The byte b the first hash of a key beginning with a is made of: not a itself, nor a under the outer pad. */
  function Marker(a: Byte): (b: Byte)
    ensures b in {1, 2} && b != a && Masked(b, 0x5c) !in {a, b, Masked(3, 0x5c)}
  {
    if a == 1 || a == 0x5d then 2 else 1
  }

  /** The hash that tells the two functions apart for keys beginning with a. */
  function Telling(a: Byte): (p: Hash)
  {
    Hash(FirstByte(a, Marker(a), Masked(Marker(a), 0x5c)), Repeated(0))
  }

  /** For a key over 64 bytes the second blocks differ under that hash. */
  lemma SecondBlocksDiffer(key: seq<Byte>, text: seq<Byte>)
    requires |key| > MAX_KEY_LEN
    ensures Hmac(Telling(key[0]), Effective(Telling(key[0]), key), text)
         != Hmac(Telling(key[0]), Effective(Telling(key[0]), KeyAfter(Telling(key[0]), key, 1)), text)
  {
    hide Sha1, Hmac, FirstByte, Masked;
    var a, b, p := key[0], Marker(key[0]), Telling(key[0]);
    var x := Masked(b, 0x5c);
    FirstByteHash(a, b, x, key);
    var k := KeyAfter(p, key, 1);
    assert k == Rekeyed(p, KeyAfter(p, key, 0)) == Repeated(b) + key[20..];
    FirstByteHash(a, b, x, k);
    FirstByteHmac(p, a, b, x, b, x, text);
    FirstByteHmac(p, a, b, x, 3, Masked(3, 0x5c), text);
    assert Repeated(b)[0] == b && Repeated(3)[0] == 3 && Repeated(4)[0] == 4;
  }

  /** Block i of both outputs. */
  lemma {:induction false} BlockAt(p: Hash, key: seq<Byte>, prefix: seq<Byte>, data: seq<Byte>, n: nat, i: nat)
    requires i < n
    ensures Blocks(p, key, prefix, data, n)[20 * i..20 * i + 20]
         == Hmac(p, Effective(p, KeyAfter(p, key, i)), InputOf(prefix, data, i))
    ensures FastBlocks(p, key, prefix, data, n)[20 * i..20 * i + 20]
         == Hmac(p, Effective(p, key), InputOf(prefix, data, i))
  {
    hide Hmac, Effective, KeyAfter, InputOf;
    if i < n - 1 {
      BlockAt(p, key, prefix, data, n - 1, i);
      assert Blocks(p, key, prefix, data, n)[..20 * (n - 1)] == Blocks(p, key, prefix, data, n - 1);
      assert FastBlocks(p, key, prefix, data, n)[..20 * (n - 1)] == FastBlocks(p, key, prefix, data, n - 1);
    }
  }

  /** fPRF computes PRF for every hash exactly for keys of up to 64 bytes, or one block of output. */
  lemma FastIsSlow(key: seq<Byte>, prefix: seq<Byte>, data: seq<Byte>, n: nat)
    ensures (forall p: Hash :: FastBlocks(p, key, prefix, data, n) == Blocks(p, key, prefix, data, n))
      <==> |key| <= MAX_KEY_LEN || n <= 1
  {
    hide FastBlocks, Blocks, Hmac, Effective, KeyAfter, InputOf, Telling;
    if |key| <= MAX_KEY_LEN || n <= 1 {
      forall p: Hash
        ensures FastBlocks(p, key, prefix, data, n) == Blocks(p, key, prefix, data, n)
      {
        FastAgrees(p, key, prefix, data, n);
      }
    } else {
      var p := Telling(key[0]);
      BlockAt(p, key, prefix, data, n, 1);
      SecondBlocksDiffer(key, InputOf(prefix, data, 1));
      assert FastBlocks(p, key, prefix, data, n) != Blocks(p, key, prefix, data, n);
    }
  }

  /** The lengths for which the concatenated input and its counter fit the buffer. The guard in the code does not
      count the zero byte after a prefix, so it admits one length more. */
  predicate Fits(prefix: seq<Byte>, data: seq<Byte>)
  {
    |InputOf(prefix, data, 0)| <= MAX_I_D_LEN
  }

  lemma GuardAdmitsOneMore(prefix: seq<Byte>, data: seq<Byte>)
    ensures |prefix| + |data| + 1 <= MAX_I_D_LEN <==>
      Fits(prefix, data) || (prefix != [] && |prefix| + |data| + 1 == MAX_I_D_LEN)
  {
  }

  /** The concatenated input in its buffer. */
  method Concatenate(prefix: seq<Byte>, data: seq<Byte>) returns (input: array<Byte>, total: nat)
    requires Fits(prefix, data)
    ensures fresh(input) && 1 <= total <= input.Length == MAX_I_D_LEN && input[..total] == InputOf(prefix, data, 0)
  {
    input := new Byte[128](_ => 0);
    var offset := 0;
    if prefix != [] {
      Copy(input, 0, prefix);
      input[|prefix|] := 0;
      offset := |prefix| + 1;
      assert input[..offset] == prefix + [0];
    }
    Copy(input, offset, data);
    total := offset + |data|;
    input[total] := 0;
    total := total + 1;
    assert input[..total] == InputOf(prefix, data, 0);
  }

  /** input[total - 1]++ */
  method NextInput(input: array<Byte>, total: nat, ghost prefix: seq<Byte>, ghost data: seq<Byte>, ghost i: nat)
    requires 1 <= total <= input.Length && input[..total] == InputOf(prefix, data, i)
    modifies input
    ensures input[..total] == InputOf(prefix, data, i + 1)
  {
    ghost var s := input[..total - 1];
    assert input[..total] == s + [input[total - 1]];
    assert s == (if prefix == [] then data else prefix + [0] + data) by {
      assert s == input[..total][..total - 1];
    }
    input[total - 1] := Succ(input[total - 1]);
    assert input[..total] == s + [input[total - 1]];
  }

  /** PRF */
  method Slow(p: Hash, key: array<Byte>, prefix: seq<Byte>, data: seq<Byte>, output: array<Byte>, len: nat)
    returns (status: int)
    requires key != output && 8 * key.Length < TWO64 && output.Length >= 20 * ((len + 19) / 20)
    requires |prefix| + |data| + 1 <= MAX_I_D_LEN ==> Fits(prefix, data)
    modifies key, output
    ensures status == if |prefix| + |data| + 1 > MAX_I_D_LEN then -1 else 0
    ensures key[..] == if status == 0 then KeyAfter(p, old(key[..]), (len + 19) / 20) else old(key[..])
    ensures status == -1 ==> output[..] == old(output[..])
    ensures status == 0 ==> output[..20 * ((len + 19) / 20)] == Blocks(p, old(key[..]), prefix, data, (len + 19) / 20)
    ensures status == 0 ==> output[20 * ((len + 19) / 20)..] == old(output[20 * ((len + 19) / 20)..])
  {
    hide Hmac, Effective, Rekeyed, InputOf;
    if |prefix| + |data| + 1 > MAX_I_D_LEN { return -1; }
    var input, total := Concatenate(prefix, data);
    var n := (len + 19) / 20;
    ghost var k, o := key[..], output[..];
    var i, currentindex := 0, 0;
    while i < n
      invariant 0 <= i <= n && currentindex == 20 * i && key[..] == KeyAfter(p, k, i)
      invariant fresh(input) && 1 <= total <= input.Length == MAX_I_D_LEN && input[..total] == InputOf(prefix, data, i)
      invariant output[..] == Blocks(p, k, prefix, data, i) + o[20 * i..]
    {
      HmacSha1(p, input[..total], key, output, currentindex);
      AppendBlock(o, output[..], Blocks(p, k, prefix, data, i), Hmac(p, Effective(p, KeyAfter(p, k, i)), InputOf(prefix, data, i)), i);
      currentindex := currentindex + 20;
      NextInput(input, total, prefix, data, i);
      i := i + 1;
    }
    return 0;
  }

  /** Writing block i after the first i blocks. */
  lemma AppendBlock(o: seq<Byte>, o': seq<Byte>, blocks: seq<Byte>, d: Digest, i: nat)
    requires |blocks| == 20 * i && 20 * i + 20 <= |o|
    requires o' == (blocks + o[20 * i..])[..20 * i] + d + (blocks + o[20 * i..])[20 * i + 20..]
    ensures o' == blocks + d + o[20 * (i + 1)..]
  {
  }

  lemma NextFast(p: Hash, key: seq<Byte>, prefix: seq<Byte>, data: seq<Byte>, i: nat)
    ensures FastBlocks(p, key, prefix, data, i + 1)
         == FastBlocks(p, key, prefix, data, i) + Hmac(p, Effective(p, key), InputOf(prefix, data, i))
  {
  }

  lemma NoFast(p: Hash, key: seq<Byte>, prefix: seq<Byte>, data: seq<Byte>)
    ensures FastBlocks(p, key, prefix, data, 0) == []
  {
  }

  /** fPRF: the padded keys are hashed once, and the contexts copied for every block. */
  method Fast(p: Hash, key: array<Byte>, prefix: seq<Byte>, data: seq<Byte>, output: array<Byte>, len: nat)
    returns (status: int)
    requires key != output && 8 * key.Length < TWO64 && output.Length >= 20 * ((len + 19) / 20)
    requires |prefix| + |data| + 1 <= MAX_I_D_LEN ==> Fits(prefix, data)
    modifies key, output
    ensures status == if |prefix| + |data| + 1 > MAX_I_D_LEN then -1 else 0
    ensures key[..] == if status == 0 then Rekeyed(p, old(key[..])) else old(key[..])
    ensures status == -1 ==> output[..] == old(output[..])
    ensures status == 0 ==> output[..20 * ((len + 19) / 20)] == FastBlocks(p, old(key[..]), prefix, data, (len + 19) / 20)
    ensures status == 0 ==> output[20 * ((len + 19) / 20)..] == old(output[20 * ((len + 19) / 20)..])
  {
    hide Sha1, Holds, PadKey, Effective, Rekeyed, InputOf, Hmac, FastBlocks;
    if |prefix| + |data| + 1 > MAX_I_D_LEN { return -1; }
    var input, total := Concatenate(prefix, data);
    var n := (len + 19) / 20;
    ghost var k, o := key[..], output[..];
    var short := ShortKey(p, key);
    var ipad, opad, reficontext, refocontext := Keyed(p, short);
    NoFast(p, k, prefix, data);
    var i, currentindex := 0, 0;
    while i < n
      invariant 0 <= i <= n && currentindex == 20 * i && key[..] == Rekeyed(p, k)
      invariant fresh(input) && 1 <= total <= input.Length == MAX_I_D_LEN && input[..total] == InputOf(prefix, data, i)
      invariant output[..] == FastBlocks(p, k, prefix, data, i) + o[20 * i..]
    {
      Passes(p, short, ipad, opad, reficontext, refocontext, input[..total], output, currentindex);
      AppendBlock(o, output[..], FastBlocks(p, k, prefix, data, i), Hmac(p, Effective(p, k), InputOf(prefix, data, i)), i);
      NextFast(p, k, prefix, data, i);
      currentindex := currentindex + 20;
      NextInput(input, total, prefix, data, i);
      i := i + 1;
    }
    return 0;
  }

  lemma PadLength(key: seq<Byte>)
    requires |key| <= MAX_KEY_LEN
    ensures |PadKey(key, 0x36)| == 64 && |PadKey(key, 0x5c)| == 64
  {
  }
}
