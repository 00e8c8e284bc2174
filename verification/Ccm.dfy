/** Counter mode, CBC-MAC and CCM (RFC 3610 with 8-byte MACs and 2-byte lengths) over any block cipher; CCM only
    uses its encryption direction. */
module Ccm {
  import opened ByteBuffers
  import opened Options

  type Encryption = Block -> Block

  const BLOCK_SZ: nat := 16
  const CTR_MAXBLOCKS: nat := 0x1_0000
  const AUTH_LEN: nat := 8
  const NONCE_LEN: nat := 13
  const AAD_MAX_LEN: nat := 0xfeff
  const CRYPT_FLAGS: Byte := 0x01
  const AUTH_FLAGS: Byte := 0x19
  const AUTH_AAD_FLAG: Byte := 0x40

  // Counter mode.

  /** The number in the last two bytes of a counter block. */
  function CounterValue(b: Block): (n: nat)
  {
    FromByte(b[14]) * 256 + FromByte(b[15])
  }

  /** The k-th counter block: the start value plus k, modulo 2^16. */
  function Counter(start: Block, k: nat): (b: Block)
  {
    var n := (CounterValue(start) + k) % 0x1_0000;
    start[14 := ToByte(n / 256)][15 := ToByte(n % 256)]
  }

  lemma CounterStart(start: Block)
    ensures Counter(start, 0) == start
  {
    hide ToByte, FromByte;
    NumberOfByte(start[14]); NumberOfByte(start[15]);
  }

  /** Adding one with a carry from the last byte into the one before adds one to the value. */
  lemma CounterNext(start: Block, k: nat, b: Block)
    requires b == Counter(start, k)
    ensures Counter(start, k + 1) ==
      if Succ(b[15]) == 0 then b[15 := Succ(b[15])][14 := Succ(b[14])] else b[15 := Succ(b[15])]
  {
    hide ToByte, FromByte, Succ;
    var v := CounterValue(start);
    var n, m := (v + k) % 0x1_0000, (v + k + 1) % 0x1_0000;
    assert m == if n == 0xffff then 0 else n + 1;
    ByteOfNumber(n / 256); ByteOfNumber(n % 256);
    SuccValue(b[15]); SuccValue(b[14]); SuccZero(b[15]);
    NumberOfByte(Succ(b[15])); NumberOfByte(Succ(b[14])); NumberOfByte(b[14]);
  }

  /** A byte string xored with the key stream that starts at a counter block. */
  function Stream(E: Encryption, start: Block, s: seq<Byte>): (r: seq<Byte>)
    ensures |r| == |s|
  {
    seq(|s|, i requires 0 <= i < |s| => s[i] ^ E(Counter(start, i / 16))[i % 16])
  }

  /** Counter mode is its own inverse. */
  lemma StreamTwice(E: Encryption, start: Block, s: seq<Byte>)
    ensures Stream(E, start, Stream(E, start, s)) == s
  {
    forall i | 0 <= i < |s|
      ensures Stream(E, start, Stream(E, start, s))[i] == s[i]
    {
      XorTwice(s[i], E(Counter(start, i / 16))[i % 16]);
    }
  }

  /** Source and destination are the same place or different buffers. */
  ghost predicate Overlay(src: array<Byte>, sp: nat, dst: array<Byte>, dp: nat)
  {
    src != dst || sp == dp
  }

  /** The first i bytes of s have been crypted into d', the rest of the buffer is as in d. */
  ghost predicate CryptedUpTo(E: Encryption, start: Block, s: seq<Byte>, d: seq<Byte>, d': seq<Byte>, dp: nat, i: nat)
  {
    && i <= |s| && |d| == |d'| && dp + |s| <= |d|
    && (forall j :: dp <= j < dp + i ==> d'[j] == Stream(E, start, s)[j - dp])
    && (forall j :: 0 <= j < dp || dp + i <= j < |d| ==> d'[j] == d[j])
  }

  /** What is still to be read is as at the start. */
  ghost predicate Unread(src: seq<Byte>, sp: nat, s: seq<Byte>, i: nat)
  {
    sp + |s| <= |src| && forall j :: sp + i <= j < sp + |s| ==> src[j] == s[j - sp]
  }

  /** The bytes of one block, or of what is left of it. */
  method CryptBlock(E: Encryption, start: Block, tmp: Block, src: array<Byte>, sp: nat, dst: array<Byte>, dp: nat,
                    n: nat, k: nat, ghost s: seq<Byte>, ghost d: seq<Byte>)
    requires tmp == E(Counter(start, k)) && n <= 16 && 16 * k + n <= |s| && Overlay(src, sp, dst, dp)
    requires CryptedUpTo(E, start, s, d, dst[..], dp, 16 * k) && Unread(src[..], sp, s, 16 * k)
    modifies dst
    ensures CryptedUpTo(E, start, s, d, dst[..], dp, 16 * k + n) && Unread(src[..], sp, s, 16 * k + n)
  {
    var i := 0;
    while i < n
      invariant 0 <= i <= n
      invariant CryptedUpTo(E, start, s, d, dst[..], dp, 16 * k + i) && Unread(src[..], sp, s, 16 * k + i)
    {
      StreamAt(E, start, s, k, i);
      dst[dp + (16 * k + i)] := src[sp + (16 * k + i)] ^ tmp[i];
      i := i + 1;
    }
  }

  lemma StreamAt(E: Encryption, start: Block, s: seq<Byte>, k: nat, i: nat)
    requires i < 16 && 16 * k + i < |s|
    ensures Stream(E, start, s)[16 * k + i] == s[16 * k + i] ^ E(Counter(start, k))[i]
  {
  }

  /** ctr[15]++, carrying into ctr[14]. */
  method Bump(ctr: array<Byte>, ghost start: Block, ghost k: nat)
    requires ctr.Length == 16 && ctr[..] == Counter(start, k)
    modifies ctr
    ensures ctr[..] == Counter(start, k + 1)
  {
    CounterNext(start, k, ctr[..]);
    ctr[15] := Succ(ctr[15]);
    if ctr[15] == 0 { ctr[14] := Succ(ctr[14]); }
  }

  /** aes_ctr_crypt: at most 2^16 blocks; in place or from one buffer to another. */
  method CtrCrypt(E: Encryption, nonce: Block, len: nat, src: array<Byte>, sp: nat, dst: array<Byte>, dp: nat)
    returns (status: int)
    requires sp + len <= src.Length && dp + len <= dst.Length && Overlay(src, sp, dst, dp)
    modifies dst
    ensures status == if len > BLOCK_SZ * CTR_MAXBLOCKS then -1 else 0
    ensures status == -1 ==> dst[..] == old(dst[..])
    ensures status == 0 ==> dst[..] == old(dst[..dp]) + Stream(E, nonce, old(src[sp..sp + len])) + old(dst[dp + len..])
  {
    hide Stream, Counter;
    if len > BLOCK_SZ * CTR_MAXBLOCKS { return -1; }
    ghost var s, d := src[sp..sp + len], dst[..];
    var ctr := new Byte[16](i requires 0 <= i < 16 => nonce[i]);
    assert ctr[..] == nonce;
    CounterStart(nonce);
    var k := 0;
    while k < len / BLOCK_SZ
      invariant 0 <= k <= len / BLOCK_SZ && ctr[..] == Counter(nonce, k)
      invariant CryptedUpTo(E, nonce, s, d, dst[..], dp, 16 * k) && Unread(src[..], sp, s, 16 * k)
    {
      CryptBlock(E, nonce, E(ctr[..]), src, sp, dst, dp, 16, k, s, d);
      Bump(ctr, nonce, k);
      k := k + 1;
    }
    if len % BLOCK_SZ != 0 {
      CryptBlock(E, nonce, E(ctr[..]), src, sp, dst, dp, len % BLOCK_SZ, k, s, d);
    }
    Assembled(E, nonce, s, d, dst[..], dp);
    return 0;
  }

  lemma Assembled(E: Encryption, start: Block, s: seq<Byte>, d: seq<Byte>, d': seq<Byte>, dp: nat)
    requires CryptedUpTo(E, start, s, d, d', dp, |s|)
    ensures d' == d[..dp] + Stream(E, start, s) + d[dp + |s|..]
  {
    hide Stream;
  }

  // CBC-MAC.

  /** x with the bytes of p exclusive-ored into its first bytes. */
  function Mask(x: Block, p: seq<Byte>): (r: Block)
    requires |p| <= 16
  {
    seq(16, i requires 0 <= i < 16 => if i < |p| then x[i] ^ p[i] else x[i])
  }

  /** Chaining whole blocks. */
  function CbcMac(E: Encryption, x: Block, s: seq<Byte>): (r: Block)
    requires |s| % 16 == 0
    decreases |s|
  {
    if s == [] then x else CbcMac(E, E(Mask(x, s[..16])), s[16..])
  }

  /** Zero bytes up to a whole number of blocks. */
  function Pad(s: seq<Byte>): (r: seq<Byte>)
    ensures |r| % 16 == 0 && |r| < |s| + 16
  {
    s + seq((16 - |s| % 16) % 16, _ => 0)
  }

  lemma {:induction false} CbcMacAppend(E: Encryption, x: Block, s: seq<Byte>, t: seq<Byte>)
    requires |s| % 16 == 0 && |t| % 16 == 0
    ensures CbcMac(E, x, s + t) == CbcMac(E, CbcMac(E, x, s), t)
    decreases |s|
  {
    if s == [] {
      assert s + t == t;
    } else {
      assert (s + t)[..16] == s[..16] && (s + t)[16..] == s[16..] + t;
      CbcMacAppend(E, E(Mask(x, s[..16])), s[16..], t);
    }
  }

  lemma OneBlock(E: Encryption, x: Block, s: seq<Byte>)
    requires |s| == 16
    ensures CbcMac(E, x, s) == E(Mask(x, s))
  {
    assert s[..16] == s && s[16..] == [];
  }

  /** Padding by zeros does not change what is masked in. */
  lemma MaskPadded(x: Block, p: seq<Byte>)
    requires 0 < |p| <= 16
    ensures |Pad(p)| == 16 && Mask(x, Pad(p)) == Mask(x, p)
  {
    var z := Pad(p);
    forall i | 0 <= i < 16
      ensures Mask(x, z)[i] == Mask(x, p)[i]
    {
      XorZero(x[i]);
    }
  }

  lemma MaskMore(x: Block, p: seq<Byte>, b: Byte)
    requires |p| < 16
    ensures Mask(x, p + [b]) == Mask(x, p)[|p| := x[|p|] ^ b] && Mask(x, p)[|p|] == x[|p|]
  {
  }

  lemma MaskNothing(x: Block)
    ensures Mask(x, []) == x
  {
  }

  /** The register while bytes are absorbed one at a time: whole blocks are chained, the rest is masked in. */
  ghost predicate Absorbed(E: Encryption, x: Block, s: seq<Byte>, X: seq<Byte>, k: nat)
  {
    && k < 16 && k == |s| % 16
    && X == Mask(CbcMac(E, x, s[..|s| - k]), s[|s| - k..])
  }

  /** s is whole blocks followed by the k bytes of part. */
  ghost predicate Split(s: seq<Byte>, whole: seq<Byte>, part: seq<Byte>)
  {
    s == whole + part && |whole| % 16 == 0 && |part| < 16
  }

  lemma Absorbing(E: Encryption, x: Block, s: seq<Byte>, X: seq<Byte>, whole: seq<Byte>, part: seq<Byte>)
    requires Split(s, whole, part)
    ensures Absorbed(E, x, s, X, |part|) <==> X == Mask(CbcMac(E, x, whole), part)
  {
    hide CbcMac, Mask;
    assert s[..|s| - |part|] == whole && s[|s| - |part|..] == part;
  }

  /** X[k] ^= b, and an encryption once the register is full. */
  method AbsorbByte(E: Encryption, X: array<Byte>, k: nat, b: Byte, ghost x: Block, ghost s: seq<Byte>) returns (k': nat)
    requires X.Length == 16 && Absorbed(E, x, s, X[..], k)
    modifies X
    ensures Absorbed(E, x, s + [b], X[..], k')
  {
    hide CbcMac, Mask;
    ghost var whole, part := s[..|s| - k], s[|s| - k..];
    assert Split(s, whole, part);
    hide Absorbed, Split;
    ghost var y := CbcMac(E, x, whole);
    MaskMore(y, part, b);
    X[k] := X[k] ^ b;
    assert X[..] == Mask(y, part + [b]);
    k' := k + 1;
    SplitMore(s, whole, part, b);
    if k' == BLOCK_SZ {
      CbcMacAppend(E, x, whole, part + [b]);
      OneBlock(E, y, part + [b]);
      Copy(X, 0, E(X[..]));
      MaskNothing(E(Mask(y, part + [b])));
      Absorbing(E, x, s + [b], X[..], whole + (part + [b]), []);
      k' := 0;
    } else {
      Absorbing(E, x, s + [b], X[..], whole, part + [b]);
    }
  }

  lemma SplitMore(s: seq<Byte>, whole: seq<Byte>, part: seq<Byte>, b: Byte)
    requires Split(s, whole, part)
    ensures |part| < 15 ==> Split(s + [b], whole, part + [b])
    ensures |part| == 15 ==> Split(s + [b], whole + (part + [b]), [])
    ensures |whole| % 16 == 0
  {
    assert s + [b] == whole + (part + [b]);
  }

  /** A last encryption if the register is partly filled. */
  method Finish(E: Encryption, X: array<Byte>, k: nat, ghost x: Block, ghost s: seq<Byte>)
    requires X.Length == 16 && Absorbed(E, x, s, X[..], k)
    modifies X
    ensures X[..] == CbcMac(E, x, Pad(s))
  {
    hide CbcMac, Mask, Pad;
    ghost var whole, part := s[..|s| - k], s[|s| - k..];
    ghost var y := CbcMac(E, x, whole);
    assert Split(s, whole, part);
    PadSplit(s, whole, part);
    if k % BLOCK_SZ != 0 {
      Copy(X, 0, E(X[..]));
      MaskPadded(y, part);
      OneBlock(E, y, Pad(part));
      CbcMacAppend(E, x, whole, Pad(part));
    } else {
      MaskNothing(y);
    }
  }

  lemma PadSplit(s: seq<Byte>, whole: seq<Byte>, part: seq<Byte>)
    requires Split(s, whole, part)
    ensures Pad(s) == whole + Pad(part) && Pad([]) == [] && |Pad(part)| % 16 == 0
    ensures part == [] ==> Pad(s) == whole
  {
    WholeAndPart(|whole|, |part|);
    var z := seq((16 - |part| % 16) % 16, _ => 0 as Byte);
    assert Pad(s) == s + z && Pad(part) == part + z;
    if part == [] { assert z == []; }
  }

  lemma WholeAndPart(w: nat, p: nat)
    requires w % 16 == 0 && p < 16
    ensures (w + p) % 16 == p
  {
  }

  // CCM.

  /** B_0 of section 2.2 of RFC 3610: flags, nonce and the message length in two bytes. */
  function FirstBlock(nonce: seq<Byte>, withAad: bool, len: nat): (b: Block)
    requires |nonce| == NONCE_LEN
  {
    [if withAad then AUTH_FLAGS | AUTH_AAD_FLAG else AUTH_FLAGS] + nonce + [ToByte(len / 256), ToByte(len)]
  }

  /** The two-byte length, the additional data and zeros. */
  function AadBlocks(aad: seq<Byte>): (s: seq<Byte>)
    ensures |s| % 16 == 0
  {
    if aad == [] then [] else Pad([ToByte(|aad| / 256), ToByte(|aad|)] + aad)
  }

  /** The blocks B_0 .. B_n the MAC chains, from a zero register. */
  function Formatted(nonce: seq<Byte>, aad: seq<Byte>, m: seq<Byte>): (s: seq<Byte>)
    requires |nonce| == NONCE_LEN
    ensures |s| % 16 == 0
  {
    var b0, a, d := FirstBlock(nonce, aad != [], |m|), AadBlocks(aad), Pad(m);
    WholeBlocks(|b0|, |a|, |d|);
    b0 + a + d
  }

  lemma WholeBlocks(a: nat, b: nat, c: nat)
    requires a % 16 == 0 && b % 16 == 0 && c % 16 == 0
    ensures (a + b + c) % 16 == 0
  {
  }

  const ZERO_BLOCK: Block := [0, 0, 0, 0, 0, 0, 0, 0, 0, 0, 0, 0, 0, 0, 0, 0]

  function Mac(E: Encryption, nonce: seq<Byte>, aad: seq<Byte>, m: seq<Byte>): (t: seq<Byte>)
    requires |nonce| == NONCE_LEN
    ensures |t| == AUTH_LEN
  {
    CbcMac(E, ZERO_BLOCK, Formatted(nonce, aad, m))[..AUTH_LEN]
  }

  lemma MaskZero(s: Block)
    ensures Mask(ZERO_BLOCK, s) == s
  {
    forall i | 0 <= i < 16
      ensures Mask(ZERO_BLOCK, s)[i] == s[i]
    {
      ZeroXor(s[i]);
    }
  }

  lemma ZeroXor(a: Byte)
    ensures 0 ^ a == a
  {
  }

  /** The additional data, a byte at a time after its length. */
  method AbsorbAad(E: Encryption, X: array<Byte>, aad: seq<Byte>)
    requires X.Length == 16 && aad != []
    modifies X
    ensures X[..] == CbcMac(E, old(X[..]), AadBlocks(aad))
  {
    hide CbcMac, Mask, ToByte, Absorbed;
    ghost var x: Block := X[..];
    Empty(E, x);
    assert [] + [ToByte(|aad| / 256)] == [ToByte(|aad| / 256)];
    var k := AbsorbByte(E, X, 0, ToByte(|aad| / 256), x, []);
    k := AbsorbByte(E, X, k, ToByte(|aad|), x, [ToByte(|aad| / 256)]);
    ghost var head := [ToByte(|aad| / 256), ToByte(|aad|)];
    assert [ToByte(|aad| / 256)] + [ToByte(|aad|)] == head + aad[..0];
    var j := 0;
    while j < |aad|
      invariant 0 <= j <= |aad| && Absorbed(E, x, head + aad[..j], X[..], k)
    {
      assert head + aad[..j + 1] == head + aad[..j] + [aad[j]];
      k := AbsorbByte(E, X, k, aad[j], x, head + aad[..j]);
      j := j + 1;
    }
    assert aad[..j] == aad;
    Finish(E, X, k, x, head + aad);
  }

  lemma Empty(E: Encryption, x: Block)
    ensures Absorbed(E, x, [], x, 0)
  {
    MaskNothing(x);
  }

  /** One whole block of the message. */
  method AbsorbBlock(E: Encryption, X: array<Byte>, b: seq<Byte>, ghost x: Block, ghost s: seq<Byte>)
    requires X.Length == 16 && |b| == 16 && |s| % 16 == 0 && X[..] == CbcMac(E, x, s)
    modifies X
    ensures X[..] == CbcMac(E, x, s + b)
  {
    hide CbcMac;
    ghost var y: Block := X[..];
    var i := 0;
    MaskNothing(y);
    assert b[..0] == [];
    while i < 16
      invariant 0 <= i <= 16 && X[..] == Mask(y, b[..i])
    {
      MaskMore(y, b[..i], b[i]);
      assert b[..i + 1] == b[..i] + [b[i]];
      X[i] := X[i] ^ b[i];
      i := i + 1;
    }
    assert b[..16] == b;
    Copy(X, 0, E(X[..]));
    OneBlock(E, y, b);
    CbcMacAppend(E, x, s, b);
  }

  /** The message: whole blocks, then what is left, the padding being implicit. */
  method AbsorbData(E: Encryption, X: array<Byte>, m: seq<Byte>)
    requires X.Length == 16
    modifies X
    ensures X[..] == CbcMac(E, old(X[..]), Pad(m))
  {
    hide CbcMac, Mask;
    ghost var x: Block := X[..];
    NoBlocks(E, x);
    var k := 0;
    while k < |m| / BLOCK_SZ
      invariant 0 <= k <= |m| / BLOCK_SZ && X[..] == CbcMac(E, x, m[..16 * k])
    {
      AbsorbBlock(E, X, m[16 * k..16 * k + 16], x, m[..16 * k]);
      assert m[..16 * (k + 1)] == m[..16 * k] + m[16 * k..16 * k + 16];
      k := k + 1;
    }
    ghost var whole, part := m[..16 * k], m[16 * k..];
    ghost var y: Block := X[..];
    var i := 0;
    MaskNothing(y);
    assert part[..0] == [];
    while i < |m| % BLOCK_SZ
      invariant 0 <= i <= |m| % BLOCK_SZ && X[..] == Mask(y, part[..i])
    {
      MaskMore(y, part[..i], part[i]);
      assert part[..i + 1] == part[..i] + [part[i]];
      X[i] := X[i] ^ m[16 * k + i];
      i := i + 1;
    }
    assert part[..i] == part && m == whole + part;
    assert Absorbed(E, x, m, X[..], i);
    Finish(E, X, i, x, m);
  }

  lemma NoBlocks(E: Encryption, x: Block)
    ensures CbcMac(E, x, []) == x
  {
  }

  /** aes_ccm_mac: CBC-MAC over the formatted blocks. */
  method CcmMac(E: Encryption, nonce: seq<Byte>, aad: seq<Byte>, m: seq<Byte>) returns (status: int, mac: seq<Byte>)
    requires |nonce| == NONCE_LEN
    ensures status == if |aad| > AAD_MAX_LEN then -1 else 0
    ensures status == 0 ==> mac == Mac(E, nonce, aad, m)
  {
    hide CbcMac, Mask, Pad, ToByte;
    mac := [];
    if |aad| > AAD_MAX_LEN { return -1, []; }
    var b0 := FirstBlock(nonce, aad != [], |m|);
    var X := new Byte[16](_ => 0);
    Copy(X, 0, E(b0));
    MaskZero(b0);
    OneBlock(E, ZERO_BLOCK, b0);
    ghost var x1: Block := CbcMac(E, ZERO_BLOCK, b0);
    assert X[..] == x1;
    NoBlocks(E, x1);
    if aad != [] { AbsorbAad(E, X, aad); }
    assert X[..] == CbcMac(E, x1, AadBlocks(aad));
    AbsorbData(E, X, m);
    CbcMacAppend(E, ZERO_BLOCK, b0, AadBlocks(aad));
    CbcMacAppend(E, ZERO_BLOCK, b0 + AadBlocks(aad), Pad(m));
    mac := X[..AUTH_LEN];
    status := 0;
  }

  /** The counter block with counter n in its last byte. */
  function StartCounter(nonce: seq<Byte>, n: Byte): (b: Block)
    requires |nonce| == NONCE_LEN
  {
    [CRYPT_FLAGS] + nonce + [0, n]
  }

  /** Ciphertext followed by the encrypted MAC; None for lengths the functions refuse. */
  function Sealed(E: Encryption, nonce: seq<Byte>, aad: seq<Byte>, m: seq<Byte>): (r: Option<seq<Byte>>)
    requires |nonce| == NONCE_LEN
  {
    if |aad| > AAD_MAX_LEN || |m| > BLOCK_SZ * CTR_MAXBLOCKS then None
    else Some(Stream(E, StartCounter(nonce, 1), m) + Stream(E, StartCounter(nonce, 0), Mac(E, nonce, aad, m)))
  }

  function Opened(E: Encryption, nonce: seq<Byte>, aad: seq<Byte>, c: seq<Byte>): (r: Option<seq<Byte>>)
    requires |nonce| == NONCE_LEN
  {
    if |c| < AUTH_LEN || |c| - AUTH_LEN > BLOCK_SZ * CTR_MAXBLOCKS || |aad| > AAD_MAX_LEN then None
    else
      var m := Stream(E, StartCounter(nonce, 1), c[..|c| - AUTH_LEN]);
      if Stream(E, StartCounter(nonce, 0), c[|c| - AUTH_LEN..]) == Mac(E, nonce, aad, m) then Some(m) else None
  }

  /** What was sealed opens to itself. */
  lemma OpenSealed(E: Encryption, nonce: seq<Byte>, aad: seq<Byte>, m: seq<Byte>)
    requires |nonce| == NONCE_LEN && Sealed(E, nonce, aad, m).Some?
    ensures Opened(E, nonce, aad, Sealed(E, nonce, aad, m).value) == Some(m)
  {
    hide Stream, Mac;
    var c := Sealed(E, nonce, aad, m).value;
    StreamTwice(E, StartCounter(nonce, 1), m);
    StreamTwice(E, StartCounter(nonce, 0), Mac(E, nonce, aad, m));
    assert c[..|c| - AUTH_LEN] == Stream(E, StartCounter(nonce, 1), m);
    assert c[|c| - AUTH_LEN..] == Stream(E, StartCounter(nonce, 0), Mac(E, nonce, aad, m));
  }

  /** Only what sealing produces is accepted. */
  lemma SealOpened(E: Encryption, nonce: seq<Byte>, aad: seq<Byte>, c: seq<Byte>)
    requires |nonce| == NONCE_LEN && Opened(E, nonce, aad, c).Some?
    ensures Sealed(E, nonce, aad, Opened(E, nonce, aad, c).value) == Some(c)
  {
    hide Stream, Mac;
    var n := |c| - AUTH_LEN;
    StreamTwice(E, StartCounter(nonce, 1), c[..n]);
    StreamTwice(E, StartCounter(nonce, 0), c[n..]);
    assert c == c[..n] + c[n..];
  }

  /** The MAC crypted in its own buffer. */
  method CryptMac(E: Encryption, start: Block, tag: seq<Byte>) returns (mac: seq<Byte>)
    requires |tag| == AUTH_LEN
    ensures mac == Stream(E, start, tag)
  {
    hide Stream;
    var X := new Byte[8](i requires 0 <= i < 8 => tag[i]);
    assert X[0..0 + AUTH_LEN] == tag;
    var _ := CtrCrypt(E, start, AUTH_LEN, X, 0, X, 0);
    mac := X[..];
  }

  /** aes_ccm_encrypt, in place or from one buffer to another. */
  method CcmEncrypt(E: Encryption, nonce: seq<Byte>, aad: seq<Byte>, len: nat, ptxt: array<Byte>, ctxt: array<Byte>)
    returns (status: int, mac: seq<Byte>)
    requires |nonce| == NONCE_LEN && len <= ptxt.Length && len <= ctxt.Length
    modifies ctxt
    ensures var sealed := old(Sealed(E, nonce, aad, ptxt[..len]));
      status == (if sealed.Some? then 0 else -1) && (status == 0 ==> ctxt[..len] + mac == sealed.value)
    ensures ctxt[len..] == old(ctxt[len..])
  {
    hide Stream, Mac, StartCounter;
    ghost var m := ptxt[..len];
    var tag;
    status, tag := CcmMac(E, nonce, aad, ptxt[..len]);
    mac := [];
    if status != 0 { return -1, []; }
    mac := CryptMac(E, StartCounter(nonce, 0), tag);
    assert ptxt[0..0 + len] == m;
    status := CtrCrypt(E, StartCounter(nonce, 1), len, ptxt, 0, ctxt, 0);
  }

  /** Counter mode over the first n bytes: the bytes after them stay, in both buffers. */
  method CryptMessage(E: Encryption, start: Block, n: nat, src: array<Byte>, dst: array<Byte>) returns (status: int)
    requires n <= src.Length && n <= dst.Length
    modifies dst
    ensures status == if n > BLOCK_SZ * CTR_MAXBLOCKS then -1 else 0
    ensures status == 0 ==> dst[..n] == Stream(E, start, old(src[..n]))
    ensures dst[n..] == old(dst[n..]) && src[n..] == old(src[n..])
  {
    hide Stream;
    ghost var d, s := dst[..], src[..n];
    assert src[0..0 + n] == s;
    status := CtrCrypt(E, start, n, src, 0, dst, 0);
    if status == 0 { Pieces(dst[..], [], Stream(E, start, s), d[n..]); }
  }

  /** Counter mode over the MAC, the eight bytes from n on. */
  method CryptTail(E: Encryption, start: Block, n: nat, src: array<Byte>, dst: array<Byte>)
    requires n + AUTH_LEN <= src.Length && n + AUTH_LEN <= dst.Length
    modifies dst
    ensures dst[n..n + AUTH_LEN] == Stream(E, start, old(src[n..n + AUTH_LEN]))
    ensures dst[..n] == old(dst[..n]) && dst[n + AUTH_LEN..] == old(dst[n + AUTH_LEN..])
  {
    hide Stream;
    ghost var d, s := dst[..], src[n..n + AUTH_LEN];
    var _ := CtrCrypt(E, start, AUTH_LEN, src, n, dst, n);
    Pieces(dst[..], d[..n], Stream(E, start, s), d[n + AUTH_LEN..]);
  }

  lemma Pieces(d: seq<Byte>, p: seq<Byte>, s: seq<Byte>, t: seq<Byte>)
    requires d == p + s + t
    ensures d[..|p|] == p && d[|p|..|p| + |s|] == s && d[|p| + |s|..] == t
  {
  }

  /** aes_ccm_decrypt: len counts the MAC, whose decryption ends up after the message. */
  method CcmDecrypt(E: Encryption, nonce: seq<Byte>, aad: seq<Byte>, len: nat, ctxt: array<Byte>, ptxt: array<Byte>)
    returns (status: int)
    requires |nonce| == NONCE_LEN && len <= ctxt.Length && len <= ptxt.Length
    modifies ptxt
    ensures var plain := old(Opened(E, nonce, aad, ctxt[..len]));
      status == (if plain.Some? then 0 else -1) && (status == 0 ==> ptxt[..len - AUTH_LEN] == plain.value)
    ensures ptxt[len..] == old(ptxt[len..])
  {
    hide Stream, Mac, StartCounter;
    if len < AUTH_LEN { return -1; }          // the difference wraps to a length CTR refuses
    ghost var c := ctxt[..len];
    var n := len - AUTH_LEN;
    ghost var tail := ctxt[n..];
    assert c[..n] == ctxt[..n] && c[n..] == tail[..AUTH_LEN];
    status := CryptMessage(E, StartCounter(nonce, 1), n, ctxt, ptxt);
    if status != 0 { return -1; }
    assert ctxt[n..n + AUTH_LEN] == tail[..AUTH_LEN];
    ghost var rest := ptxt[n..];
    CryptTail(E, StartCounter(nonce, 0), n, ctxt, ptxt);
    assert ptxt[len..] == rest[AUTH_LEN..];
    var X;
    status, X := CcmMac(E, nonce, aad, ptxt[..n]);
    if status != 0 { return -1; }
    if X != ptxt[n..len] { return -1; }
    return 0;
  }
}
