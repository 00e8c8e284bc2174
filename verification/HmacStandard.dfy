/** RFC 2104 and section 5.2 of RFC 2898 in their own terms: the pads of modules Prf and PassHash, the salted text and the
    exclusive or of the iterations, with the operator on bytes and no function of those modules on the other side. */
module HmacStandard {
  import opened ByteBuffers
  import opened Md32
  import opened Prf
  import opened PassHash

  /** Byte i of a key, zero after its end. */
  function KeyByte(key: seq<Byte>, i: nat): (b: Byte)
  {
    if i < |key| then key[i] else 0
  }

  /** Taking the pad byte off gives the key and zeros. */
  lemma PadBytes(key: seq<Byte>, pad: Byte, i: nat)
    requires |key| <= MAX_KEY_LEN && i < 64
    ensures PadKey(key, pad)[i] ^ pad == if i < |key| then key[i] else 0
  {
    XorTwice(KeyByte(key, i), pad);
  }

  /** Pads are what gives the key back: any 64 bytes that do are the pad. */
  lemma PadUnique(key: seq<Byte>, pad: Byte, s: seq<Byte>)
    requires |key| <= MAX_KEY_LEN && |s| == 64 && forall i :: 0 <= i < 64 ==> s[i] ^ pad == KeyByte(key, i)
    ensures s == PadKey(key, pad)
  {
    hide PadKey;
    forall i | 0 <= i < 64
      ensures s[i] == PadKey(key, pad)[i]
    {
      PadByte(key, pad, i, s[i]);
    }
  }

  function Without(a: Byte, pad: Byte): (b: Byte) { a ^ pad }

  lemma PadByte(key: seq<Byte>, pad: Byte, i: nat, b: Byte)
    requires |key| <= MAX_KEY_LEN && i < 64
    ensures Without(b, pad) == KeyByte(key, i) <==> b == PadKey(key, pad)[i]
  {
    hide PadKey, Without;
    WithoutPad(key, pad, i);
    if Without(b, pad) == KeyByte(key, i) { WithoutCancels(b, PadKey(key, pad)[i], pad); }
  }

  lemma WithoutPad(key: seq<Byte>, pad: Byte, i: nat)
    requires |key| <= MAX_KEY_LEN && i < 64
    ensures Without(PadKey(key, pad)[i], pad) == KeyByte(key, i)
  {
    PadBytes(key, pad, i);
  }

  lemma WithoutCancels(a: Byte, b: Byte, c: Byte)
    requires Without(a, c) == Without(b, c)
    ensures a == b
  {
    XorTwice(a, c);
    XorTwice(b, c);
  }

  /** The key without its trailing zeros. */
  function Stripped(key: seq<Byte>): (k: seq<Byte>)
    ensures |k| <= |key| && k == key[..|k|] && (k != [] ==> k[|k| - 1] != 0)
    ensures forall i :: |k| <= i < |key| ==> key[i] == 0
  {
    if key != [] && key[|key| - 1] == 0 then Stripped(key[..|key| - 1]) else key
  }

  /** Two keys have the same pad exactly if they agree up to trailing zeros. */
  lemma SamePads(key: seq<Byte>, key': seq<Byte>, pad: Byte)
    requires |key| <= MAX_KEY_LEN && |key'| <= MAX_KEY_LEN
    ensures PadKey(key, pad) == PadKey(key', pad) <==> Stripped(key) == Stripped(key')
  {
    hide PadKey, Stripped;
    StrippedBytes(key);
    StrippedBytes(key');
    forall i | 0 <= i < 64
      ensures PadKey(key, pad)[i] == PadKey(key', pad)[i] <==> KeyByte(key, i) == KeyByte(key', i)
    {
      SamePadByte(key, key', pad, i);
    }
    if PadKey(key, pad) == PadKey(key', pad) {
      SameBytes(Stripped(key), Stripped(key'));
    }
  }

  lemma SamePadByte(key: seq<Byte>, key': seq<Byte>, pad: Byte, i: nat)
    requires |key| <= MAX_KEY_LEN && |key'| <= MAX_KEY_LEN && i < 64
    ensures PadKey(key, pad)[i] == PadKey(key', pad)[i] <==> KeyByte(key, i) == KeyByte(key', i)
  {
    hide PadKey, Without, KeyByte;
    PadByte(key', pad, i, PadKey(key, pad)[i]);
    WithoutPad(key, pad, i);
  }

  lemma StrippedBytes(key: seq<Byte>)
    ensures forall i: nat :: KeyByte(Stripped(key), i) == KeyByte(key, i)
  {
  }

  lemma SameBytes(k: seq<Byte>, k': seq<Byte>)
    requires |k| <= 64 && |k'| <= 64 && forall i :: 0 <= i < 64 ==> KeyByte(k, i) == KeyByte(k', i)
    requires (k != [] ==> k[|k| - 1] != 0) && (k' != [] ==> k'[|k'| - 1] != 0)
    ensures k == k'
  {
    assert |k| > |k'| ==> KeyByte(k, |k| - 1) == KeyByte(k', |k| - 1);
    assert |k'| > |k| ==> KeyByte(k, |k'| - 1) == KeyByte(k', |k'| - 1);
    forall i | 0 <= i < |k|
      ensures k[i] == k'[i]
    {
      assert KeyByte(k, i) == KeyByte(k', i);
    }
  }

  /** Section 2 of RFC 2104: for the key, or its hash if it is longer than a block, H(K ^ opad, H(K ^ ipad, text)). */
  lemma HmacIs(p: Hash, key: seq<Byte>, k: seq<Byte>, inner: seq<Byte>, outer: seq<Byte>, text: seq<Byte>)
    requires k == if |key| <= 64 then key else Sha1(p, key)
    requires |inner| == 64 && forall i :: 0 <= i < 64 ==> inner[i] ^ 0x36 == KeyByte(k, i)
    requires |outer| == 64 && forall i :: 0 <= i < 64 ==> outer[i] ^ 0x5c == KeyByte(k, i)
    ensures Hmac(p, Effective(p, key), text) == Sha1(p, outer + Sha1(p, inner + text))
  {
    hide Sha1, PadKey;
    PadUnique(k, 0x36, inner);
    PadUnique(k, 0x5c, outer);
  }

  /** The input of block i: with a prefix, a zero byte ends it; the counter is the last byte. */
  lemma InputLayout(prefix: seq<Byte>, data: seq<Byte>, i: nat)
    requires i < 256
    ensures var s := InputOf(prefix, data, i);
      && |s| == (if prefix == [] then 0 else |prefix| + 1) + |data| + 1
      && (prefix != [] ==> s[..|prefix|] == prefix && s[|prefix|] == 0)
      && s[|s| - 1 - |data|..|s| - 1] == data
      && FromByte(s[|s| - 1]) == i
  {
    SmallNumber(i);
  }

  /** The SSID, of at most 32 bytes, and the number of the block in four bytes, most significant first. */
  lemma SaltLayout(ssid: seq<Byte>, count: nat)
    requires |ssid| <= 32
    ensures var s := Salt(ssid, count);
      |s| == |ssid| + 4 && s[..|ssid|] == ssid && BigEndian(s[|ssid|..]) == count % 0x1_0000_0000
  {
    hide BigEndian, ToByte;
    BigEndianFour(count);
    var s := Salt(ssid, count);
    assert s[|ssid|..] == [ToByte(count / 0x100_0000), ToByte(count / 0x1_0000), ToByte(count / 0x100), ToByte(count)];
  }

  /** The exclusive or of byte i of U_j for j from m to n. */
  function AllXored(prf: TextHash, salt: seq<Byte>, i: nat, m: nat, n: nat): (b: Byte)
    requires i < 20
    decreases n - m
  {
    if m > n then 0 else Iterate(prf, salt, m)[i] ^ AllXored(prf, salt, i, m + 1, n)
  }

  /** The function applied n times, n at least 1. */
  function Iterate(prf: TextHash, s: seq<Byte>, n: nat): (d: Digest)
    decreases n
  {
    if n <= 1 then prf(s) else Iterate(prf, prf(s), n - 1)
  }

  /** Both blocks: byte i is the exclusive or of byte i of 4096 iterations from the salted SSID. */
  lemma DerivedIs(prf: TextHash, ssid: seq<Byte>, i: nat)
    requires i < 40
    ensures |Derived(prf, ssid)| == 40
    ensures Derived(prf, ssid)[i] == AllXored(prf, Salt(ssid, 1 + i / 20), i % 20, 1, 4096)
  {
    hide T, AllXored;
    BlockIs(prf, ssid, 1 + i / 20, 4096, i % 20);
  }

  lemma {:induction false} BlockIs(prf: TextHash, ssid: seq<Byte>, count: nat, n: nat, i: nat)
    requires 1 <= n && i < 20
    ensures T(prf, ssid, count, n)[i] == AllXored(prf, Salt(ssid, count), i, 1, n)
    decreases n
  {
    hide Salt, U;
    IterateIs(prf, ssid, count, n);
    if n == 1 {
      XorZero(U(prf, ssid, count, 1)[i]);
    } else {
      BlockIs(prf, ssid, count, n - 1, i);
      OneMore(prf, Salt(ssid, count), i, 1, n);
    }
  }

  lemma {:induction false} OneMore(prf: TextHash, salt: seq<Byte>, i: nat, m: nat, n: nat)
    requires i < 20 && 1 <= m <= n
    ensures AllXored(prf, salt, i, m, n) == AllXored(prf, salt, i, m, n - 1) ^ Iterate(prf, salt, n)[i]
    decreases n - m
  {
    hide Iterate;
    if m == n {
      OneTerm(prf, salt, i, n);
    } else {
      OneMore(prf, salt, i, m + 1, n);
      XorAssoc(Iterate(prf, salt, m)[i], AllXored(prf, salt, i, m + 1, n - 1), Iterate(prf, salt, n)[i]);
    }
  }

  lemma OneTerm(prf: TextHash, salt: seq<Byte>, i: nat, n: nat)
    requires i < 20 && 1 <= n
    ensures AllXored(prf, salt, i, n, n) == AllXored(prf, salt, i, n, n - 1) ^ Iterate(prf, salt, n)[i]
  {
    hide Iterate;
    XorZero(Iterate(prf, salt, n)[i]);
    ZeroFirst(Iterate(prf, salt, n)[i]);
  }

  lemma ZeroFirst(a: Byte)
    ensures 0 ^ a == a
  {
  }

  lemma XorAssoc(a: Byte, b: Byte, c: Byte)
    ensures a ^ (b ^ c) == (a ^ b) ^ c
  {
  }

  lemma {:induction false} IterateIs(prf: TextHash, ssid: seq<Byte>, count: nat, n: nat)
    requires 1 <= n
    ensures U(prf, ssid, count, n) == Iterate(prf, Salt(ssid, count), n)
  {
    hide Salt;
    if n > 1 {
      IterateIs(prf, ssid, count, n - 1);
      IterateLast(prf, Salt(ssid, count), n);
    }
  }

  lemma {:induction false} IterateLast(prf: TextHash, s: seq<Byte>, n: nat)
    requires 1 < n
    ensures Iterate(prf, s, n) == prf(Iterate(prf, s, n - 1))
    decreases n
  {
    if n > 2 { IterateLast(prf, prf(s), n - 1); }
  }
}
