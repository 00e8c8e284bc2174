/** RFC 3610 in its own terms: the layout of the blocks of module Ccm, the separation of the key stream, and the first
    packet vector of section 8. */
module CcmStandard {
  import opened ByteBuffers
  import opened Options
  import opened Ccm

  const L: nat := 2                          // bytes of the length field

  /** B_0 of section 2.2: the flags are 64 * Adata + 8 * ((M - 2) / 2) + (L - 1), then the nonce and the length of the
      message. The field holds that length exactly below 2^16; the functions accept up to 2^20 bytes. */
  lemma LengthField(nonce: seq<Byte>, withAad: bool, len: nat)
    requires |nonce| == NONCE_LEN
    ensures var b := FirstBlock(nonce, withAad, len);
      && FromByte(b[0]) == 64 * (if withAad then 1 else 0) + 8 * ((AUTH_LEN - 2) / 2) + (L - 1)
      && b[1..16 - L] == nonce
      && BigEndian(b[16 - L..]) == len % 0x1_0000
      && (BigEndian(b[16 - L..]) == len <==> len < 0x1_0000)
  {
    hide ToByte, BigEndian;
    BigEndianTwo(len);
    var b := FirstBlock(nonce, withAad, len);
    assert b[14..] == [ToByte(len / 256), ToByte(len)];
    FlagNumbers();
  }

  lemma FlagNumbers()
    ensures FromByte(AUTH_FLAGS) == 25 && FromByte(AUTH_FLAGS | AUTH_AAD_FLAG) == 89 && FromByte(CRYPT_FLAGS) == 1
  {
  }

  /** The additional data follows its length in two bytes, which is exact for all the lengths the functions accept,
      those below 2^16 - 2^8; then come the fewest zeros that fill the last block. */
  lemma AadHeader(aad: seq<Byte>)
    ensures aad == [] ==> AadBlocks(aad) == []
    ensures aad != [] ==> BlocksOf(AadBlocks(aad), |aad| + 2) && AadBlocks(aad)[2..2 + |aad|] == aad
    ensures aad != [] ==> BigEndian(AadBlocks(aad)[..2]) == |aad| % 0x1_0000
    ensures AAD_MAX_LEN + 1 == 0x1_0000 - 0x100
    ensures aad != [] && |aad| <= AAD_MAX_LEN ==> BigEndian(AadBlocks(aad)[..2]) == |aad|
  {
    hide ToByte, BigEndian;
    if aad != [] {
      BigEndianTwo(|aad|);
      var h := [ToByte(|aad| / 256), ToByte(|aad|)];
      Padding(h + aad);
      assert Pad(h + aad)[..2] == h;
    }
  }

  /** A byte string of n bytes of content, in the fewest whole blocks, zeros at the end. */
  ghost predicate BlocksOf(s: seq<Byte>, n: nat)
  {
    |s| % 16 == 0 && n <= |s| < n + 16 && forall i :: n <= i < |s| ==> s[i] == 0
  }

  lemma Padding(s: seq<Byte>)
    ensures BlocksOf(Pad(s), |s|) && Pad(s)[..|s|] == s
  {
  }

  /** A_i of section 2.3: the flags are L - 1, then the nonce and the counter modulo 2^16. */
  lemma CounterBlock(nonce: seq<Byte>, n: Byte, k: nat)
    requires |nonce| == NONCE_LEN
    ensures var a := Counter(StartCounter(nonce, n), k);
      && FromByte(a[0]) == L - 1
      && a[1..16 - L] == nonce
      && BigEndian(a[16 - L..]) == (FromByte(n) + k) % 0x1_0000
  {
    hide ToByte, BigEndian, FromByte;
    var v := (FromByte(n) + k) % 0x1_0000;
    var a := Counter(StartCounter(nonce, n), k);
    ZeroByte();
    BigEndianTwo(v);
    LowByteOf(v); LowByteOf(v % 256);
    SameByte(ToByte(v), ToByte(v % 256));
    assert a[14..] == [ToByte(v / 256), ToByte(v)];
    FlagNumbers();
  }

  /** The block crypting the MAC is none of those crypting the message exactly up to 16 * 65535 bytes; the functions
      accept one block more, and that block is crypted like the MAC. */
  lemma StreamSeparate(nonce: seq<Byte>, len: nat)
    requires |nonce| == NONCE_LEN && len <= BLOCK_SZ * CTR_MAXBLOCKS
    ensures (forall k :: 0 <= k < (len + 15) / 16 ==> Counter(StartCounter(nonce, 1), k) != StartCounter(nonce, 0))
      <==> len <= 16 * 65535
  {
    hide Counter, StartCounter, BigEndian, FromByte;
    CounterStart(StartCounter(nonce, 0));
    CounterBlock(nonce, 0, 0);
    OneAndZero();
    forall k | 0 <= k < 65536
      ensures Counter(StartCounter(nonce, 1), k) == StartCounter(nonce, 0) <==> k == 65535
    {
      CounterBlock(nonce, 1, k);
      SameCounter(Counter(StartCounter(nonce, 1), k), StartCounter(nonce, 0), nonce);
    }
    assert Counter(StartCounter(nonce, 1), 65535) == StartCounter(nonce, 0);
    assert len > 16 * 65535 <==> 65535 < (len + 15) / 16;
  }

  lemma OneAndZero()
    ensures FromByte(1) == 1 && FromByte(0) == 0
  {
  }

  lemma SameCounter(a: Block, b: Block, nonce: seq<Byte>)
    requires a[1..14] == b[1..14] == nonce && FromByte(a[0]) == FromByte(b[0])
    ensures a == b <==> BigEndian(a[14..]) == BigEndian(b[14..])
  {
    hide FromByte;
    SameByte(a[0], b[0]);
    TwoOf(a); TwoOf(b);
    ByteRange(a[14]); ByteRange(a[15]); ByteRange(b[14]); ByteRange(b[15]);
    if BigEndian(a[14..]) == BigEndian(b[14..]) {
      SameByte(a[14], b[14]); SameByte(a[15], b[15]);
      assert a == [a[0]] + a[1..14] + [a[14], a[15]] && b == [b[0]] + b[1..14] + [b[14], b[15]];
    }
  }

  lemma TwoOf(a: Block)
    ensures BigEndian(a[14..]) == 256 * FromByte(a[14]) + FromByte(a[15])
  {
    hide FromByte;
    BigEndianMore([], a[14]); BigEndianMore([a[14]], a[15]);
    assert [] + [a[14]] == [a[14]] && [a[14]] + [a[15]] == a[14..];
  }

  /** No two blocks of the message use the same counter. */
  lemma CountersDistinct(nonce: seq<Byte>, j: nat, k: nat)
    requires |nonce| == NONCE_LEN && j < k < 65536
    ensures Counter(StartCounter(nonce, 1), j) != Counter(StartCounter(nonce, 1), k)
  {
    hide Counter, StartCounter, BigEndian, FromByte;
    OneAndZero();
    CounterBlock(nonce, 1, j);
    CounterBlock(nonce, 1, k);
  }

  // Packet vector 1 of section 8, for any function that agrees with the vector's cipher on its seven blocks.

  const NONCE: seq<Byte> := [0x00, 0x00, 0x00, 0x03, 0x02, 0x01, 0x00, 0xa0, 0xa1, 0xa2, 0xa3, 0xa4, 0xa5]
  const HEADER: seq<Byte> := [0x00, 0x01, 0x02, 0x03, 0x04, 0x05, 0x06, 0x07]
  const MESSAGE: seq<Byte> := [
      0x08, 0x09, 0x0a, 0x0b, 0x0c, 0x0d, 0x0e, 0x0f, 0x10, 0x11, 0x12, 0x13, 0x14, 0x15, 0x16, 0x17,
      0x18, 0x19, 0x1a, 0x1b, 0x1c, 0x1d, 0x1e]
  const CIPHERTEXT: seq<Byte> := [
      0x58, 0x8c, 0x97, 0x9a, 0x61, 0xc6, 0x63, 0xd2, 0xf0, 0x66, 0xd0, 0xc2, 0xc0, 0xf9, 0x89, 0x80,
      0x6d, 0x5f, 0x6b, 0x61, 0xda, 0xc3, 0x84, 0x17, 0xe8, 0xd1, 0x2c, 0xfd, 0xf9, 0x26, 0xe0]
  const TAG: seq<Byte> := [0x2d, 0xc6, 0x97, 0xe4, 0x11, 0xca, 0x83, 0xa8]

  // The blocks B_i, the registers before and after each encryption, the counters A_i and the key stream S_i.

  const B0: Block := [0x59, 0x00, 0x00, 0x00, 0x03, 0x02, 0x01, 0x00, 0xa0, 0xa1, 0xa2, 0xa3, 0xa4, 0xa5, 0x00, 0x17]
  const B1: Block := [0x00, 0x08, 0x00, 0x01, 0x02, 0x03, 0x04, 0x05, 0x06, 0x07, 0x00, 0x00, 0x00, 0x00, 0x00, 0x00]
  const B2: Block := [0x08, 0x09, 0x0a, 0x0b, 0x0c, 0x0d, 0x0e, 0x0f, 0x10, 0x11, 0x12, 0x13, 0x14, 0x15, 0x16, 0x17]
  const B3: Block := [0x18, 0x19, 0x1a, 0x1b, 0x1c, 0x1d, 0x1e, 0x00, 0x00, 0x00, 0x00, 0x00, 0x00, 0x00, 0x00, 0x00]
  const X0: Block := [0xeb, 0x9d, 0x55, 0x47, 0x73, 0x09, 0x55, 0xab, 0x23, 0x1e, 0x0a, 0x2d, 0xfe, 0x4b, 0x90, 0xd6]
  const Y1: Block := [0xeb, 0x95, 0x55, 0x46, 0x71, 0x0a, 0x51, 0xae, 0x25, 0x19, 0x0a, 0x2d, 0xfe, 0x4b, 0x90, 0xd6]
  const X1: Block := [0xcd, 0xb6, 0x41, 0x1e, 0x3c, 0xdc, 0x9b, 0x4f, 0x5d, 0x92, 0x58, 0xb6, 0x9e, 0xe7, 0xf0, 0x91]
  const Y2: Block := [0xc5, 0xbf, 0x4b, 0x15, 0x30, 0xd1, 0x95, 0x40, 0x4d, 0x83, 0x4a, 0xa5, 0x8a, 0xf2, 0xe6, 0x86]
  const X2: Block := [0x9c, 0x38, 0x40, 0x5e, 0xa0, 0x3c, 0x1b, 0xc9, 0x04, 0xb5, 0x8b, 0x40, 0xc7, 0x6c, 0xa2, 0xeb]
  const Y3: Block := [0x84, 0x21, 0x5a, 0x45, 0xbc, 0x21, 0x05, 0xc9, 0x04, 0xb5, 0x8b, 0x40, 0xc7, 0x6c, 0xa2, 0xeb]
  const X3: Block := [0x2d, 0xc6, 0x97, 0xe4, 0x11, 0xca, 0x83, 0xa8, 0x60, 0xc2, 0xc4, 0x06, 0xcc, 0xaa, 0x54, 0x2f]
  const A0: Block := [0x01, 0x00, 0x00, 0x00, 0x03, 0x02, 0x01, 0x00, 0xa0, 0xa1, 0xa2, 0xa3, 0xa4, 0xa5, 0x00, 0x00]
  const A1: Block := [0x01, 0x00, 0x00, 0x00, 0x03, 0x02, 0x01, 0x00, 0xa0, 0xa1, 0xa2, 0xa3, 0xa4, 0xa5, 0x00, 0x01]
  const A2: Block := [0x01, 0x00, 0x00, 0x00, 0x03, 0x02, 0x01, 0x00, 0xa0, 0xa1, 0xa2, 0xa3, 0xa4, 0xa5, 0x00, 0x02]
  const S0: Block := [0x3a, 0x2e, 0x46, 0xc8, 0xec, 0x33, 0xa5, 0x48, 0x56, 0x20, 0x54, 0x2c, 0x02, 0x2c, 0xc0, 0x7d]
  const S1: Block := [0x50, 0x85, 0x9d, 0x91, 0x6d, 0xcb, 0x6d, 0xdd, 0xe0, 0x77, 0xc2, 0xd1, 0xd4, 0xec, 0x9f, 0x97]
  const S2: Block := [0x75, 0x46, 0x71, 0x7a, 0xc6, 0xde, 0x9a, 0xff, 0x64, 0x0c, 0x9c, 0x06, 0xde, 0x6d, 0x0d, 0x8f]

  ghost predicate PacketCipher(E: Encryption)
  {
    E(B0) == X0 && E(Y1) == X1 && E(Y2) == X2 && E(Y3) == X3 && E(A0) == S0 && E(A1) == S1 && E(A2) == S2
  }

  lemma PacketVector1(E: Encryption)
    requires PacketCipher(E)
    ensures Sealed(E, NONCE, HEADER, MESSAGE) == Some(CIPHERTEXT)
  {
    hide Stream, Mac, StartCounter, PacketCipher, XorWith, CIPHERTEXT;
    PacketMac(E);
    PacketStream(E);
    PacketXors();
    assert |HEADER| == 8 && |MESSAGE| == 23;
  }

  lemma PacketMac(E: Encryption)
    requires PacketCipher(E)
    ensures Mac(E, NONCE, HEADER, MESSAGE) == TAG
  {
    hide CbcMac, Formatted, Mask, B0, B1, B2, B3, X0, X1, X2, X3, Y1, Y2, Y3, A0, A1, A2, S0, S1, S2;
    PacketBlocks();
    PacketMasks();
    Chain(E, ZERO_BLOCK, B0, B1 + (B2 + B3));
    Chain(E, X0, B1, B2 + B3);
    Chain(E, X1, B2, B3);
    Chain(E, X2, B3, []);
    assert B3 + [] == B3;
    NoBlocks(E, X3);
    PacketTag();
  }

  lemma PacketTag()
    ensures X3[..AUTH_LEN] == TAG
  {
  }

  /** Flags, nonce and length; the header after its length; the message. */
  lemma PacketBlocks()
    ensures Formatted(NONCE, HEADER, MESSAGE) == B0 + (B1 + (B2 + B3))
  {
    hide ToByte;
    PacketLengths();
    assert FirstBlock(NONCE, true, 23) == B0;
    assert AadBlocks(HEADER) == B1;
    assert Pad(MESSAGE) == B2 + B3;
  }

  lemma PacketLengths()
    ensures ToByte(0) == 0 && ToByte(8) == 8 && ToByte(23) == 0x17 && ToByte(1) == 1 && ToByte(2) == 2
  {
    hide Small;
    LowByteOf(0); LowByteOf(8); LowByteOf(23); LowByteOf(1); LowByteOf(2);
    assert FromByte(0) == 0 && FromByte(8) == 8 && FromByte(0x17) == 23 && FromByte(1) == 1 && FromByte(2) == 2;
    SameByte(ToByte(0), 0); SameByte(ToByte(8), 8); SameByte(ToByte(23), 0x17);
    SameByte(ToByte(1), 1); SameByte(ToByte(2), 2);
  }

  lemma PacketMasks()
    ensures Mask(ZERO_BLOCK, B0) == B0 && Mask(X0, B1) == Y1 && Mask(X1, B2) == Y2 && Mask(X2, B3) == Y3
  {
    hide Mask;
    MaskZero(B0);
    PacketMask1();
    PacketMask2();
    PacketMask3();
  }

  lemma PacketMask1()
    ensures Mask(X0, B1) == Y1
  {
  }

  lemma PacketMask2()
    ensures Mask(X1, B2) == Y2
  {
  }

  lemma PacketMask3()
    ensures Mask(X2, B3) == Y3
  {
  }

  lemma Chain(E: Encryption, x: Block, b: Block, s: seq<Byte>)
    requires |s| % 16 == 0
    ensures |b + s| % 16 == 0 && CbcMac(E, x, b + s) == CbcMac(E, E(Mask(x, b)), s)
  {
    hide Mask;
    assert (b + s)[..16] == b && (b + s)[16..] == s;
  }

  lemma PacketStream(E: Encryption)
    requires PacketCipher(E)
    ensures Stream(E, StartCounter(NONCE, 1), MESSAGE) == XorWith(B2, S1) + XorWith(B3[..7], S2)
    ensures Stream(E, StartCounter(NONCE, 0), TAG) == XorWith(TAG, S0)
  {
    hide Stream, StartCounter, XorWith, Counter;
    hide MESSAGE, B0, B1, B2, B3, X0, X1, X2, X3, Y1, Y2, Y3, A0, A1, A2, S0, S1, S2;
    PacketCounters();
    PacketParts();
    StreamBlocks(E, StartCounter(NONCE, 1), B2, B3[..7]);
    StreamBlocks(E, StartCounter(NONCE, 0), TAG, []);
    NothingXored(E(Counter(StartCounter(NONCE, 0), 1)));
    assert TAG + [] == TAG && XorWith(TAG, S0) + [] == XorWith(TAG, S0);
  }

  lemma NothingXored(k: Block)
    ensures XorWith([], k) == []
  {
  }

  lemma PacketParts()
    ensures MESSAGE == B2 + B3[..7]
  {
  }

  lemma PacketCounters()
    ensures Counter(StartCounter(NONCE, 0), 0) == A0
    ensures Counter(StartCounter(NONCE, 1), 0) == A1 && Counter(StartCounter(NONCE, 1), 1) == A2
  {
    hide ToByte;
    PacketLengths();
    assert FromByte(0) == 0 && FromByte(1) == 1;
  }

  function XorWith(s: seq<Byte>, k: Block): (r: seq<Byte>)
    requires |s| <= 16
  {
    seq(|s|, i requires 0 <= i < |s| => s[i] ^ k[i])
  }

  lemma StreamBlocks(E: Encryption, start: Block, s: seq<Byte>, t: seq<Byte>)
    requires |s| <= 16 && |t| <= 16 && (|s| == 16 || t == [])
    ensures Stream(E, start, s + t) == XorWith(s, E(Counter(start, 0))) + XorWith(t, E(Counter(start, 1)))
  {
  }

  lemma PacketXors()
    ensures XorWith(B2, S1) + XorWith(B3[..7], S2) + XorWith(TAG, S0) == CIPHERTEXT
  {
    hide XorWith;
    PacketXor1(); PacketXor2(); PacketXor0();
  }

  lemma PacketXor1()
    ensures XorWith(B2, S1) == CIPHERTEXT[..16]
  {
  }

  lemma PacketXor2()
    ensures XorWith(B3[..7], S2) == CIPHERTEXT[16..23]
  {
  }

  lemma PacketXor0()
    ensures XorWith(TAG, S0) == CIPHERTEXT[23..]
  {
  }
}
