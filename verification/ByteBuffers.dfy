/** Byte buffers and 16-byte cipher blocks. */
module ByteBuffers {
  type Byte = bv8
  type Block = s: seq<Byte> | |s| == 16 witness seq(16, _ => 0)

  lemma XorTwice(a: Byte, b: Byte)
    ensures (a ^ b) ^ b == a
  {
  }

  lemma XorZero(a: Byte)
    ensures a ^ 0 == a
  {
  }

  /** memcpy(&to[at], from, n) */
  method Copy(to: array<Byte>, at: nat, from: seq<Byte>)
    requires at + |from| <= to.Length
    modifies to
    ensures to[..] == old(to[..at]) + from + old(to[at + |from|..])
  {
    forall k | 0 <= k < |from| { to[at + k] := from[k]; }
  }

  /** The cast to uint8, counting up from 0. */
  function ToByte(n: nat): (b: Byte) { Small(n % 256) }
  function Small(n: nat): (b: Byte) { if n == 0 then 0 else Succ(Small(n - 1)) }
  function FromByte(b: Byte): (n: nat) { b as int }
  function Succ(b: Byte): (c: Byte) { b + 1 }

  lemma {:induction false} SmallNumber(n: nat)
    requires n < 256
    ensures FromByte(Small(n)) == n
  {
    hide FromByte, Succ;
    if n == 0 {
      ZeroByte();
    } else {
      SmallNumber(n - 1);
      SuccValue(Small(n - 1));
    }
  }

  lemma ZeroByte()
    ensures FromByte(0) == 0
  {
  }

  lemma SmallByte(b: Byte)
    ensures FromByte(b) < 256 && Small(FromByte(b)) == b
  {
    hide Small, Succ;
    ByteRange(b);
    SmallNumber(FromByte(b));
    SameByte(Small(FromByte(b)), b);
  }

  lemma ByteRange(b: Byte)
    ensures FromByte(b) < 256
  {
  }

  lemma SameByte(a: Byte, b: Byte)
    requires FromByte(a) == FromByte(b)
    ensures a == b
  {
  }

  lemma ByteOfNumber(n: nat)
    requires n < 256
    ensures FromByte(ToByte(n)) == n
  {
    hide Small, FromByte;
    SmallNumber(n);
  }

  lemma LowByteOf(n: nat)
    ensures FromByte(ToByte(n)) == n % 256
  {
    hide Small, FromByte;
    SmallNumber(n % 256);
  }

  lemma NumberOfByte(b: Byte)
    ensures FromByte(b) < 256 && ToByte(FromByte(b)) == b
  {
    hide Small, FromByte;
    SmallByte(b);
  }

  lemma SuccValue(b: Byte)
    ensures FromByte(Succ(b)) == if FromByte(b) == 255 then 0 else FromByte(b) + 1
  {
  }

  lemma SuccZero(b: Byte)
    ensures Succ(b) == 0 <==> FromByte(b) == 255
  {
  }

  /** The number a byte string stands for, most significant byte first. */
  function BigEndian(s: seq<Byte>): (n: nat)
  {
    if s == [] then 0 else 256 * BigEndian(s[..|s| - 1]) + FromByte(s[|s| - 1])
  }

  lemma BigEndianMore(s: seq<Byte>, b: Byte)
    ensures BigEndian(s + [b]) == 256 * BigEndian(s) + FromByte(b)
  {
    assert (s + [b])[..|s|] == s;
  }

  /** The first byte weighs most. */
  lemma {:induction false} BigEndianFirst(b: Byte, s: seq<Byte>)
    ensures BigEndian([b] + s) == FromByte(b) * Power256(|s|) + BigEndian(s)
  {
    if s == [] {
      BigEndianMore([], b);
      assert [] + [b] == [b] + s;
    } else {
      var n := |s| - 1;
      BigEndianFirst(b, s[..n]);
      BigEndianMore([b] + s[..n], s[n]);
      assert ([b] + s[..n]) + [s[n]] == [b] + s;
      TimesTwice(FromByte(b), Power256(n));
    }
  }

  lemma TimesTwice(b: nat, p: nat)
    ensures 256 * (b * p) == b * (256 * p)
  {
  }

  function Power256(n: nat): (p: nat)
    ensures p > 0
  {
    if n == 0 then 1 else 256 * Power256(n - 1)
  }

  /** Two bytes hold a number modulo 2^16. */
  lemma BigEndianTwo(n: nat)
    ensures BigEndian([ToByte(n / 256), ToByte(n)]) == n % 0x1_0000
  {
    hide FromByte, ToByte;
    LowByteOf(n / 256); LowByteOf(n);
    BigEndianMore([], ToByte(n / 256));
    BigEndianMore([ToByte(n / 256)], ToByte(n));
    assert [] + [ToByte(n / 256)] == [ToByte(n / 256)];
    assert [ToByte(n / 256)] + [ToByte(n)] == [ToByte(n / 256), ToByte(n)];
    DropByte(n);
  }

  lemma DropByte(n: nat)
    ensures n / 256 % 256 * 256 + n % 256 == n % 0x1_0000
  {
    var q := n / 0x1_0000;
    assert n / 256 == 256 * q + n % 0x1_0000 / 256;
  }

  /** Four bytes hold a number modulo 2^32. */
  lemma BigEndianFour(n: nat)
    ensures BigEndian([ToByte(n / 0x100_0000), ToByte(n / 0x1_0000), ToByte(n / 0x100), ToByte(n)]) == n % 0x1_0000_0000
  {
    hide FromByte, ToByte;
    var s := [ToByte(n / 0x100_0000), ToByte(n / 0x1_0000)];
    BigEndianTwo(n / 0x1_0000);
    assert n / 0x1_0000 / 256 == n / 0x100_0000;
    LowByteOf(n / 256); LowByteOf(n);
    BigEndianMore(s, ToByte(n / 256));
    BigEndianMore(s + [ToByte(n / 256)], ToByte(n));
    assert s + [ToByte(n / 256)] + [ToByte(n)] == [ToByte(n / 0x100_0000), ToByte(n / 0x1_0000), ToByte(n / 0x100), ToByte(n)];
    DropByte(n);
    DropTwoBytes(n);
  }

  lemma DropTwoBytes(n: nat)
    ensures n / 0x1_0000 % 0x1_0000 * 0x1_0000 + n % 0x1_0000 == n % 0x1_0000_0000
  {
    var q := n / 0x1_0000_0000;
    assert n / 0x1_0000 == 0x1_0000 * q + n % 0x1_0000_0000 / 0x1_0000;
  }
}
