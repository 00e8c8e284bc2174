/** The generic hash collector of md32_common.h for big-endian data. Bytes are packed into words as they arrive;
    a word is its four bytes, most significant first. The block function is a parameter. */
module Md32 {
  import opened ByteBuffers

  datatype Word = Word(b0: Byte, b1: Byte, b2: Byte, b3: Byte)

  const CBLOCK: nat := 64
  const LBLOCK: nat := 16
  const TWO32: nat := 0x1_0000_0000
  const TWO64: nat := 0x1_0000_0000_0000_0000
  const ZERO := Word(0, 0, 0, 0)

  function ByteOf(w: Word, k: nat): (b: Byte)
    requires k < 4
  {
    if k == 0 then w.b0 else if k == 1 then w.b1 else if k == 2 then w.b2 else w.b3
  }

  /** The words of a 64-byte block. */
  function Words(s: seq<Byte>): (w: seq<Word>)
    requires |s| == CBLOCK
    ensures |w| == LBLOCK
  {
    seq(16, i requires 0 <= i < 16 => Word(s[4 * i], s[4 * i + 1], s[4 * i + 2], s[4 * i + 3]))
  }

  /** A block function: chaining value and sixteen words. */
  type BlockFunction<!H> = (H, seq<Word>) -> H

  /** The block function folded over whole blocks. */
  function Fold<H>(f: BlockFunction<H>, h: H, s: seq<Byte>): (r: H)
    requires |s| % CBLOCK == 0
    decreases |s|
  {
    if s == [] then h else Fold(f, f(h, Words(s[..64])), s[64..])
  }

  lemma {:induction false} FoldAppend<H>(f: BlockFunction<H>, h: H, s: seq<Byte>, t: seq<Byte>)
    requires |s| % CBLOCK == 0 && |t| % CBLOCK == 0
    ensures Fold(f, h, s + t) == Fold(f, Fold(f, h, s), t)
    decreases |s|
  {
    if s == [] {
      assert s + t == t;
    } else {
      assert (s + t)[..64] == s[..64] && (s + t)[64..] == s[64..] + t;
      FoldAppend(f, f(h, Words(s[..64])), s[64..], t);
    }
  }

  lemma FoldNothing<H>(f: BlockFunction<H>, h: H)
    ensures Fold(f, h, []) == h
  {
  }

  lemma FoldOne<H>(f: BlockFunction<H>, h: H, s: seq<Byte>)
    requires |s| == CBLOCK
    ensures Fold(f, h, s) == f(h, Words(s))
  {
    assert s[..64] == s && s[64..] == [];
  }

  /** The buffer's words start with the bytes t, and the bytes of a last, incomplete word are zero after them. */
  ghost predicate Packs(d: seq<Word>, t: seq<Byte>)
  {
    && |d| == LBLOCK && |t| <= CBLOCK
    && (forall j :: 0 <= j < |t| ==> ByteOf(d[j / 4], j % 4) == t[j])
    && (forall j :: |t| <= j < 64 && j / 4 == |t| / 4 && |t| % 4 != 0 ==> ByteOf(d[j / 4], j % 4) == 0)
  }

  lemma PacksBlock(d: seq<Word>, t: seq<Byte>)
    requires Packs(d, t) && |t| == CBLOCK
    ensures d == Words(t)
  {
    forall i | 0 <= i < 16
      ensures d[i] == Words(t)[i]
    {
      assert (4 * i) / 4 == i && (4 * i + 1) / 4 == i && (4 * i + 2) / 4 == i && (4 * i + 3) / 4 == i;
      assert (4 * i) % 4 == 0 && (4 * i + 1) % 4 == 1 && (4 * i + 2) % 4 == 2 && (4 * i + 3) % 4 == 3;
      assert ByteOf(d[i], 0) == t[4 * i] && ByteOf(d[i], 1) == t[4 * i + 1];
      assert ByteOf(d[i], 2) == t[4 * i + 2] && ByteOf(d[i], 3) == t[4 * i + 3];
    }
  }

  /** A word that keeps the n bytes already packed in word i and continues with u packs t + u. */
  lemma PacksMore(d: seq<Word>, t: seq<Byte>, w: Word, u: seq<Byte>)
    requires Packs(d, t) && u != [] && |t| % 4 + |u| <= 4 && |t| + |u| <= CBLOCK
    requires forall k :: 0 <= k < |t| % 4 ==> ByteOf(w, k) == ByteOf(d[|t| / 4], k)
    requires forall k :: |t| % 4 <= k < |t| % 4 + |u| ==> ByteOf(w, k) == u[k - |t| % 4]
    requires forall k :: |t| % 4 + |u| <= k < 4 ==> ByteOf(w, k) == 0
    ensures Packs(d[|t| / 4 := w], t + u)
  {
    var i, n := |t| / 4, |t| % 4;
    var e, v := d[i := w], t + u;
    forall j | 0 <= j < |v|
      ensures ByteOf(e[j / 4], j % 4) == v[j]
    {
      if j >= |t| {
        assert j / 4 == i && j % 4 == n + (j - |t|);
      } else if j / 4 == i {
        assert ByteOf(d[i], j % 4) == t[j];
      }
    }
    forall j | |v| <= j < 64 && j / 4 == |v| / 4 && |v| % 4 != 0
      ensures ByteOf(e[j / 4], j % 4) == 0
    {
      assert |v| / 4 == i;
      assert j % 4 == n + (j - |t|);
    }
  }

  function Or(a: Byte, b: Byte): (r: Byte) { a | b }

  lemma OrZero(b: Byte)
    ensures Or(0, b) == b
  {
  }

  /** HOST_c2l */
  function LoadWord(s: seq<Byte>, p: nat): (w: Word)
    requires p + 4 <= |s|
  {
    Word(s[p], s[p + 1], s[p + 2], s[p + 3])
  }

  /** HOST_p_c2l: or the bytes from s into the places n to 3, which are still zero. */
  method LoadRest(l: Word, s: seq<Byte>, p: nat, n: nat) returns (w: Word)
    requires n < 4 && p + (4 - n) <= |s|
    requires n > 0 ==> forall k :: n <= k < 4 ==> ByteOf(l, k) == 0
    ensures forall k :: 0 <= k < n ==> ByteOf(w, k) == ByteOf(l, k)
    ensures forall k :: n <= k < 4 ==> ByteOf(w, k) == s[p + (k - n)]
  {
    hide Or;
    WordOfBytes(l);
    w := l;
    var c := p;
    if n == 0 {
      w := Word(s[c], 0, 0, 0);
      c := c + 1;
    }
    if n <= 1 {
      OrZero(s[c]);
      w := w.(b1 := Or(w.b1, s[c]));
      c := c + 1;
    }
    if n <= 2 {
      OrZero(s[c]);
      w := w.(b2 := Or(w.b2, s[c]));
      c := c + 1;
    }
    OrZero(s[c]);
    w := w.(b3 := Or(w.b3, s[c]));
  }

  lemma WordOfBytes(l: Word)
    ensures ByteOf(l, 0) == l.b0 && ByteOf(l, 1) == l.b1 && ByteOf(l, 2) == l.b2 && ByteOf(l, 3) == l.b3
  {
  }

  /** HOST_p_c2l_p: len bytes into the places from n on, not reaching the end of the word. */
  method LoadSome(l: Word, s: seq<Byte>, p: nat, n: nat, len: nat) returns (w: Word)
    requires 1 <= len && n + len < 4 && p + len <= |s|
    requires n > 0 ==> forall k :: n <= k < 4 ==> ByteOf(l, k) == 0
    ensures forall k :: 0 <= k < n ==> ByteOf(w, k) == ByteOf(l, k)
    ensures forall k :: n <= k < n + len ==> ByteOf(w, k) == s[p + (k - n)]
    ensures forall k :: n + len <= k < 4 ==> ByteOf(w, k) == 0
  {
    hide Or;
    WordOfBytes(l);
    w := l;
    var c, rest := p, len;
    if n == 0 {
      w := Word(s[c], 0, 0, 0);
      c, rest := c + 1, rest - 1;
      if rest == 0 { return; }
    }
    if n <= 1 {
      OrZero(s[c]);
      w := w.(b1 := Or(w.b1, s[c]));
      c, rest := c + 1, rest - 1;
      if rest == 0 { return; }
    }
    OrZero(s[c]);
    w := w.(b2 := Or(w.b2, s[c]));
  }

  /** HOST_c2l_p: the first n bytes of a word, from the last of them back. */
  method LoadFirst(s: seq<Byte>, p: nat, n: nat) returns (w: Word)
    requires n < 4 && p + n <= |s|
    ensures forall k :: 0 <= k < n ==> ByteOf(w, k) == s[p + k]
    ensures forall k :: n <= k < 4 ==> ByteOf(w, k) == 0
  {
    hide Or;
    w := ZERO;
    var c := p + n;
    if n == 3 {
      c := c - 1;
      w := Word(0, 0, s[c], 0);
    }
    if n >= 2 {
      c := c - 1;
      OrZero(s[c]);
      w := w.(b1 := Or(w.b1, s[c]));
    }
    if n >= 1 {
      c := c - 1;
      OrZero(s[c]);
      w := w.(b0 := Or(w.b0, s[c]));
    }
  }

  /** Whole words sw to ew - 1 from s. */
  method LoadWords(d: array<Word>, s: seq<Byte>, p: nat, sw: nat, ew: nat, ghost t: seq<Byte>)
    requires |t| == 4 * sw && sw <= ew <= LBLOCK && p + 4 * (ew - sw) <= |s| && Packs(d[..], t)
    modifies d
    ensures Packs(d[..], t + s[p..p + 4 * (ew - sw)])
  {
    hide Packs;
    PacksLength(d[..], t);
    var i, c := sw, p;
    assert t + s[p..p] == t;
    while i < ew
      invariant sw <= i <= ew && c == p + 4 * (i - sw) && d.Length == LBLOCK && Packs(d[..], t + s[p..c])
    {
      ghost var u := t + s[p..c];
      ghost var prev := d[..];
      PacksWord(prev, u, s, c);
      d[i] := LoadWord(s, c);
      assert d[..] == prev[i := LoadWord(s, c)];
      assert u + s[c..c + 4] == t + s[p..c + 4];
      i, c := i + 1, c + 4;
    }
  }

  lemma PacksLength(d: seq<Word>, t: seq<Byte>)
    requires Packs(d, t)
    ensures |d| == LBLOCK && |t| <= CBLOCK
  {
  }

  lemma PacksWord(d: seq<Word>, t: seq<Byte>, s: seq<Byte>, c: nat)
    requires Packs(d, t) && |t| % 4 == 0 && |t| < CBLOCK && c + 4 <= |s|
    ensures Packs(d[|t| / 4 := LoadWord(s, c)], t + s[c..c + 4])
  {
    PacksMore(d, t, LoadWord(s, c), s[c..c + 4]);
  }

  /** Complete word sw, which holds the last sc bytes of t. */
  method CompleteWord(d: array<Word>, s: seq<Byte>, p: nat, sw: nat, sc: nat, l: Word, ghost t: seq<Byte>)
    requires |t| == 4 * sw + sc && sc < 4 && sw < LBLOCK && p + (4 - sc) <= |s| && Packs(d[..], t)
    requires sc > 0 ==> d.Length == LBLOCK && l == d[sw]
    modifies d
    ensures Packs(d[..], t + s[p..p + (4 - sc)])
  {
    ghost var e := d[..];
    assert |t| / 4 == sw && |t| % 4 == sc;
    if sc > 0 { ZeroTail(e, t); }
    hide Packs, ByteOf;
    PacksLength(e, t);
    var w := LoadRest(l, s, p, sc);
    d[sw] := w;
    assert d[..] == e[sw := w];
    PacksMore(e, t, w, s[p..p + (4 - sc)]);
  }

  lemma ZeroTail(d: seq<Word>, t: seq<Byte>)
    requires Packs(d, t) && |t| < CBLOCK && |t| % 4 > 0
    ensures forall k :: |t| % 4 <= k < 4 ==> ByteOf(d[|t| / 4], k) == 0
  {
    forall k | |t| % 4 <= k < 4
      ensures ByteOf(d[|t| / 4], k) == 0
    {
      var j := 4 * (|t| / 4) + k;
      assert j / 4 == |t| / 4 && j % 4 == k;
    }
  }

  /** The branch of HASH_UPDATE that adds to a buffer without filling it. */
  method Append(d: array<Word>, s: seq<Byte>, num: nat, ghost t: seq<Byte>)
    requires |t| == num && 0 < num && s != [] && num + |s| < CBLOCK && Packs(d[..], t)
    modifies d
    ensures Packs(d[..], t + s)
  {
    hide Packs;
    PacksLength(d[..], t);
    var len := |s|;
    var sw, sc := num / 4, num % 4;
    ghost var e := d[..];
    if sc + len < 4 {
      var l := d[sw];
      if sc > 0 { ZeroTail(e, t); }
      var w := LoadSome(l, s, 0, sc, len);
      d[sw] := w;
      assert d[..] == e[sw := w];
      PacksMore(e, t, w, s);
    } else {
      var ew, ec := (num + len) / 4, (num + len) % 4;
      var l := ZERO;
      if sc != 0 { l := d[sw]; }
      CompleteWord(d, s, 0, sw, sc, l, t);
      ghost var u := t + s[0..4 - sc];
      var p := 4 - sc;
      LoadWords(d, s, p, sw + 1, ew, u);
      ghost var v := u + s[p..p + 4 * (ew - (sw + 1))];
      p := p + 4 * (ew - (sw + 1));
      assert v == t + s[..p];
      LoadLast(d, s, p, ew, ec, v);
      assert v + s[p..] == t + s;
    }
  }

  /** if (ec) { HOST_c2l_p(data, l, ec); p[sw] = l; } */
  method LoadLast(d: array<Word>, s: seq<Byte>, p: nat, ew: nat, ec: nat, ghost t: seq<Byte>)
    requires |t| == 4 * ew && ec < 4 && 4 * ew + ec < CBLOCK && p + ec == |s| && Packs(d[..], t)
    modifies d
    ensures Packs(d[..], t + s[p..])
  {
    if ec != 0 {
      ghost var e := d[..];
      var l := LoadFirst(s, p, ec);
      d[ew] := l;
      assert d[..] == e[ew := l];
      PacksMore(e, t, l, s[p..]);
    } else {
      assert t + s[p..] == t;
    }
  }

  /** The branch that fills the buffer: 64 - num bytes of s complete the block. */
  method FillUp(d: array<Word>, s: seq<Byte>, num: nat, ghost t: seq<Byte>)
    requires |t| == num && 0 < num < CBLOCK && num + |s| >= CBLOCK && Packs(d[..], t)
    modifies d
    ensures d[..] == Words(t + s[..CBLOCK - num])
  {
    hide Packs;
    PacksLength(d[..], t);
    var sw, sc := num / 4, num % 4;
    CompleteWord(d, s, 0, sw, sc, d[sw], t);
    ghost var u := t + s[0..4 - sc];
    LoadWords(d, s, 4 - sc, sw + 1, LBLOCK, u);
    assert u + s[4 - sc..4 - sc + 4 * (LBLOCK - (sw + 1))] == t + s[..CBLOCK - num];
    PacksBlock(d[..], t + s[..CBLOCK - num]);
  }

  /** The end of HASH_UPDATE: what is left starts an empty buffer. Word ew is stored even if it gets no byte. */
  method StartBuffer(d: array<Word>, s: seq<Byte>)
    requires d.Length == LBLOCK && 0 < |s| < CBLOCK
    modifies d
    ensures Packs(d[..], s)
  {
    hide Packs;
    var ew, ec := |s| / 4, |s| % 4;
    PacksNothing(d[..]);
    LoadWords(d, s, 0, 0, ew, []);
    ghost var t, e := s[..4 * ew], d[..];
    assert [] + s[0..0 + 4 * (ew - 0)] == t;
    var l := LoadFirst(s, 4 * ew, ec);
    d[ew] := l;
    assert d[..] == e[ew := l];
    if ec > 0 {
      PacksMore(e, t, l, s[4 * ew..]);
      assert t + s[4 * ew..] == s;
    } else {
      assert t == s;
      PacksElsewhere(e, s, ew, l);
    }
  }

  lemma PacksNothing(d: seq<Word>)
    requires |d| == LBLOCK
    ensures Packs(d, [])
  {
  }

  lemma PacksElsewhere(d: seq<Word>, t: seq<Byte>, i: nat, w: Word)
    requires Packs(d, t) && |t| % 4 == 0 && |t| <= 4 * i < CBLOCK
    ensures Packs(d[i := w], t)
  {
  }

  // The message length, and the padded message of section 5.1.1 of FIPS 180-4.

  /** A 32-bit number as a word. */
  function WordOf(n: nat): (w: Word)
  {
    Word(ToByte(n / 0x100_0000), ToByte(n / 0x1_0000), ToByte(n / 0x100), ToByte(n))
  }

  function WordBytes(w: Word): (s: seq<Byte>)
    ensures |s| == 4
  {
    [w.b0, w.b1, w.b2, w.b3]
  }

  /** The bit length modulo 2^64, most significant byte first. */
  function LengthBytes(len: nat): (s: seq<Byte>)
    ensures |s| == 8
  {
    var bits := 8 * len % TWO64;
    WordBytes(WordOf(bits / TWO32)) + WordBytes(WordOf(bits % TWO32))
  }

  /** How many zero bytes bring n + 1 bytes to 8 short of a whole block. */
  function ZeroCount(n: nat): (z: nat)
    ensures (n + 1 + z + 8) % CBLOCK == 0 && z < CBLOCK
  {
    (119 - n % 64) % 64
  }

  function Zeros(n: nat): (s: seq<Byte>)
    ensures |s| == n
  {
    seq(n, _ => 0)
  }

  function Padded(m: seq<Byte>): (s: seq<Byte>)
    ensures |s| % CBLOCK == 0
  {
    m + [0x80] + Zeros(ZeroCount(|m|)) + LengthBytes(|m|)
  }

  /** Section 5.1.1 of FIPS 180-4: the message, a one bit, zeros, and the bit length as the last eight bytes, in the fewest
      whole blocks. */
  lemma PaddedLayout(m: seq<Byte>)
    ensures var s := Padded(m);
      && |m| + 9 <= |s| < |m| + 9 + CBLOCK
      && s[..|m|] == m && s[|m|] == 0x80 && (forall i :: |m| < i < |s| - 8 ==> s[i] == 0)
      && BigEndian(s[|s| - 8..]) == 8 * |m| % TWO64
  {
    hide LengthBytes, BigEndian;
    LengthValue(|m|);
    var s := Padded(m);
    assert s[|s| - 8..] == LengthBytes(|m|);
  }

  lemma LengthValue(len: nat)
    ensures BigEndian(LengthBytes(len)) == 8 * len % TWO64
  {
    hide BigEndian, WordOf, WordBytes;
    var bits := 8 * len % TWO64;
    WordValue(bits / TWO32);
    WordValue(bits % TWO32);
    TwoWords(WordOf(bits / TWO32), WordOf(bits % TWO32));
    Halves(bits);
  }

  lemma Halves(n: nat)
    requires n < TWO64
    ensures n / TWO32 < TWO32 && TWO32 * (n / TWO32) + n % TWO32 == n
  {
  }

  lemma WordValue(n: nat)
    requires n < TWO32
    ensures BigEndian(WordBytes(WordOf(n))) == n
  {
    hide BigEndian, ToByte;
    BigEndianFour(n);
  }

  lemma TwoWords(v: Word, w: Word)
    ensures BigEndian(WordBytes(v) + WordBytes(w)) == TWO32 * BigEndian(WordBytes(v)) + BigEndian(WordBytes(w))
  {
    hide BigEndian, WordBytes;
    FourMore(WordBytes(v), w);
    FourMore([], w);
    assert [] + WordBytes(w) == WordBytes(w) && BigEndian([]) == 0 by { Nothing(); }
  }

  lemma Nothing()
    ensures BigEndian([]) == 0
  {
  }

  /** A word appended to a number. */
  lemma FourMore(s: seq<Byte>, w: Word)
    ensures BigEndian(s + WordBytes(w)) == TWO32 * BigEndian(s)
      + (0x100_0000 * FromByte(w.b0) + 0x1_0000 * FromByte(w.b1) + 0x100 * FromByte(w.b2) + FromByte(w.b3))
  {
    hide BigEndian, FromByte;
    BigEndianMore(s, w.b0);
    BigEndianMore(s + [w.b0], w.b1);
    BigEndianMore(s + [w.b0] + [w.b1], w.b2);
    BigEndianMore(s + [w.b0] + [w.b1] + [w.b2], w.b3);
    assert s + [w.b0] + [w.b1] + [w.b2] + [w.b3] == s + WordBytes(w);
  }

  /** Adding 8 * len to the two-word counter, modulo 2^64. */
  lemma CountBits(nh: nat, nl: nat, len: nat, l: nat, nh': nat, total: nat)
    requires Counts(nh, nl, total)
    requires l == (nl + 8 * (len % TWO32) % TWO32) % TWO32
    requires nh' == ((nh + (if l < nl then 1 else 0)) % TWO32 + len / 0x2000_0000) % TWO32
    ensures Counts(nh', l, total + len)
  {
    var a, b := len / 0x2000_0000, len % 0x2000_0000;
    var c := if l < nl then 1 else 0;
    LowCount(nl, len, l);
    HighCount(nh, c, a, nh', l, 8 * total / TWO64, 8 * (total + len));
  }

  lemma LowCount(nl: nat, len: nat, l: nat)
    requires nl < TWO32 && l == (nl + 8 * (len % TWO32) % TWO32) % TWO32
    ensures nl + 8 * len == l + ((if l < nl then 1 else 0) + len / 0x2000_0000) * TWO32
  {
    var b := len % 0x2000_0000;
    EightTimes(len);
    assert l == if nl + 8 * b < TWO32 then nl + 8 * b else nl + 8 * b - TWO32;
  }

  lemma EightTimes(len: nat)
    ensures 8 * (len % TWO32) % TWO32 == 8 * (len % 0x2000_0000) < TWO32
    ensures 8 * len == len / 0x2000_0000 * TWO32 + 8 * (len % 0x2000_0000)
  {
    var q, r := len % TWO32 / 0x2000_0000, len % 0x2000_0000;
    assert len % TWO32 == q * 0x2000_0000 + r;
    assert 8 * (len % TWO32) == q * TWO32 + 8 * r;
  }

  lemma HighCount(nh: nat, c: nat, a: nat, nh': nat, l: nat, y: nat, n: nat)
    requires nh < TWO32 && c <= 1 && l < TWO32 && nh' == ((nh + c) % TWO32 + a) % TWO32
    requires n == y * TWO64 + nh * TWO32 + l + (c + a) * TWO32
    ensures nh' * TWO32 + l == n % TWO64
  {
    var x := nh + c + a;
    assert nh' == x % TWO32;
    Wrapped(n, y + x / TWO32, nh' * TWO32 + l);
  }

  /** The counter words hold the bit length of n bytes modulo 2^64. */
  ghost predicate Counts(nh: nat, nl: nat, n: nat)
  {
    nh < TWO32 && nl < TWO32 && nh * TWO32 + nl == 8 * n % TWO64
  }

  lemma CountsNothing()
    ensures Counts(0, 0, 0)
  {
  }

  lemma TailOf(m: seq<Byte>, whole: seq<Byte>, tail: seq<Byte>)
    requires m == whole + tail && |whole| % CBLOCK == 0 && |tail| < CBLOCK
    ensures |m| % CBLOCK == |tail| && m[..|m| - |tail|] == whole && m[|m| - |tail|..] == tail
  {
  }

  lemma Wrapped(n: int, q: int, r: int)
    requires n == q * TWO64 + r && 0 <= r < TWO64
    ensures n % TWO64 == r
  {
  }

  /** A hash context. The chaining value's type and the block function are the instance's. */
  class Context<H> {
    const f: BlockFunction<H>
    const iv: H
    const data: array<Word>
    var h: H
    var Nl: nat
    var Nh: nat
    var num: nat
    ghost var msg: seq<Byte>          // everything hashed so far

    ghost predicate Valid()
      reads this, data
    {
      && data.Length == LBLOCK
      && num == |msg| % CBLOCK
      && h == Fold(f, iv, msg[..|msg| - num])
      && Packs(data[..], msg[|msg| - num..])
      && Counts(Nh, Nl, |msg|)
    }

    constructor (block: BlockFunction<H>, start: H)
      ensures Valid() && msg == [] && f == block && iv == start && fresh(data)
    {
      f, iv, h := block, start, start;
      Nl, Nh, num, msg := 0, 0, 0, [];
      data := new Word[16](_ => ZERO);
      new;
      hide Fold, Packs, Counts;
      PacksNothing(data[..]);
      FoldNothing(f, iv);
      CountsNothing();
      assert msg[..|msg| - num] == [] && msg[|msg| - num..] == [];
    }

    /** The counter at the start of HASH_UPDATE. */
    method CountIn(len: nat)
      requires Counts(Nh, Nl, |msg|)
      modifies this`Nl, this`Nh
      ensures Counts(Nh, Nl, |msg| + len)
    {
      ghost var nh, nl := Nh, Nl;
      var l := (Nl + 8 * (len % TWO32) % TWO32) % TWO32;
      if l < Nl { Nh := (Nh + 1) % TWO32; }
      Nh := (Nh + len / 0x2000_0000) % TWO32;
      Nl := l;
      CountBits(nh, nl, len, l, Nh, |msg|);
    }

    /** HASH_BLOCK_DATA_ORDER: sw blocks straight from the input. */
    method Blocks(s: seq<Byte>, sw: nat, ghost m: seq<Byte>)
      requires |s| == CBLOCK * sw && |m| % CBLOCK == 0 && h == Fold(f, iv, m)
      modifies this`h
      ensures h == Fold(f, iv, m + s)
    {
      hide Fold;
      var k := 0;
      assert m + s[..0] == m;
      while k < sw
        invariant 0 <= k <= sw && h == Fold(f, iv, m + s[..64 * k])
      {
        var b := s[64 * k..64 * k + 64];
        FoldAppend(f, iv, m + s[..64 * k], b);
        FoldOne(f, Fold(f, iv, m + s[..64 * k]), b);
        assert m + s[..64 * k] + b == m + s[..64 * (k + 1)];
        h := f(h, Words(b));
        k := k + 1;
      }
      assert s[..64 * k] == s;
    }

    /** The buffered bytes completed by the first bytes of s and hashed. */
    method HashBuffer(s: seq<Byte>, ghost whole: seq<Byte>, ghost tail: seq<Byte>)
      requires 0 < num < CBLOCK && num + |s| >= CBLOCK && |tail| == num && Packs(data[..], tail)
      requires |whole| % CBLOCK == 0 && h == Fold(f, iv, whole)
      modifies this`h, this`num, data
      ensures h == Fold(f, iv, whole + (tail + s[..CBLOCK - old(num)])) && num == 0
    {
      hide Fold, Packs, Words, Counts;
      ghost var b := tail + s[..CBLOCK - num];
      FillUp(data, s, num, tail);
      FoldAppend(f, iv, whole, b);
      FoldOne(f, h, b);
      h := f(h, data[..]);
      num := 0;
    }

    /** HASH_UPDATE */
    method Update(s: seq<Byte>)
      requires Valid()
      modifies this, data
      ensures Valid() && msg == old(msg) + s
    {
      hide Fold, Packs, Words, Counts;
      if s == [] {
        assert msg + s == msg;
        return;
      }
      CountIn(|s|);
      Absorb(s);
    }

    /** HASH_UPDATE after the counter. */
    method Absorb(s: seq<Byte>)
      requires s != [] && data.Length == LBLOCK && num == |msg| % CBLOCK && h == Fold(f, iv, msg[..|msg| - num])
      requires Packs(data[..], msg[|msg| - num..]) && Counts(Nh, Nl, |msg| + |s|)
      modifies this`h, this`num, this`msg, data
      ensures Valid() && msg == old(msg) + s
    {
      hide Fold, Packs, Words, Counts;
      ghost var whole, tail, all := msg[..|msg| - num], msg[|msg| - num..], msg + s;
      assert msg == whole + tail;
      PacksLength(data[..], tail);
      var rest := s;
      if num != 0 {
        if num + |s| < CBLOCK {
          Append(data, s, num, tail);
          num := num + |s|;
          msg := all;
          TailOf(msg, whole, tail + s);
          return;
        }
        var n := CBLOCK - num;
        HashBuffer(s, whole, tail);
        whole := whole + (tail + s[..n]);
        rest := s[n..];
      }
      assert all == whole + rest;
      FinishUpdate(rest, whole, all);
    }

    /** The rest of HASH_UPDATE, with an empty buffer: whole blocks, then what is left. */
    method FinishUpdate(s: seq<Byte>, ghost m: seq<Byte>, ghost msg': seq<Byte>)
      requires num == 0 && data.Length == LBLOCK && |m| % CBLOCK == 0 && h == Fold(f, iv, m) && msg' == m + s
      requires Counts(Nh, Nl, |msg'|)
      modifies this`h, this`num, this`msg, data
      ensures Valid() && msg == msg'
    {
      hide Fold, Packs, Words, Counts;
      msg := msg';
      var sw := |s| / CBLOCK;
      var n := CBLOCK * sw;
      if sw > 0 { Blocks(s[..n], sw, m); } else { assert m + s[..n] == m; }
      var left := s[n..];
      if left != [] {
        num := |left|;
        StartBuffer(data, left);
      } else {
        PacksNothing(data[..]);
      }
      TailOf(msg, m + s[..n], left);
    }

    /** HASH_FINAL returns the block function folded over the padded message, however it was split. The context
        must be initialised again before it is used for another message. */
    method Final() returns (digest: H)
      requires Valid()
      modifies this`h, this`num, data
      ensures digest == Fold(f, iv, Padded(msg))
    {
      hide Fold, Packs, Words, Counts, LengthBytes, Zeros, Padded;
      ghost var whole, tail := msg[..|msg| - num], msg[|msg| - num..];
      PacksLength(data[..], tail);
      var end: seq<Byte> := [0x80, 0, 0, 0];
      var i, j := num / 4, num % 4;
      var l := ZERO;
      if j != 0 { l := data[i]; }
      CompleteWord(data, end, 0, i, j, l, tail);
      ghost var t := tail + [0x80] + Zeros(3 - j);
      MarkAndZeros(tail, j, end);
      i := i + 1;
      if i > LBLOCK - 2 {
        ZeroFill(data, i, LBLOCK, t);         // at most word 15
        MoreZeros(tail + [0x80], 3 - j, 4 * (LBLOCK - i));
        ghost var b := tail + [0x80] + Zeros(63 - num);
        HashBlock(whole, b);
        PaddedTwo(msg, whole, tail);
        whole, t := whole + b, [];
        i := 0;
        PacksNothing(data[..]);
        assert [] + Zeros(56) == Zeros(56);
      } else {
        MoreZeros(tail + [0x80], 3 - j, 4 * (LBLOCK - 2 - i));
        PaddedOne(msg, whole, tail);
      }
      ZeroFill(data, i, LBLOCK - 2, t);
      ghost var u := t + Zeros(4 * (LBLOCK - 2 - i));
      StoreCounter(data, Nh, Nl, u, |msg|);
      HashBlock(whole, u + LengthBytes(|msg|));
      num := 0;
      digest := h;
    }

    /** HASH_BLOCK_HOST_ORDER on a full buffer. */
    method HashBlock(ghost whole: seq<Byte>, ghost b: seq<Byte>)
      requires |b| == CBLOCK && Packs(data[..], b) && |whole| % CBLOCK == 0 && h == Fold(f, iv, whole)
      modifies this`h
      ensures h == Fold(f, iv, whole + b)
    {
      hide Fold, Packs, Words;
      PacksBlock(data[..], b);
      FoldAppend(f, iv, whole, b);
      FoldOne(f, h, b);
      h := f(h, data[..]);
    }
  }

  /** The padding in one block, or in two when fewer than 8 bytes are left after the mark. */
  lemma PaddedOne(m: seq<Byte>, whole: seq<Byte>, tail: seq<Byte>)
    requires m == whole + tail && |whole| % CBLOCK == 0 && |tail| < 56
    ensures Padded(m) == whole + (tail + [0x80] + Zeros(55 - |tail|) + LengthBytes(|m|))
  {
    hide LengthBytes;
    assert |m| % 64 == |tail|;
  }

  lemma PaddedTwo(m: seq<Byte>, whole: seq<Byte>, tail: seq<Byte>)
    requires m == whole + tail && |whole| % CBLOCK == 0 && 56 <= |tail| < 64
    ensures Padded(m) == whole + (tail + [0x80] + Zeros(63 - |tail|)) + (Zeros(56) + LengthBytes(|m|))
  {
    hide LengthBytes;
    assert |m| % 64 == |tail|;
    assert Zeros(119 - |tail|) == Zeros(63 - |tail|) + Zeros(56);
  }

  lemma MoreZeros(t: seq<Byte>, a: nat, b: nat)
    ensures t + Zeros(a) + Zeros(b) == t + Zeros(a + b)
  {
  }

  /** 0x80 and zeros up to the next word. */
  lemma MarkAndZeros(t: seq<Byte>, j: nat, end: seq<Byte>)
    requires j < 4 && end == [0x80, 0, 0, 0]
    ensures t + end[0..0 + (4 - j)] == t + [0x80] + Zeros(3 - j)
  {
    assert end[0..0 + (4 - j)] == [0x80] + Zeros(3 - j);
  }

  /** for (; i < n; i++) p[i] = 0; */
  method ZeroFill(d: array<Word>, i0: nat, n: nat, ghost t: seq<Byte>)
    requires |t| == 4 * i0 && i0 <= n <= LBLOCK && Packs(d[..], t)
    modifies d
    ensures Packs(d[..], t + Zeros(4 * (n - i0)))
  {
    hide Packs;
    PacksLength(d[..], t);
    var i := i0;
    assert t + Zeros(0) == t;
    while i < n
      invariant i0 <= i <= n && d.Length == LBLOCK && Packs(d[..], t + Zeros(4 * (i - i0)))
    {
      ghost var e, u := d[..], t + Zeros(4 * (i - i0));
      d[i] := ZERO;
      assert d[..] == e[i := ZERO];
      PacksMore(e, u, ZERO, Zeros(4));
      assert u + Zeros(4) == t + Zeros(4 * (i + 1 - i0));
      i := i + 1;
    }
  }

  /** p[14] = Nh; p[15] = Nl */
  method StoreCounter(d: array<Word>, nh: nat, nl: nat, ghost t: seq<Byte>, ghost len: nat)
    requires |t| == 56 && Packs(d[..], t) && Counts(nh, nl, len)
    modifies d
    ensures Packs(d[..], t + LengthBytes(len))
  {
    hide Packs, WordOf;
    PacksLength(d[..], t);
    CounterWords(nh, nl, len);
    ghost var e := d[..];
    d[14] := WordOf(nh);
    assert d[..] == e[14 := WordOf(nh)];
    PacksMore(e, t, WordOf(nh), WordBytes(WordOf(nh)));
    ghost var e', u := d[..], t + WordBytes(WordOf(nh));
    d[15] := WordOf(nl);
    assert d[..] == e'[15 := WordOf(nl)];
    PacksMore(e', u, WordOf(nl), WordBytes(WordOf(nl)));
    assert u + WordBytes(WordOf(nl)) == t + LengthBytes(len);
  }

  lemma CounterWords(nh: nat, nl: nat, len: nat)
    requires Counts(nh, nl, len)
    ensures LengthBytes(len) == WordBytes(WordOf(nh)) + WordBytes(WordOf(nl))
  {
    var bits := 8 * len % TWO64;
    assert bits / TWO32 == nh && bits % TWO32 == nl;
  }

  function Flatten(parts: seq<seq<Byte>>): (s: seq<Byte>)
  {
    if parts == [] then [] else Flatten(parts[..|parts| - 1]) + parts[|parts| - 1]
  }

  /** A whole use of a context: the digest depends only on the bytes, not on how they were split. */
  method Digest<H>(f: BlockFunction<H>, iv: H, parts: seq<seq<Byte>>) returns (digest: H)
    ensures digest == Fold(f, iv, Padded(Flatten(parts)))
  {
    hide Fold, Padded;
    var c := new Context<H>(f, iv);
    var i := 0;
    while i < |parts|
      invariant 0 <= i <= |parts| && c.Valid() && fresh(c) && fresh(c.data) && c.f == f && c.iv == iv
      invariant c.msg == Flatten(parts[..i])
    {
      assert parts[..i + 1][..i] == parts[..i];
      c.Update(parts[i]);
      i := i + 1;
    }
    assert parts[..i] == parts;
    digest := c.Final();
  }
}
