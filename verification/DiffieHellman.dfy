/** Diffie-Hellman over the bignum engine. Drawing the secret exponent is left to the caller. */
module DiffieHellman {
  import opened Words
  import opened Bits
  import opened Magnitudes
  import opened BigNums
  import opened ModArith
  import opened Montgomery
  import opened ModExp
  import opened ModExpWord
  import opened Octets
  import ModInverse

  /** The base dh_bn_mod_exp works with: a one-word base loses its sign. */
  ghost function Base(a: BigNum): (v: int)
    reads a
  {
    if |a.d| == 1 then a.Mag() else a.Value()
  }

  /** dh_bn_mod_exp: a one-word base takes the word path. */
  method DhModExp(r: BigNum, a: BigNum, p: BigNum, m: BigNum, mont: Context?, limit: nat) returns (ok: bool)
    requires a.Valid() && p.Valid() && m.Valid() && m.d != []
    requires mont != null && m.Mag() % 2 == 1 ==>
      mont.Valid() && mont.Modulus() == m.Mag() && r != mont.N && r != mont.RR
    modifies r
    ensures ok == old(m.Mag() % 2 == 1)
    ensures ok ==> r.Valid() && r.Value() == ExpResult(old(Base(a)), old(p.Mag()), old(m.Mag()))
  {
    ModInverse.WordList(a.d);
    if |a.d| == 1 {
      ok := ModExpMontWord(r, a.d[0], p, m, mont, limit);
    } else {
      ok := ModExpMont(r, a, p, m, mont, limit);
    }
  }

  /** A result fits the bytes of the modulus. */
  lemma ResultFits(a: int, e: nat, m: nat)
    requires m > 0
    ensures 0 <= ExpResult(a, e, m) <= m
    ensures NumBytes(BitLen(ExpResult(a, e, m))) <= NumBytes(BitLen(m))
  {
    hide Power;
    ModCong(Power(a, e), m);
    var r := ExpResult(a, e, m);
    BitLenBounds(r); BitLenBounds(m);
    if BitLen(r) > BitLen(m) { TwoMonotone(BitLen(m), BitLen(r) - 1); }
  }

  class Party {
    const p: BigNum
    const g: BigNum
    const cache: bool
    var pub: BigNum?
    var priv: BigNum?
    var mont: Context?

    /** The keys come together, the public one being g^priv, and a cached context is one for p. For an
        even p the cached context is whatever a failed BN_MONT_CTX_set left. */
    ghost predicate Valid()
      reads this, p, g, pub, priv, mont, if mont != null then {mont.N, mont.RR} else {}
    {
      && p.Valid() && p.d != [] && g.Valid()
      && (pub == null <==> priv == null)
      && (pub != null ==> p.Mag() > 0 && pub.Valid() && priv.Valid()
                          && pub.Value() == ExpResult(Base(g), priv.Mag(), p.Mag()))
      && (mont != null && p.Mag() % 2 == 1 ==> mont.Valid() && mont.Modulus() == p.Mag())
    }

    /** DH_init. */
    constructor (pbuf: seq<Octet>, base: Word, cacheContext: bool)
      ensures p.Valid() && p.Mag() == BeVal(pbuf) && g.Valid() && g.Value() == base && Base(g) == base
      ensures pub == null && priv == null && mont == null && cache == cacheContext
      ensures p.Mag() > 0 ==> Valid()
    {
      var modulus := new BigNum();
      var generator := new BigNum();
      p, g, cache := modulus, generator, cacheContext;
      pub, priv, mont := null, null, null;
      new;
      FromBytes(pbuf, p);
      g.SetWord(base);
      ZeroMagnitude(p.d);
    }

    /** A new context for p, kept even when setting it fails. */
    method CacheContext(limit: nat) returns (ok: bool)
      requires Valid()
      modifies this`mont
      ensures Valid() && (ok <==> p.Mag() % 2 == 1) && mont != null && fresh(mont) && fresh(mont.N) && fresh(mont.RR)
    {
      mont := new Context();
      ok := mont.Set(p, limit);
    }

    /** The first part of DH_generate_key: a fresh key pair. */
    method MakeKeys(draw: seq<Word>, limit: nat) returns (ok: bool)
      requires Valid() && pub == null && Normal(draw)
      modifies this
      ensures Valid() && (ok <==> p.Mag() % 2 == 1) && (ok <==> pub != null)
      ensures ok ==> fresh(pub) && fresh(priv) && priv.Mag() == Val(draw)
    {
      hide Val, Two, BitLen, Power, ExpResult, Radix, NegatesInverse, Context.Valid, Normal;
      ZeroMagnitude(p.d);
      if cache {
        ok := CacheContext(limit);
        if !ok { return; }
      }
      var secret := new BigNum();
      var result := new BigNum();
      secret.d := draw;
      ok := DhModExp(result, g, secret, p, mont, limit);
      if ok {
        pub := result;
        priv := secret;
      }
    }

    /** DH_generate_key: the key pair is made once; later calls return the same public key. */
    method GenerateKey(pubbuf: array?<Octet>, draw: seq<Word>, limit: nat) returns (ret: nat)
      requires Valid() && Normal(draw)
      requires pubbuf != null ==> pubbuf.Length >= NumBytes(BitLen(p.Mag()))
      modifies this, pubbuf
      ensures Valid()
      ensures old(pub) != null ==> pub == old(pub) && priv == old(priv)
      ensures old(pub) == null ==> (pub != null <==> p.Mag() % 2 == 1)
      ensures old(pub) == null && pub != null ==> fresh(pub) && fresh(priv) && priv.Mag() == Val(draw)
      ensures pub == null ==> ret == 0
      ensures pub != null ==> ret == NumBytes(BitLen(pub.Mag()))
      ensures pub != null && pubbuf != null ==> ret <= pubbuf.Length && Encodes(pubbuf[..ret], pub.Value())
      ensures pubbuf != null && ret <= pubbuf.Length ==> pubbuf[ret..] == old(pubbuf[..])[ret..]
    {
      hide Val, Two, BitLen, Power, ExpResult, Radix, NegatesInverse, Canonical, BeVal;
      if pub == null {
        var ok := MakeKeys(draw, limit);
        if !ok { return 0; }
      }
      ResultFits(Base(g), priv.Mag(), p.Mag());
      PositiveMagnitude(pub);
      if pubbuf != null {
        ret := ToBytes(pub, pubbuf);
      } else {
        var bits := pub.Bits();
        ret := NumBytes(bits);
      }
    }

    /** The secret shared with the peer, as a number. */
    method SharedSecret(peerKey: BigNum, tmp: BigNum, limit: nat) returns (ok: bool)
      requires Valid() && priv != null && peerKey.Valid() && peerKey.Value() >= 0
      requires tmp !in {p, g, priv, pub, peerKey} && (mont != null ==> tmp != mont.N && tmp != mont.RR)
      modifies this`mont, tmp
      ensures Valid() && (ok <==> p.Mag() % 2 == 1)
      ensures ok ==> tmp.Valid() && p.Mag() > 0 && tmp.Value() == ExpResult(peerKey.Value(), priv.Mag(), p.Mag())
    {
      hide Val, Two, BitLen, Power, ExpResult, Radix, NegatesInverse;
      PositiveMagnitude(peerKey);
      if mont == null && cache {
        ok := CacheContext(limit);
        if !ok { return; }
      }
      ok := DhModExp(tmp, peerKey, priv, p, mont, limit);
    }

    /** DH_compute_key on the peer's public bytes. */
    method ComputeKey(key: array<Octet>, peer: seq<Octet>, limit: nat) returns (ret: int)
      requires Valid() && key.Length >= NumBytes(BitLen(p.Mag()))
      modifies this`mont, key
      ensures Valid()
      ensures ret == -1 <==> priv == null || p.Mag() % 2 == 0
      ensures ret != -1 ==> 0 <= ret <= key.Length && p.Mag() > 0
      ensures ret != -1 ==> Encodes(key[..ret], ExpResult(BeVal(peer), priv.Mag(), p.Mag()))
      ensures ret != -1 ==> key[ret..] == old(key[..])[ret..]
      ensures ret == -1 ==> key[..] == old(key[..])
    {
      hide Val, Two, BitLen, Power, ExpResult, Radix, NegatesInverse, Canonical, BeVal;
      var peerKey := new BigNum();
      var tmp := new BigNum.Pooled();
      FromBytes(peer, peerKey);
      if priv == null { return -1; }
      var ok := SharedSecret(peerKey, tmp, limit);
      if !ok { return -1; }
      ResultFits(BeVal(peer), priv.Mag(), p.Mag());
      PositiveMagnitude(tmp);
      ret := ToBytes(tmp, key);
    }
  }

  /** s is the canonical byte string of v. */
  ghost predicate Encodes(s: seq<Octet>, v: int)
  {
    Canonical(s) && BeVal(s) == v
  }

  lemma EncodingUnique(s: seq<Octet>, t: seq<Octet>, v: int)
    requires Encodes(s, v) && Encodes(t, v)
    ensures s == t
  {
    CanonicalUnique(s, t);
  }

  lemma KeyPair(a: Party)
    requires a.Valid() && a.pub != null
    ensures a.priv != null && a.p.Mag() > 0
    ensures a.pub.Value() == ExpResult(Base(a.g), a.priv.Mag(), a.p.Mag())
  {
  }

  lemma PositiveMagnitude(a: BigNum)
    requires a.Value() >= 0
    ensures a.Mag() == a.Value()
  {
  }

  /** (g^y)^x and (g^x)^y reduce to the same number. */
  lemma SecretsAgree(g: int, x: nat, y: nat, m: int)
    requires m > 1
    ensures ExpResult(ExpResult(g, y, m), x, m) == ExpResult(ExpResult(g, x, m), y, m)
  {
    PowerOfReduced(g, y, x, m);
    PowerOfReduced(g, x, y, m);
    PowersCommute(g, x, y);
  }

  lemma PowerOfReduced(g: int, y: nat, x: nat, m: int)
    requires m > 1
    ensures ExpResult(ExpResult(g, y, m), x, m) == Power(Power(g, y), x) % m
  {
    ExpResultExact(g, y, m);
    ModCong(Power(g, y), m);
    if x > 0 {
      ExpOfCongruent(Power(g, y) % m, Power(g, y), x, m);
    }
  }

  /** The bytes a party publishes. */
  method Publish(a: Party, draw: seq<Word>, limit: nat) returns (sent: seq<Octet>)
    requires a.Valid() && Normal(draw) && a.p.Mag() % 2 == 1
    modifies a
    ensures a.Valid() && a.pub != null && a.priv != null && a.p.Mag() > 0
    ensures BeVal(sent) == ExpResult(Base(a.g), a.priv.Mag(), a.p.Mag())
    ensures (a.pub == old(a.pub) && a.priv == old(a.priv)) || (fresh(a.pub) && fresh(a.priv))
  {
    hide Val, Two, BitLen, Power, ExpResult, Radix, Encodes, Party.Valid;
    Constants(a);
    var bits := a.p.Bits();
    var buffer := new Octet[NumBytes(bits)];
    var l := a.GenerateKey(buffer, draw, limit);
    KeyPair(a);
    sent := buffer[..l];
    SentValue(sent, a.pub.Value());
  }

  /** A whole exchange: two parties sharing an odd p > 1 and the same base end with identical key bytes,
      whatever secrets they drew, whichever exponentiation path each takes and whether or not they keep a
      Montgomery context. */
  method Exchange(a: Party, b: Party, x: seq<Word>, y: seq<Word>, keyA: array<Octet>, keyB: array<Octet>, limit: nat)
    returns (na: int, nb: int)
    requires a != b && a.Valid() && b.Valid() && Normal(x) && Normal(y)
    requires a.p.Mag() == b.p.Mag() && a.p.Mag() % 2 == 1 && a.p.Mag() > 1 && Base(a.g) == Base(b.g)
    requires keyA != keyB && keyA.Length >= NumBytes(BitLen(a.p.Mag())) && keyB.Length >= NumBytes(BitLen(a.p.Mag()))
    modifies a, b, keyA, keyB
    ensures 0 <= na <= keyA.Length && 0 <= nb <= keyB.Length && keyA[..na] == keyB[..nb]
  {
    hide Val, Two, BitLen, Power, ExpResult, Radix, Encodes, Party.Valid;
    var sentA := Publish(a, x, limit);
    var sentB := Publish(b, y, limit);
    na := a.ComputeKey(keyA, sentB, limit);
    nb := b.ComputeKey(keyB, sentA, limit);
    SecretsAgree(Base(a.g), a.priv.Mag(), b.priv.Mag(), a.p.Mag());
    EncodingUnique(keyA[..na], keyB[..nb], ExpResult(BeVal(sentB), a.priv.Mag(), a.p.Mag()));
  }

  lemma Constants(a: Party)
    requires a.Valid()
    ensures a.p.Valid() && a.p.d != [] && (a.pub == null <==> a.priv == null)
  {
  }

  lemma SentValue(s: seq<Octet>, v: int)
    requires Encodes(s, v)
    ensures BeVal(s) == v
  {
  }
}
