/** The WPA password hash: in one go, and in steps of any size. The specification is over any hash of texts; the
    methods run HMAC keyed by the password, which has at most 64 bytes, so that hashing leaves it alone. */
module PassHash {
  import opened ByteBuffers
  import opened Prf

  /** A hash of texts. */
  type TextHash = seq<Byte> -> Digest

  /** HMAC under a key. */
  function Under(p: Hash, key: seq<Byte>): (f: TextHash)
    requires |key| <= MAX_KEY_LEN
  {
    (text: seq<Byte>) => Hmac(p, key, text)
  }

  /** hmac_sha1 keyed by the password. */
  method HashText(p: Hash, password: array<Byte>, text: seq<Byte>) returns (d: Digest)
    requires password.Length <= MAX_KEY_LEN && |text| <= 36
    modifies password
    ensures password[..] == old(password[..]) && d == Under(p, password[..])(text)
  {
    hide Hmac;
    var digest := new Byte[20](_ => 0);
    HmacSha1(p, text, password, digest, 0);
    d := digest[..];
  }

  const ITERATIONS: nat := 4096

  function XorBytes(a: Digest, b: Digest): (r: Digest)
  {
    seq(20, i requires 0 <= i < 20 => a[i] ^ b[i])
  }

  /** The salt of block i: the SSID cut to 32 bytes, and i in four bytes. */
  function Salt(ssid: seq<Byte>, count: nat): (s: seq<Byte>)
  {
    (if |ssid| > 32 then ssid[..32] else ssid)
    + [ToByte(count / 0x100_0000), ToByte(count / 0x1_0000), ToByte(count / 0x100), ToByte(count)]
  }

  /** U_n of section 5.2 of RFC 2898. */
  function U(prf: TextHash, ssid: seq<Byte>, count: nat, n: nat): (u: Digest)
    requires n >= 1
  {
    if n == 1 then prf(Salt(ssid, count)) else prf(U(prf, ssid, count, n - 1))
  }

  /** The exclusive or of U_1 to U_n. */
  function T(prf: TextHash, ssid: seq<Byte>, count: nat, n: nat): (t: Digest)
    requires n >= 1
  {
    if n == 1 then U(prf, ssid, count, 1) else XorBytes(T(prf, ssid, count, n - 1), U(prf, ssid, count, n))
  }

  /** The two blocks of the derived key. */
  function Derived(prf: TextHash, ssid: seq<Byte>): (k: seq<Byte>)
    ensures |k| == 40
  {
    T(prf, ssid, 1, ITERATIONS) + T(prf, ssid, 2, ITERATIONS)
  }

  /** output[j] ^= digest[j] */
  method XorInto(output: array<Byte>, at: nat, digest: Digest)
    requires at + 20 <= output.Length
    modifies output
    ensures output[at..at + 20] == XorBytes(old(output[at..at + 20]), digest)
    ensures output[..at] == old(output[..at]) && output[at + 20..] == old(output[at + 20..])
  {
    ghost var o := output[at..at + 20];
    var j := 0;
    while j < 20
      invariant 0 <= j <= 20
      invariant forall k :: 0 <= k < 20 ==> output[at + k] == if k < j then o[k] ^ digest[k] else o[k]
      invariant output[..at] == old(output[..at]) && output[at + 20..] == old(output[at + 20..])
    {
      output[at + j] := output[at + j] ^ digest[j];
      j := j + 1;
    }
  }

  /** memcpy of a digest into the output. */
  method Put(output: array<Byte>, at: nat, digest: Digest)
    requires at + 20 <= output.Length
    modifies output
    ensures output[at..at + 20] == digest
    ensures output[..at] == old(output[..at]) && output[at + 20..] == old(output[at + 20..])
  {
    Copy(output, at, digest);
  }

  lemma SaltLength(ssid: seq<Byte>, count: nat)
    ensures |Salt(ssid, count)| <= 36
  {
  }

  /** F: one block, all iterations at once. */
  method F(p: Hash, password: array<Byte>, ssid: seq<Byte>, iterations: nat, count: nat, output: array<Byte>, at: nat)
    requires password.Length <= MAX_KEY_LEN && password != output && iterations >= 1 && at + 20 <= output.Length
    modifies password, output
    ensures password[..] == old(password[..])
    ensures output[at..at + 20] == T(Under(p, password[..]), ssid, count, iterations)
    ensures output[..at] == old(output[..at]) && output[at + 20..] == old(output[at + 20..])
  {
    hide XorBytes, Salt, Under;
    ghost var key := password[..];
    SaltLength(ssid, count);
    var digest := HashText(p, password, Salt(ssid, count));
    Put(output, at, digest);
    var i := 1;
    while i < iterations
      invariant 1 <= i <= iterations && password[..] == key && digest == U(Under(p, key), ssid, count, i)
      invariant output[at..at + 20] == T(Under(p, key), ssid, count, i)
      invariant output[..at] == old(output[..at]) && output[at + 20..] == old(output[at + 20..])
    {
      digest := HashText(p, password, digest);
      XorInto(output, at, digest);
      i := i + 1;
    }
  }

  /** passhash; length is the password's as a string. */
  method OneGo(p: Hash, password: array<Byte>, length: nat, ssid: seq<Byte>, output: array<Byte>) returns (status: int)
    requires password.Length <= MAX_KEY_LEN && password != output && output.Length >= 40
    modifies password, output
    ensures status == if length < 8 || length > 63 || |ssid| > 32 then 1 else 0
    ensures password[..] == old(password[..])
    ensures status == 0 ==> output[..40] == Derived(Under(p, password[..]), ssid)
    ensures status == 1 ==> output[..] == old(output[..])
    ensures output[40..] == old(output[40..])
  {
    hide T, Under;
    if length < 8 || length > 63 || |ssid| > 32 { return 1; }
    ghost var rest := output[40..];
    F(p, password, ssid, ITERATIONS, 1, output, 0);
    assert output[20..][20..] == output[40..];
    ghost var first := output[0..20];
    F(p, password, ssid, ITERATIONS, 2, output, 20);
    assert output[..20] == first;
    assert output[..40] == output[..20] + output[20..40];
    return 0;
  }

  /** passhash_t */
  class Stepwise {
    const p: Hash
    const password: array<Byte>
    var ssid: seq<Byte>
    var count: nat
    var iters: nat
    var digest: Digest
    const output: array<Byte>

    /** The keyed hash the iterations run. */
    ghost function Prf(): (f: TextHash)
      requires password.Length <= MAX_KEY_LEN
      reads password
    {
      Under(p, password[..])
    }

    /** Iterations done, of two times 4096. */
    ghost function Progress(): (n: int)
      reads this
    {
      (count - 1) * ITERATIONS + iters
    }

    ghost predicate Valid()
      reads this, password, output
    {
      && password.Length <= MAX_KEY_LEN && password != output
      && output.Length == 40 && 1 <= count <= 3 && iters < ITERATIONS && (count == 3 ==> iters == 0)
      && (count >= 2 ==> output[0..20] == T(Prf(), ssid, 1, ITERATIONS))
      && (count >= 3 ==> output[20..40] == T(Prf(), ssid, 2, ITERATIONS))
      && (iters > 0 ==> digest == U(Prf(), ssid, count, iters)
                        && output[20 * (count - 1)..20 * (count - 1) + 20] == T(Prf(), ssid, count, iters))
    }

    /** init_passhash; the SSID's length is not checked here. */
    constructor (h: Hash, key: array<Byte>, s: seq<Byte>)
      requires key.Length <= MAX_KEY_LEN
      ensures Valid() && fresh(output) && p == h && password == key && ssid == s && Progress() == 0
    {
      p, password := h, key;
      ssid, count, iters := s, 1, 0;
      digest := seq(20, _ => 0);
      output := new Byte[40](_ => 0);
    }

    /** do_F on the current block. */
    method DoF(iterations: int, at: nat)
      requires password.Length <= MAX_KEY_LEN && password != output
      requires at == 20 * (count - 1) && 1 <= count <= 2 && output.Length == 40 && iters >= 1
      requires digest == U(Prf(), ssid, count, iters) && output[at..at + 20] == T(Prf(), ssid, count, iters)
      modifies this`digest, password, output
      ensures password[..] == old(password[..])
      ensures var n := iters + (if iterations > 0 then iterations else 0);
        digest == U(Prf(), ssid, count, n) && output[at..at + 20] == T(Prf(), ssid, count, n)
      ensures output[..at] == old(output[..at])
    {
      hide XorBytes, Salt, Under;
      ghost var key := password[..];
      var i := 0;
      while i < iterations
        invariant 0 <= i && (i <= iterations || i == 0) && password[..] == key
        invariant digest == U(Prf(), ssid, count, iters + i) && output[at..at + 20] == T(Prf(), ssid, count, iters + i)
        invariant output[..at] == old(output[..at])
      {
        var d := HashText(p, password, digest);
        XorInto(output, at, d);
        digest := d;
        i := i + 1;
      }
    }

    /** do_passhash: the start value counts as one iteration; a call does not go past the end of a block, and a step of
        zero makes no progress. */
    method Do(iterations0: nat) returns (r: int)
      requires Valid()
      modifies this`count, this`iters, this`digest, password, output
      ensures Valid() && password[..] == old(password[..])
      ensures old(count) > 2 ==> r == -1 && Progress() == old(Progress())
      ensures old(count) <= 2 ==>
        Progress() == (if old(iters) + iterations0 < ITERATIONS then old(Progress()) + iterations0 else old(count) * ITERATIONS)
      ensures old(count) <= 2 ==> r == (if Progress() == 2 * ITERATIONS then 0 else 1)
    {
      hide T, U, Under, Salt;
      if count > 2 { return -1; }
      var iterations: int := iterations0;
      var at := 20 * (count - 1);
      ghost var first := output[0..20];
      if iters == 0 {
        FirstIteration(Prf(), ssid, count);
        SaltLength(ssid, count);
        var d := HashText(p, password, Salt(ssid, count));
        Put(output, at, d);
        digest := d;
        iters := 1;
        iterations := iterations - 1;
        assert count == 2 ==> output[..at] == first;
      }
      if iters + iterations > ITERATIONS { iterations := ITERATIONS - iters; }
      ghost var second := output[..at];
      DoF(iterations, at);
      assert count == 2 ==> output[0..20] == output[..at] == second == first;
      iters := iters + iterations;
      if iters == ITERATIONS {
        count := count + 1;
        iters := 0;
        if count > 2 { return 0; }
      }
      return 1;
    }

    /** get_passhash: succeeds only once both blocks are done. */
    method Get(outlen: nat) returns (ok: bool, key: seq<Byte>)
      requires Valid()
      ensures ok <==> Progress() == 2 * ITERATIONS && outlen <= 40
      ensures ok ==> key == Derived(Prf(), ssid)[..outlen]
    {
      hide T, Under;
      key := [];
      if count > 2 && outlen <= 40 {
        assert output[..] == output[0..20] + output[20..40];
        return true, output[..outlen];
      }
      return false, [];
    }
  }

  lemma FirstIteration(prf: TextHash, ssid: seq<Byte>, count: nat)
    ensures U(prf, ssid, count, 1) == T(prf, ssid, count, 1) == prf(Salt(ssid, count))
  {
  }

  /** Whatever positive steps the caller takes, the stepwise hash ends with exactly the bytes of passhash. */
  method StepsMatchOneGo(p: Hash, password: array<Byte>, length: nat, ssid: seq<Byte>, output: array<Byte>)
    returns (key: seq<Byte>)
    requires password.Length <= MAX_KEY_LEN && password != output
    requires 8 <= length <= 63 && |ssid| <= 32 && output.Length >= 40
    modifies password, output
    ensures key == output[..40] == Derived(Under(p, old(password[..])), ssid)
  {
    hide Derived, Under;
    var status := OneGo(p, password, length, ssid, output);
    var ph := new Stepwise(p, password, ssid);
    var r := 1;
    while r > 0
      invariant ph.Valid() && fresh(ph) && fresh(ph.output) && ph.p == p && ph.password == password && ph.ssid == ssid
      invariant password[..] == old(password[..]) && output[..40] == Derived(Under(p, password[..]), ssid)
      invariant r > 0 ==> ph.count <= 2
      invariant r <= 0 ==> ph.Progress() == 2 * ITERATIONS
      decreases 2 * ITERATIONS - ph.Progress(), r
    {
      var step: nat :| step >= 1;
      r := ph.Do(step);
    }
    var ok;
    ok, key := ph.Get(40);
    assert Derived(ph.Prf(), ssid)[..40] == Derived(ph.Prf(), ssid);
  }
}
