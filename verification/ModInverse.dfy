/** BN_mod_inverse: the binary algorithm for odd moduli and Euclid's algorithm with its quotient
    shortcuts. Both keep  X*c == B  and  Y*(-c) == A  modulo |n|, where c is a or -a. */
module ModInverse {
  import opened Words
  import opened WordQuotient
  import opened Bits
  import opened Magnitudes
  import opened BigNums
  import opened BigProducts
  import opened BigDivision
  import opened ModArith

  /** x*c and b agree modulo m, none of them negative. */
  ghost predicate Tracks(x: int, c: int, b: int, m: int)
  {
    m > 0 && x >= 0 && b >= 0 && Cong(x * c, b, m)
  }

  /** Dividing an even b by two, and x by two modulo the odd m. */
  lemma HalveTracked(x: int, x': int, c: int, b: int, m: int)
    requires Tracks(x, c, b, m) && m % 2 == 1 && b % 2 == 0 && x' >= 0
    requires 2 * x' == x || 2 * x' == x + m
    ensures Tracks(x', c, b / 2, m)
  {
    assert 2 * (x' * c) == (2 * x') * c;
    if 2 * x' == x + m {
      assert (x + m) * c - x * c == c * m;
      CongBy((x + m) * c, x * c, m, c);
      CongTrans((x + m) * c, x * c, b, m);
    }
    HalveCong(x' * c, b / 2, m);
  }

  /** x / 2 modulo the odd m. */
  function Halved(x: nat, m: nat): (h: nat)
  {
    if x % 2 == 1 then (x + m) / 2 else x / 2
  }

  /** b without its twos, and x divided by as many modulo m. */
  function Stripped(b: nat, x: nat, m: nat): (r: (nat, nat))
    requires b > 0
    ensures 0 < r.0 <= b && r.0 % 2 == 1
  {
    if b % 2 == 1 then (b, x) else Stripped(b / 2, Halved(x, m), m)
  }

  /** What the binary branch leaves in Y. */
  function BinaryLast(a: nat, b: nat, x: nat, y: nat, m: nat): (r: nat)
    requires a > 0
    decreases a + b
  {
    if b == 0 then y
    else
      var s, t := Stripped(b, x, m), Stripped(a, y, m);
      if s.0 >= t.0 then BinaryLast(t.0, s.0 - t.0, s.1 + t.1, t.1, m)
      else BinaryLast(t.0 - s.0, s.0, s.1, t.1 + s.1, m)
  }

  /** What the Euclid branch leaves in Y, and the sign. */
  function EuclidLast(a: nat, b: nat, x: nat, y: nat, sign: int): (r: (nat, int))
    decreases b
  {
    if b == 0 then (y, sign)
    else
      MulMono(0, a / b, x);
      EuclidLast(b, a % b, a / b * x + y, x, -sign)
  }

  /** The coefficient either branch ends with, before the last reduction modulo n; limit is the bit length up to which
      an odd modulus takes the binary branch. */
  function Coefficient(n: int, a: int, limit: nat): (y: int)
    requires n != 0
  {
    var m := Absolute(n);
    if m % 2 == 1 && BitLen(m) <= limit then n - BinaryLast(m, a % m, 1, 0, m)
    else
      var r := EuclidLast(m, a % m, 1, 0, -1);
      if r.1 < 0 then n - r.0 else r.0
  }

  /** X := X/2 modulo the odd n: make X even by adding n, then shift. */
  method HalveModulo(X: BigNum, n: BigNum)
    requires X.Valid() && n.Valid() && X != n && n.Mag() % 2 == 1 && X.Value() >= 0
    modifies X
    ensures X.Valid() && X.Value() >= 0 && (X.neg ==> old(X.neg))
    ensures 2 * X.Value() == old(X.Value()) || 2 * X.Value() == old(X.Value()) + n.Mag()
    ensures X.Mag() == Halved(old(X.Mag()), n.Mag())
  {
    hide Halved, Val;
    ghost var x := X.Mag();
    var odd := X.IsOdd();
    if odd { X.UAdd(X, n); }
    HalvedEven(x, n.Mag(), X.Mag());
    X.ShiftRight1(X);
  }

  lemma HalvedEven(x: nat, m: nat, y: nat)
    requires m % 2 == 1 && y == if x % 2 == 1 then x + m else x
    ensures y / 2 == Halved(x, m) && 2 * (y / 2) == y
  {
  }

  /** One bit further down. */
  lemma NextBit(b: nat, k: nat, q: nat)
    requires b == q * Two(k) && b > 0 && q % 2 == 0
    ensures q == b / Two(k) && b == (q / 2) * Two(k + 1) && q / 2 == b / Two(k + 1) && q >= 2
  {
    QuotientIs(b, k, q);
    assert (q / 2) * Two(k + 1) == (2 * (q / 2)) * Two(k);
    QuotientIs(b, k + 1, q / 2);
    assert q == 0 ==> b == 0;
  }

  lemma QuotientIs(b: nat, k: nat, q: nat)
    requires b == q * Two(k)
    ensures q == b / Two(k)
  {
    RemainderUnique(b, Two(k), q, 0);
  }

  /** Divide B by its whole power of two and X by the same modulo n. */
  method StripTwos(B: BigNum, X: BigNum, n: BigNum, ghost c: int, ghost other: nat)
    requires B.Valid() && X.Valid() && n.Valid() && B != X && B != n && X != n
    requires B.Value() > 0 && n.Mag() % 2 == 1
    requires Tracks(X.Value(), c, B.Value(), n.Mag())
    requires other % 2 == 1 || B.Value() % 2 == 1
    modifies B, X
    ensures B.Valid() && X.Valid() && 0 < B.Value() <= old(B.Value()) && B.Value() % 2 == 1
    ensures Tracks(X.Value(), c, B.Value(), n.Mag()) && (X.neg ==> old(X.neg))
    ensures Gcd(other, B.Mag()) == Gcd(other, old(B.Mag()))
    ensures (B.Mag(), X.Mag()) == Stripped(old(B.Mag()), old(X.Mag()), n.Mag())
  {
    hide Tracks, Two, Halved;
    ghost var b, m := B.Mag(), n.Mag();
    ghost var whole := Stripped(b, X.Mag(), m);
    ghost var q: nat := b;
    var shift := 0;
    TwoZero();
    TrackedSign(X.Value(), c, B.Value(), m);
    var bit := B.BitSet(0);
    while !bit
      invariant B.Valid() && X.Valid() && B.Mag() == b > 0 && !B.neg
      invariant X.Value() >= 0 && Tracks(X.Value(), c, q, m) && (X.neg ==> old(X.neg))
      invariant b == q * Two(shift) && 0 < q <= b && Gcd(other, q) == Gcd(other, b)
      invariant other % 2 == 1 || q % 2 == 1
      invariant Stripped(q, X.Mag(), m) == whole
      invariant bit == (q % 2 == 1)
      decreases q
    {
      NextBit(b, shift, q);
      shift := shift + 1;
      ghost var x := X.Value();
      HalveModulo(X, n);
      HalveTracked(x, X.Value(), c, q, m);
      GcdHalf(other, q);
      q := q / 2;
      bit := B.BitSet(shift);
    }
    QuotientIs(b, shift, q);
    if shift > 0 { B.ShiftRight(B, shift); }
  }

  lemma TwoZero()
    ensures Two(0) == 1
  {
  }

  lemma TrackedSign(x: int, c: int, b: int, m: int)
    requires Tracks(x, c, b, m)
    ensures x >= 0 && b >= 0 && m > 0
  {
  }

  /** Subtracting the smaller of the two odd numbers. */
  lemma Difference(x: int, y: int, c: int, b: int, a: int, m: int)
    requires Tracks(x, c, b, m) && Tracks(y, -c, a, m) && b >= a
    ensures Tracks(x + y, c, b - a, m)
  {
    assert (x + y) * c - (b - a) == (x * c - b) - (y * (-c) - a);
    CongScale(-1, y * (-c), a, m);
    CongAdd(x * c, b, -1 * (y * (-c)), -1 * a, m);
  }

  /** One round of the binary branch: strip the twos of both, subtract the smaller. */
  method BinaryRound(A: BigNum, B: BigNum, X: BigNum, Y: BigNum, n: BigNum, ghost c: int)
    requires A.Valid() && B.Valid() && X.Valid() && Y.Valid() && n.Valid()
    requires Distinct(A, B, X, Y, n) && n.Mag() % 2 == 1
    requires A.Value() > 0 && B.Value() > 0 && !X.neg && !Y.neg
    requires A.Value() % 2 == 1 || B.Value() % 2 == 1
    requires Tracks(X.Value(), c, B.Value(), n.Mag()) && Tracks(Y.Value(), -c, A.Value(), n.Mag())
    modifies A, B, X, Y
    ensures A.Valid() && B.Valid() && X.Valid() && Y.Valid()
    ensures A.Value() > 0 && B.Value() >= 0 && !X.neg && !Y.neg
    ensures A.Value() % 2 == 1 || B.Value() % 2 == 1
    ensures Tracks(X.Value(), c, B.Value(), n.Mag()) && Tracks(Y.Value(), -c, A.Value(), n.Mag())
    ensures Gcd(A.Mag(), B.Mag()) == old(Gcd(A.Mag(), B.Mag()))
    ensures A.Value() + B.Value() < old(A.Value() + B.Value())
    ensures BinaryLast(A.Mag(), B.Mag(), X.Mag(), Y.Mag(), n.Mag())
         == old(BinaryLast(A.Mag(), B.Mag(), X.Mag(), Y.Mag(), n.Mag()))
  {
    hide Tracks, Gcd, Stripped;
    TrackedSign(X.Value(), c, B.Value(), n.Mag());
    TrackedSign(Y.Value(), -c, A.Value(), n.Mag());
    StripTwos(B, X, n, c, A.Mag());
    GcdComm(A.Mag(), B.Mag());
    ghost var b := B.Mag();
    StripTwos(A, Y, n, -c, b);
    GcdComm(A.Mag(), b);
    var order := B.UCmp(A);
    TrackedSign(X.Value(), c, b, n.Mag());
    TrackedSign(Y.Value(), -c, A.Value(), n.Mag());
    Reduce(A.Mag(), b, X.Value(), Y.Value(), c, n.Mag());
    if order >= 0 {
      X.UAdd(X, Y);
      var _ := B.USub(B, A);
    } else {
      Y.UAdd(Y, X);
      var _ := A.USub(A, B);
    }
  }

  /** The binary branch: terminates with A the gcd and Y*(-c) congruent to it. */
  method BinaryInverse(A: BigNum, B: BigNum, X: BigNum, Y: BigNum, n: BigNum, ghost c: int)
    requires A.Valid() && B.Valid() && X.Valid() && Y.Valid() && n.Valid()
    requires Distinct(A, B, X, Y, n)
    requires n.Mag() % 2 == 1 && A.Value() == n.Mag() && !X.neg && !Y.neg
    requires Tracks(X.Value(), c, B.Value(), n.Mag()) && Tracks(Y.Value(), -c, A.Value(), n.Mag())
    modifies A, B, X, Y
    ensures A.Valid() && Y.Valid() && !Y.neg
    ensures A.Value() == Gcd(old(A.Mag()), old(B.Mag()))
    ensures Tracks(Y.Value(), -c, A.Value(), n.Mag())
    ensures Y.Mag() == BinaryLast(old(A.Mag()), old(B.Mag()), old(X.Mag()), old(Y.Mag()), n.Mag())
  {
    hide Tracks, Gcd, Stripped;
    ghost var g := Gcd(A.Mag(), B.Mag());
    ghost var last := BinaryLast(A.Mag(), B.Mag(), X.Mag(), Y.Mag(), n.Mag());
    TrackedSign(X.Value(), c, B.Value(), n.Mag());
    ZeroMagnitude(B.d);
    while B.d != []
      invariant A.Valid() && B.Valid() && X.Valid() && Y.Valid()
      invariant A.Value() > 0 && B.Value() >= 0 && !X.neg && !Y.neg
      invariant A.Value() % 2 == 1 || B.Value() % 2 == 1
      invariant Tracks(X.Value(), c, B.Value(), n.Mag()) && Tracks(Y.Value(), -c, A.Value(), n.Mag())
      invariant Gcd(A.Mag(), B.Mag()) == g
      invariant BinaryLast(A.Mag(), B.Mag(), X.Mag(), Y.Mag(), n.Mag()) == last
      decreases A.Value() + B.Value()
    {
      ZeroMagnitude(B.d);
      BinaryRound(A, B, X, Y, n, c);
      ZeroMagnitude(B.d);
    }
    GcdZero(A.Mag());
  }

  lemma GcdZero(x: nat)
    ensures Gcd(x, 0) == x
  {
  }

  /** The effect of one subtraction on the invariant. */
  lemma Reduce(a: nat, b: nat, x: int, y: int, c: int, m: int)
    requires a > 0 && b > 0 && Tracks(x, c, b, m) && Tracks(y, -c, a, m)
    ensures b >= a ==> Tracks(x + y, c, b - a, m) && Gcd(a, b - a) == Gcd(a, b)
    ensures b < a ==> Tracks(y + x, -c, a - b, m) && Gcd(a - b, b) == Gcd(a, b)
  {
    assert -(-c) == c;
    if b >= a {
      Difference(x, y, c, b, a, m);
      GcdSubtract(b, a);
      GcdComm(a, b);
      GcdComm(b - a, a);
    } else {
      Difference(y, x, -c, a, b, m);
      GcdSubtract(a, b);
    }
  }

  /** A quotient is settled by the two multiples around the dividend. */
  lemma Between(a: nat, b: nat, k: nat)
    requires b > 0 && k * b <= a < (k + 1) * b
    ensures a / b == k && a % b == a - k * b
  {
    RemainderUnique(a, b, k, a - k * b);
  }

  /** Equal bit lengths mean quotient 1; one bit more means 1, 2 or 3. */
  lemma QuotientByLength(a: nat, b: nat)
    requires 0 < b <= a
    ensures BitLen(a) == BitLen(b) ==> a < 2 * b
    ensures BitLen(a) == BitLen(b) + 1 ==> a < 4 * b
  {
    BitLenBounds(a); BitLenBounds(b);
    if BitLen(a) == BitLen(b) + 1 {
      assert Two(BitLen(a)) == 2 * Two(BitLen(b));
      assert Two(BitLen(b)) == 2 * Two(BitLen(b) - 1);
    }
  }

  /** (D, M) := (A / B, A mod B), avoiding the division when the bit lengths show a quotient up to 3. */
  method DivideShort(D: BigNum, M: BigNum, T: BigNum, A: BigNum, B: BigNum)
    requires A.Valid() && B.Valid() && 0 < B.Value() <= A.Value()
    requires D != M && D != T && M != T && A != D && A != M && A != T && B != D && B != M && B != T
    modifies D, M, T
    ensures D.Valid() && M.Valid() && D.Value() == A.Mag() / B.Mag() && M.Value() == A.Mag() % B.Mag()
  {
    hide Two, BitLen, Truncated;
    ghost var a, b := A.Mag(), B.Mag();
    assert A.Value() == a && B.Value() == b;
    QuotientByLength(a, b);
    var al := A.Bits();
    var bl := B.Bits();
    if al == bl {
      D.SetWord(1);
      M.Sub(A, B);
      Between(a, b, 1);
    } else if al == bl + 1 {
      T.ShiftLeft1(B);
      var order := A.UCmp(T);
      if order < 0 {
        D.SetWord(1);
        M.Sub(A, B);
        Between(a, b, 1);
      } else {
        M.Sub(A, T);
        D.Add(T, B);
        order := A.UCmp(D);
        if order < 0 {
          D.SetWord(2);
          Between(a, b, 2);
        } else {
          D.SetWord(3);
          M.Sub(M, B);
          Between(a, b, 3);
        }
      }
    } else {
      var _ := Div(D, M, A, B);
    }
  }

  /** tmp := D*X + Y with the cheap forms for D = 1, 2, 4 and one-word D. */
  method Combine(tmp: BigNum, D: BigNum, X: BigNum, Y: BigNum)
    requires D.Valid() && X.Valid() && Y.Valid() && !X.neg && !Y.neg && D.Value() >= 1
    requires tmp != D && tmp != X && tmp != Y
    modifies tmp
    ensures tmp.Valid() && tmp.Value() == D.Value() * X.Value() + Y.Value() && !tmp.neg
  {
    hide Two;
    ghost var x, d := X.Value(), D.Value();
    MulMono(1, d, x);
    WordList(D.d);
    if !D.neg && D.d == [1] {
      tmp.Add(X, Y);
    } else {
      if !D.neg && D.d == [2] {
        tmp.ShiftLeft1(X);
      } else if !D.neg && D.d == [4] {
        tmp.ShiftLeft(X, 2);
        TwoTwo();
      } else if |D.d| == 1 {
        tmp.Copy(X);
        var w := D.d[0];
        tmp.TimesWord(w);
        MulComm(x, d);
      } else {
        Mul(tmp, D, X);
      }
      tmp.Add(tmp, Y);
    }
    ZeroMagnitude(tmp.d);
    MulMono(0, d, x);
  }

  lemma TwoTwo()
    ensures Two(2) == 4
  {
    assert Two(1) == 2;
  }

  lemma WordList(s: seq<Word>)
    ensures |s| == 1 ==> Val(s) == s[0]
  {
    if |s| == 1 { ValSingle(s[0]); assert s == [s[0]]; }
  }

  /** One division step on the two congruences: (A, B, X, Y, c) := (B, A mod B, D*X + Y, X, -c). */
  lemma EuclidStep(a: nat, b: nat, x: int, y: int, c: int, m: int)
    requires b > 0 && Tracks(x, c, b, m) && Tracks(y, -c, a, m)
    ensures a / b >= 0 && (a / b) * x + y >= 0
    ensures Tracks((a / b) * x + y, -c, a % b, m) && Tracks(x, c, b, m)
    ensures Gcd(b, a % b) == Gcd(a, b) && a % b < b
  {
    var d: int, r: int := a / b, a % b;
    DivBounds(a, b);
    MulMono(0, d, x);
    CongScale(-d, x * c, b, m);
    CongAdd(-d * (x * c), -d * b, y * (-c), a, m);
    assert (d * x + y) * (-c) == -d * (x * c) + y * (-c) by {
      assert (d * x) * (-c) == -d * (x * c);
    }
    assert -d * b + a == r;
  }

  /** One round: D := A / B, then M := A mod B and A := D*X + Y, reusing A's object. The caller
      renames (A, B, X, Y, M) to (B, M, A, X, Y). */
  method EuclidRound(A: BigNum, B: BigNum, X: BigNum, Y: BigNum, M: BigNum, D: BigNum, T: BigNum,
                     ghost c: int, ghost m: int)
    requires A.Valid() && B.Valid() && X.Valid() && Y.Valid() && Distinct(A, B, X, Y, M) && D != T
    requires D !in {A, B, X, Y, M} && T !in {A, B, X, Y, M}
    requires 0 < B.Value() <= A.Value() && !X.neg && !Y.neg
    requires Tracks(X.Value(), c, B.Value(), m) && Tracks(Y.Value(), -c, A.Value(), m)
    modifies A, M, D, T
    ensures A.Valid() && M.Valid() && !A.neg
    ensures Tracks(A.Value(), -c, M.Value(), m) && 0 <= M.Value() < B.Value()
    ensures Gcd(B.Mag(), M.Mag()) == old(Gcd(A.Mag(), B.Mag()))
    ensures M.Mag() == old(A.Mag()) % B.Mag() && A.Mag() == old(A.Mag()) / B.Mag() * X.Mag() + Y.Mag()
  {
    hide Tracks, Gcd;
    ghost var a: nat, b: nat, x: int, y: int := A.Mag(), B.Mag(), X.Value(), Y.Value();
    assert B.Value() == b && A.Value() == a;
    DivideShort(D, M, T, A, B);
    EuclidStep(a, b, x, y, c, m);
    QuotientPositive(a, b);
    Combine(A, D, X, Y);
  }

  /** The Euclid branch: the objects change roles on every step; the result's A and Y, and the sign
      telling whether the number of steps was even. */
  method EuclidInverse(A0: BigNum, B0: BigNum, X0: BigNum, Y0: BigNum, M0: BigNum, D: BigNum, T: BigNum,
                       ghost m: int, ghost c0: int)
    returns (A: BigNum, Y: BigNum, sign: int, ghost c: int)
    requires A0.Valid() && B0.Valid() && X0.Valid() && Y0.Valid()
    requires Distinct(A0, B0, X0, Y0, M0) && D != T
    requires D !in {A0, B0, X0, Y0, M0} && T !in {A0, B0, X0, Y0, M0}
    requires B0.Value() <= A0.Value() && A0.Value() > 0 && !X0.neg && !Y0.neg
    requires Tracks(X0.Value(), c0, B0.Value(), m) && Tracks(Y0.Value(), -c0, A0.Value(), m)
    modifies A0, B0, X0, Y0, M0, D, T
    ensures A in {A0, B0, X0, Y0, M0} && Y in {A0, B0, X0, Y0, M0} && A != Y
    ensures A.Valid() && Y.Valid() && !Y.neg && A.Value() == Gcd(old(A0.Mag()), old(B0.Mag()))
    ensures Tracks(Y.Value(), -c, A.Value(), m)
    ensures (sign == -1 && c == c0) || (sign == 1 && c == -c0)
    ensures (Y.Mag(), sign) == EuclidLast(old(A0.Mag()), old(B0.Mag()), old(X0.Mag()), old(Y0.Mag()), -1)
  {
    hide Tracks, Gcd;
    ghost var last := EuclidLast(A0.Mag(), B0.Mag(), X0.Mag(), Y0.Mag(), -1);
    var B, X, M;
    A, B, X, Y, M := A0, B0, X0, Y0, M0;
    sign, c := -1, c0;
    ghost var objs := {A0, B0, X0, Y0, M0};
    ghost var g := Gcd(A.Mag(), B.Mag());
    TrackedSign(X.Value(), c, B.Value(), m);
    ZeroMagnitude(B.d);
    while B.d != []
      invariant A in objs && B in objs && X in objs && Y in objs && M in objs && Distinct(A, B, X, Y, M)
      invariant A.Valid() && B.Valid() && X.Valid() && Y.Valid() && !X.neg && !Y.neg
      invariant 0 <= B.Value() <= A.Value() && A.Value() > 0
      invariant Tracks(X.Value(), c, B.Value(), m) && Tracks(Y.Value(), -c, A.Value(), m)
      invariant Gcd(A.Mag(), B.Mag()) == g
      invariant (sign == -1 && c == c0) || (sign == 1 && c == -c0)
      invariant EuclidLast(A.Mag(), B.Mag(), X.Mag(), Y.Mag(), sign) == last
      decreases B.Mag()
    {
      ZeroMagnitude(B.d);
      EuclidRound(A, B, X, Y, M, D, T, c, m);
      A, B, X, Y, M := B, M, A, X, Y;
      sign := -sign;
      c := -c;
      assert -(-c) == c;
      ZeroMagnitude(B.d);
    }
    GcdZero(A.Mag());
  }

  ghost predicate Distinct(A: BigNum, B: BigNum, X: BigNum, Y: BigNum, M: BigNum)
  {
    A != B && A != X && A != Y && A != M && B != X && B != Y && B != M && X != Y && X != M && Y != M
  }

  lemma QuotientPositive(a: nat, b: nat)
    requires 0 < b <= a
    ensures a / b >= 1
  {
    DivBounds(a, b);
    var k := a / b;
    assert k == 0 ==> k * b == 0;
  }

  /** Before the loops: X = 1 tracks B = a mod |n| and Y = 0 tracks A = |n|. */
  lemma StartTracked(a: int, b: int, m: int)
    requires m > 0 && (b == a % m || (a == 0 && b == m))
    ensures Tracks(1, a, b, m) && Tracks(0, -a, m, m) && Gcd(m, b) == Gcd(m, a % m)
  {
    hide Gcd;
    CongBy(0, m, m, -1);
    assert 1 * a == a && 0 * (-a) == 0;
    if b == m {
      assert 0 % m == 0;
      GcdSubtract(m, m);
      GcdComm(0, m);
    } else {
      ModCong(a, m);
      CongSym(a % m, a, m);
    }
  }

  /** After the loops: Y, or n - Y when the sign is negative, times a is congruent to A. */
  lemma EndTracked(y: int, a: int, c: int, sign: int, g: int, n: int)
    requires n != 0 && Tracks(y, -c, g, Absolute(n)) && ((sign == -1 && c == a) || (sign == 1 && c == -a))
    ensures Cong((if sign < 0 then n - y else y) * a, g, Absolute(n))
  {
    var m := Absolute(n);
    if sign < 0 {
      var k: int := if n < 0 then -a else a;
      assert (n - y) * a - y * (-c) == k * m;
      CongBy((n - y) * a, y * (-c), m, k);
      CongTrans((n - y) * a, y * (-c), g, m);
    }
  }

  /** Reducing the inverse keeps it one. */
  lemma ReduceInverse(y: int, a: int, m: int)
    requires m > 0 && Cong(y * a, 1, m)
    ensures Cong((y % m) * a, 1, m) && 0 <= y % m < m
  {
    ModCong(y, m);
    CongScale(a, y % m, y, m);
    MulComm(a, y % m); MulComm(a, y);
    CongTrans((y % m) * a, y * a, 1, m);
  }

  /** A := |n| and B := a reduced modulo |n|. A zero whose sign flag is set reduces to |n|. */
  method Start(A: BigNum, B: BigNum, a: BigNum, n: BigNum) returns (ok: bool)
    requires a.Valid() && n.Valid() && A != B && A != a && A != n && B != a && B != n
    modifies A, B
    ensures ok == (n.Mag() != 0)
    ensures ok ==> A.Valid() && B.Valid() && A.Value() == n.Mag() && 0 <= B.Value() <= n.Mag()
    ensures ok ==> B.Value() == a.Value() % n.Mag() || (a.Value() == 0 && B.Value() == n.Mag())
  {
    hide Val;
    ZeroMagnitude(a.d);
    B.Copy(a);
    A.Copy(n);
    A.neg := false;
    var order := B.UCmp(A);
    if B.neg || order >= 0 {
      ok := NNMod(B, B, A);
    } else {
      ok := true;
    }
  }

  /** The copy of the inverse into the result, if the gcd is 1. */
  method Finish(R: BigNum, A: BigNum, Y: BigNum, n: BigNum) returns (ok: bool)
    requires A.Valid() && Y.Valid() && n.Valid() && A.Value() >= 0 && n.Value() != 0
    requires !Y.NegativeZero()
    modifies R
    ensures ok == old(A.Value() == 1)
    ensures ok ==> R.Valid()
    ensures ok && R != n ==> R.Value() == old(Y.Value()) % old(n.Mag())
    ensures ok && R == n ==> R.Value() == AliasedMod(old(Y.Value()), old(n.Value()))
    ensures ok && R != n ==> !R.neg
    ensures !ok ==> R.neg == old(R.neg) && R.d == old(R.d)
  {
    hide Val, AliasedMod;
    WordList(A.d);
    OneWord(A.d);
    if A.neg || A.d != [1] { return false; }
    AliasedModSmall(Y.Value(), n.Value());
    var order := Y.UCmp(n);
    if !Y.neg && order < 0 {
      R.Copy(Y);
      ok := true;
    } else {
      ok := NNMod(R, Y, n);
    }
  }

  lemma AliasedModSmall(y: int, m: int)
    requires m != 0
    ensures y >= 0 ==> AliasedMod(y, m) == y % Absolute(m)
    ensures y < 0 ==> AliasedMod(y, m) == 0
    ensures 0 <= y < Absolute(m) ==> y % Absolute(m) == y
  {
    NonNegativeRemainder(y, m);
    QuoRemTruncated(y, m);
    if 0 <= y < Absolute(m) { RemainderUnique(y, Absolute(m), 0, y); }
  }

  lemma OneWord(s: seq<Word>)
    requires Normal(s)
    ensures Val(s) == 1 <==> s == [1]
  {
    ValSingle(1);
    if Val(s) == 1 {
      ZeroMagnitude(s);
      NormalUnique(s, [1]);
    }
  }

  /** The loops: either branch ends with the gcd in A and a coefficient of it in Y. */
  method Loops(A0: BigNum, B0: BigNum, Y0: BigNum, n: BigNum, limit: nat, ghost a: int)
    returns (A: BigNum, Y: BigNum, sign: int)
    requires A0.Valid() && B0.Valid() && n.Valid() && A0 != B0 && A0 != Y0 && B0 != Y0
    requires n != A0 && n != B0 && n != Y0 && n.Value() != 0
    requires A0.Value() == n.Mag() && 0 <= B0.Value() <= n.Mag()
    requires B0.Value() == a % n.Mag() || (a == 0 && B0.Value() == n.Mag())
    modifies A0, B0, Y0
    ensures A.Valid() && Y.Valid() && !Y.neg && A != Y && A != n && Y != n
    ensures (A in {A0, B0, Y0} || fresh(A)) && (Y in {A0, B0, Y0} || fresh(Y))
    ensures A.Value() == Gcd(n.Mag(), a % n.Mag())
    ensures Cong((if sign < 0 then n.Value() - Y.Value() else Y.Value()) * a, A.Value(), n.Mag())
    ensures old(B0.Value()) == a % n.Mag() ==>
      (if sign < 0 then n.Value() - Y.Value() else Y.Value()) == Coefficient(n.Value(), a, limit)
  {
    hide Tracks, Gcd, Cong, Val, BinaryLast, EuclidLast, BitLen, Coefficient;
    SameCoefficient(n.Value(), a, limit);
    var X := new BigNum.Pooled();
    X.SetWord(1);
    Y0.SetWord(0);
    A, Y, sign := A0, Y0, -1;
    ghost var c: int := a;
    StartTracked(a, B0.Value(), n.Mag());
    var odd := n.IsOdd();
    var bits := n.Bits();
    if odd && bits <= limit {
      BinaryInverse(A, B0, X, Y, n, c);
    } else {
      var M, D, T := SpareObjects();
      A, Y, sign, c := EuclidInverse(A, B0, X, Y, M, D, T, n.Mag(), c);
    }
    EndTracked(Y.Value(), a, c, sign, A.Value(), n.Value());
  }

  lemma SameCoefficient(n: int, a: int, limit: nat)
    requires n != 0
    ensures Coefficient(n, a, limit) ==
      if Absolute(n) % 2 == 1 && BitLen(Absolute(n)) <= limit then n - BinaryLast(Absolute(n), a % Absolute(n), 1, 0, Absolute(n))
      else if EuclidLast(Absolute(n), a % Absolute(n), 1, 0, -1).1 < 0 then n - EuclidLast(Absolute(n), a % Absolute(n), 1, 0, -1).0
      else EuclidLast(Absolute(n), a % Absolute(n), 1, 0, -1).0
  {
    hide BinaryLast, EuclidLast, BitLen;
  }

  method SpareObjects() returns (M: BigNum, D: BigNum, T: BigNum)
    ensures fresh(M) && fresh(D) && fresh(T) && M != D && M != T && D != T
  {
    M := new BigNum.Pooled();
    D := new BigNum.Pooled();
    T := new BigNum.Pooled();
  }

  /** BN_mod_inverse. limit is the bit length up to which an odd modulus takes the binary branch (450 or
      2048, depending on the word size). If the result object is the modulus, the last reduction leaves
      zero instead of the inverse when the coefficient is negative. */
  method Inverse(R: BigNum, a: BigNum, n: BigNum, limit: nat) returns (ok: bool)
    requires a.Valid() && n.Valid()
    modifies R
    ensures ok == old(n.Value() != 0 && Gcd(n.Mag(), a.Value() % n.Mag()) == 1)
    ensures ok && R != n ==> !R.neg
    ensures ok ==> R.Valid() && 0 <= R.Value() < old(n.Mag())
    ensures ok ==> (Cong(R.Value() * old(a.Value()), 1, old(n.Mag())) <==>
      R != n || old(n.Mag()) == 1 || Coefficient(old(n.Value()), old(a.Value()), limit) >= 0)
    ensures ok && R == n && Coefficient(old(n.Value()), old(a.Value()), limit) < 0 ==> R.Value() == 0
    ensures !ok ==> R.neg == old(R.neg) && R.d == old(R.d)
  {
    hide Gcd, Cong, Val, Coefficient, AliasedMod;
    var A0, B, Y0 := SpareObjects();
    ok := Start(A0, B, a, n);
    if !ok { return; }
    ghost var x, v := a.Value(), n.Value();
    GcdZero(n.Mag());
    ZeroResidue(n.Mag());
    var A, Y, sign := Loops(A0, B, Y0, n, limit, x);
    ghost var y := if sign < 0 then v - Y.Value() else Y.Value();
    ZeroMagnitude(n.d);
    if sign < 0 { Y.Sub(n, Y); }
    ghost var m := n.Mag();
    ok := Finish(R, A, Y, n);
    if ok {
      ReduceInverse(y, x, m);
      AliasedModSmall(y, v);
      ZeroNoInverse(x, m);
    }
  }

  /** X * A + Y * B is the modulus all along Euclid's algorithm, so Y stays below it. */
  lemma {:induction false} EuclidBounded(a: nat, b: nat, x: nat, y: nat, sign: int, m: nat)
    requires a >= 1 && x * a + y * b == m && y <= m
    ensures EuclidLast(a, b, x, y, sign).0 <= m
    decreases b
  {
    MulMono(1, a, x);
    MulMono(0, y, b);
    if b > 0 {
      var d, r := a / b, a % b;
      DivBounds(a, b);
      MulMono(0, d, x);
      assert a == d * b + r;
      KeepsModulus(d, b, r, x, y);
      EuclidBounded(b, r, d * x + y, x, -sign, m);
    }
  }

  lemma KeepsModulus(d: int, b: int, r: int, x: int, y: int)
    ensures (d * x + y) * b + x * r == x * (d * b + r) + y * b
  {
    assert (d * x + y) * b == (d * x) * b + y * b;
    Assoc(x, d, b);
    MulComm(x, d);
  }

  /** The division steps of Euclid's algorithm. */
  function Steps(a: nat, b: nat): (n: nat)
    decreases b
  {
    if b == 0 then 0 else 1 + Steps(b, a % b)
  }

  lemma {:induction false} SignOfSteps(a: nat, b: nat, x: nat, y: nat, sign: int)
    ensures EuclidLast(a, b, x, y, sign).1 == if Steps(a, b) % 2 == 0 then sign else -sign
    decreases b
  {
    if b > 0 {
      MulMono(0, a / b, x);
      SignOfSteps(b, a % b, a / b * x + y, x, -sign);
    }
  }

  /** When the coefficient is not negative: in the binary branch if Y has not outgrown the modulus, in the Euclid branch
      for a positive modulus and for an odd number of division steps. */
  lemma CoefficientSign(n: int, a: int, limit: nat)
    requires n != 0
    ensures Coefficient(n, a, limit) >= 0 <==>
      if Absolute(n) % 2 == 1 && BitLen(Absolute(n)) <= limit then BinaryLast(Absolute(n), a % Absolute(n), 1, 0, Absolute(n)) <= n
      else n > 0 || Steps(Absolute(n), a % Absolute(n)) % 2 == 1
  {
    hide BinaryLast, EuclidLast, Steps, BitLen;
    var m := Absolute(n);
    EuclidBounded(m, a % m, 1, 0, -1, m);
    SignOfSteps(m, a % m, 1, 0, -1);
  }

  /** The inverse of 5 modulo 11 is 9, but the binary branch ends with 13, so with the modulus as result object 0 comes
      back. */
  lemma FiveModuloEleven(limit: nat)
    requires limit >= 4
    ensures Coefficient(11, 5, limit) == -2 && Cong(9 * 5, 1, 11)
  {
    hide BitLen, BinaryLast, EuclidLast;
    BitLenEleven();
    FirstRounds();
    LastRounds();
  }

  lemma FirstRounds()
    ensures BinaryLast(11, 5, 1, 0, 11) == BinaryLast(3, 2, 7, 6, 11)
  {
    assert Stripped(5, 1, 11) == (5, 1) && Stripped(11, 0, 11) == (11, 0);
    assert Stripped(6, 1, 11) == Stripped(3, 6, 11) == (3, 6);
    assert BinaryLast(11, 5, 1, 0, 11) == BinaryLast(6, 5, 1, 1, 11);
  }

  lemma LastRounds()
    ensures BinaryLast(3, 2, 7, 6, 11) == 13
  {
    assert Stripped(2, 7, 11) == Stripped(1, 9, 11) == (1, 9) && Stripped(3, 6, 11) == (3, 6);
    assert BinaryLast(3, 2, 7, 6, 11) == BinaryLast(2, 1, 9, 15, 11);
    assert Stripped(2, 15, 11) == Stripped(1, 13, 11) == (1, 13) && Stripped(1, 9, 11) == (1, 9);
    assert BinaryLast(2, 1, 9, 15, 11) == BinaryLast(1, 0, 22, 13, 11) == 13;
  }

  lemma BitLenEleven()
    ensures BitLen(11) == 4
  {
    assert BitLen(2) == 2 && BitLen(5) == 3;
  }

  lemma ZeroResidue(m: int)
    requires m > 0
    ensures 0 % m == 0
  {
  }

  /** Zero is an inverse modulo 1 only. */
  lemma ZeroNoInverse(a: int, m: int)
    requires m > 0
    ensures Cong(0 * a, 1, m) <==> m == 1
  {
    assert 0 * a == 0;
    if m > 1 {
      if Cong(0, 1, m) { CongUnique(0, 1, m); }
    } else {
      CongBy(0, 1, m, -1);
    }
  }
}
