/** Congruences, greatest common divisors and powers over the integers: the vocabulary in which the
    modular routines are specified. */
module ModArith {
  import opened Words

  /** x and y differ by a multiple of m. */
  predicate Cong(x: int, y: int, m: int)
    requires m > 0
  {
    (x - y) % m == 0
  }

  lemma MultipleMod(k: int, m: int)
    requires m > 0
    ensures (k * m) % m == 0
  {
    var r := (k * m) % m;
    var q := (k * m) / m;
    assert (k - q) * m == r;
    if k - q >= 1 { MulMono(1, k - q, m); }
    if k - q <= -1 { MulMono(k - q, -1, m); }
  }

  lemma CongBy(x: int, y: int, m: int, k: int)
    requires m > 0 && x - y == k * m
    ensures Cong(x, y, m)
  {
    MultipleMod(k, m);
  }

  lemma CongWitness(x: int, y: int, m: int) returns (k: int)
    requires m > 0 && Cong(x, y, m)
    ensures x - y == k * m
  {
    k := (x - y) / m;
    assert x - y == ((x - y) / m) * m + (x - y) % m;
  }

  lemma CongRefl(x: int, m: int)
    requires m > 0
    ensures Cong(x, x, m)
  {
    CongBy(x, x, m, 0);
  }

  lemma CongSym(x: int, y: int, m: int)
    requires m > 0 && Cong(x, y, m)
    ensures Cong(y, x, m)
  {
    var k := CongWitness(x, y, m);
    CongBy(y, x, m, -k);
  }

  lemma CongTrans(x: int, y: int, z: int, m: int)
    requires m > 0 && Cong(x, y, m) && Cong(y, z, m)
    ensures Cong(x, z, m)
  {
    var k := CongWitness(x, y, m);
    var l := CongWitness(y, z, m);
    assert x - z == (k + l) * m;
    CongBy(x, z, m, k + l);
  }

  lemma CongAdd(x: int, y: int, z: int, w: int, m: int)
    requires m > 0 && Cong(x, y, m) && Cong(z, w, m)
    ensures Cong(x + z, y + w, m)
  {
    var k := CongWitness(x, y, m);
    var l := CongWitness(z, w, m);
    assert (x + z) - (y + w) == (k + l) * m;
    CongBy(x + z, y + w, m, k + l);
  }

  lemma CongScale(c: int, x: int, y: int, m: int)
    requires m > 0 && Cong(x, y, m)
    ensures Cong(c * x, c * y, m)
  {
    var k := CongWitness(x, y, m);
    assert c * x - c * y == c * (x - y);
    assert c * (k * m) == (c * k) * m;
    CongBy(c * x, c * y, m, c * k);
  }

  lemma CongMul(x: int, y: int, z: int, w: int, m: int)
    requires m > 0 && Cong(x, y, m) && Cong(z, w, m)
    ensures Cong(x * z, y * w, m)
  {
    CongScale(x, z, w, m);
    CongScale(w, x, y, m);
    MulComm(w, x); MulComm(w, y);
    CongTrans(x * z, x * w, y * w, m);
  }

  /** Reduced representatives of the same class are equal. */
  lemma CongUnique(x: int, y: int, m: int)
    requires m > 0 && Cong(x, y, m) && 0 <= x < m && 0 <= y < m
    ensures x == y
  {
    var k := CongWitness(x, y, m);
    if k >= 1 { MulMono(1, k, m); }
    if k <= -1 { MulMono(k, -1, m); }
  }

  lemma ModCong(x: int, m: int)
    requires m > 0
    ensures Cong(x % m, x, m) && 0 <= x % m < m
  {
    assert x == (x / m) * m + x % m;
    assert x % m - x == (-(x / m)) * m;
    CongBy(x % m, x, m, -(x / m));
  }

  /** x % m is the one representative in range. */
  lemma ModIs(x: int, r: int, m: int)
    requires m > 0 && Cong(r, x, m) && 0 <= r < m
    ensures r == x % m
  {
    ModCong(x, m);
    CongSym(x % m, x, m);
    CongTrans(r, x, x % m, m);
    CongUnique(r, x % m, m);
  }

  /** An odd modulus lets a factor of two be cancelled. */
  lemma HalveCong(x: int, y: int, m: int)
    requires m > 0 && m % 2 == 1 && Cong(2 * x, 2 * y, m)
    ensures Cong(x, y, m)
  {
    var k := CongWitness(2 * x, 2 * y, m);
    OddProduct(k, m);
    var h := k / 2;
    assert k * m == 2 * (h * m);
    CongBy(x, y, m, h);
  }

  lemma OddProduct(k: int, m: int)
    requires m % 2 == 1 && (k * m) % 2 == 0
    ensures k % 2 == 0
  {
    ProductParity(k, m);
  }

  lemma ProductParity(k: int, m: int)
    ensures (k * m) % 2 == (k % 2) * (m % 2)
  {
    var i, e, j, f := k / 2, k % 2, m / 2, m % 2;
    assert k * m == (2 * i + e) * m == 2 * (i * m) + e * m;
    assert e * m == e * (2 * j + f) == 2 * (e * j) + e * f;
    Parity(i * m + e * j, e * f);
  }

  lemma Parity(z: int, e: int)
    requires 0 <= e <= 1
    ensures (2 * z + e) % 2 == e
  {
  }

  /** d divides x. */
  predicate Divides(d: int, x: int)
    requires d > 0
  {
    x % d == 0
  }

  lemma DividesBy(d: int, x: int, k: int)
    requires d > 0 && x == k * d
    ensures Divides(d, x)
  {
    MultipleMod(k, d);
  }

  lemma DividesWitness(d: int, x: int) returns (k: int)
    requires d > 0 && Divides(d, x)
    ensures x == k * d
  {
    k := x / d;
  }

  lemma DividesCombination(d: int, x: int, y: int, u: int, v: int)
    requires d > 0 && Divides(d, x) && Divides(d, y)
    ensures Divides(d, u * x + v * y)
  {
    var k := DividesWitness(d, x);
    var l := DividesWitness(d, y);
    assert u * (k * d) == (u * k) * d && v * (l * d) == (v * l) * d;
    assert u * x + v * y == (u * k + v * l) * d;
    DividesBy(d, u * x + v * y, u * k + v * l);
  }

  /** Greatest common divisor by Euclid's algorithm. */
  function Gcd(x: nat, y: nat): (g: nat)
    decreases y
  {
    if y == 0 then x else Gcd(y, x % y)
  }

  lemma {:induction false} GcdDivides(x: nat, y: nat)
    requires x > 0 || y > 0
    ensures Gcd(x, y) > 0 && Divides(Gcd(x, y), x) && Divides(Gcd(x, y), y)
    decreases y
  {
    if y == 0 {
      DividesBy(x, x, 1);
      DividesBy(x, 0, 0);
    } else {
      var r := x % y;
      GcdDivides(y, r);
      assert x == (x / y) * y + 1 * r;
      DividesCombination(Gcd(y, r), y, r, x / y, 1);
    }
  }

  lemma {:induction false} GcdGreatest(x: nat, y: nat, d: int)
    requires d > 0 && Divides(d, x) && Divides(d, y) && (x > 0 || y > 0)
    ensures Divides(d, Gcd(x, y))
    decreases y
  {
    if y > 0 {
      var q, r := x / y, x % y;
      assert x == q * y + r;
      assert 1 * x + (-q) * y == r;
      DividesCombination(d, x, y, 1, -q);
      GcdGreatest(y, r, d);
    }
  }

  lemma DividesAntisymmetric(g: nat, h: nat)
    requires g > 0 && h > 0 && Divides(g, h) && Divides(h, g)
    ensures g == h
  {
    var k := DividesWitness(g, h);
    var l := DividesWitness(h, g);
    if g < h {
      if l >= 1 { MulMono(1, l, h); } else { MulMono(l, 0, h); }
    } else if h < g {
      if k >= 1 { MulMono(1, k, g); } else { MulMono(k, 0, g); }
    }
  }

  /** Two pairs with the same common divisors have the same gcd. */
  lemma SameGcd(x: nat, y: nat, z: nat, w: nat, g: nat, h: nat)
    requires (x > 0 || y > 0) && (z > 0 || w > 0) && g == Gcd(x, y) > 0 && h == Gcd(z, w) > 0
    requires Divides(g, z) && Divides(g, w) && Divides(h, x) && Divides(h, y)
    ensures g == h
  {
    GcdGreatest(z, w, g);
    GcdGreatest(x, y, h);
    DividesAntisymmetric(g, h);
  }

  lemma GcdSubtract(x: nat, y: nat)
    requires x >= y && (x > 0 || y > 0)
    ensures Gcd(x, y) == Gcd(x - y, y)
  {
    var g, h := Gcd(x, y), Gcd(x - y, y);
    GcdDivides(x, y); GcdDivides(x - y, y);
    DividesCombination(g, x, y, 1, -1);
    DividesCombination(h, x - y, y, 1, 1);
    SameGcd(x, y, x - y, y, g, h);
  }

  lemma GcdComm(x: nat, y: nat)
    requires x > 0 || y > 0
    ensures Gcd(x, y) == Gcd(y, x)
  {
    var g, h := Gcd(x, y), Gcd(y, x);
    GcdDivides(x, y); GcdDivides(y, x);
    SameGcd(x, y, y, x, g, h);
  }

  /** A factor of two on one side does not matter when the other side is odd. */
  lemma GcdHalf(x: nat, y: nat)
    requires x % 2 == 1 && y % 2 == 0
    ensures Gcd(x, y) == Gcd(x, y / 2)
  {
    var g, h := Gcd(x, y), Gcd(x, y / 2);
    GcdDivides(x, y); GcdDivides(x, y / 2);
    OddDivisor(g, x);
    DividesHalf(g, y);
    DividesCombination(h, y / 2, x, 2, 0);
    SameGcd(x, y, x, y / 2, g, h);
  }

  lemma DividesHalf(g: nat, y: nat)
    requires g % 2 == 1 && Divides(g, y) && y % 2 == 0
    ensures Divides(g, y / 2)
  {
    var k := DividesWitness(g, y);
    OddProduct(k, g);
    var i := k / 2;
    assert (2 * i) * g == 2 * (i * g);
    DividesBy(g, y / 2, i);
  }

  lemma OddDivisor(d: nat, x: nat)
    requires d > 0 && Divides(d, x) && x % 2 == 1
    ensures d % 2 == 1
  {
    var k := DividesWitness(d, x);
    ProductParity(k, d);
  }

  /** An invertible number has no common divisor with the modulus. */
  lemma InverseImpliesCoprime(a: int, x: int, m: nat)
    requires m > 0 && Cong(x * a, 1, m)
    ensures Gcd(m, a % m) == 1
  {
    hide Gcd, Cong, Divides;
    var r := a % m;
    var g := Gcd(m, r);
    GcdDivides(m, r);
    DividesSum(g, m, r, a);
    var k := CongWitness(x * a, 1, m);
    DividesCombination(g, a, m, x, -k);
    MinusProduct(k, m);
    assert x * a + (-k) * m == 1;
    DividesOne(g);
  }

  lemma MinusProduct(k: int, m: int)
    ensures (-k) * m == -(k * m)
  {
  }

  /** What divides the modulus and the remainder divides the number. */
  lemma DividesSum(g: int, m: int, r: int, a: int)
    requires g > 0 && m > 0 && r == a % m && Divides(g, m) && Divides(g, r)
    ensures Divides(g, a)
  {
    assert a == (a / m) * m + 1 * r;
    DividesCombination(g, m, r, a / m, 1);
  }

  lemma DividesOne(g: nat)
    requires g > 0 && Divides(g, 1)
    ensures g == 1
  {
  }

  /** b to the e-th power. */
  function Power(b: int, e: nat): (r: int)
  {
    if e == 0 then 1 else b * Power(b, e - 1)
  }

  lemma {:induction false} PowerAdd(b: int, e: nat, f: nat)
    ensures Power(b, e + f) == Power(b, e) * Power(b, f)
  {
    if e > 0 {
      PowerAdd(b, e - 1, f);
      assert b * (Power(b, e - 1) * Power(b, f)) == (b * Power(b, e - 1)) * Power(b, f);
    }
  }

  lemma {:induction false} PowerOfPower(b: int, e: nat, f: nat)
    ensures e * f >= 0 && Power(Power(b, e), f) == Power(b, e * f)
  {
    if f == 0 {
      assert e * f == 0;
    } else {
      PowerOfPower(b, e, f - 1);
      assert e * f == e + e * (f - 1);
      PowerAdd(b, e, e * (f - 1));
    }
  }

  /** (b^e)^f and (b^f)^e agree: what makes both parties' keys the same. */
  lemma PowersCommute(b: int, e: nat, f: nat)
    ensures Power(Power(b, e), f) == Power(Power(b, f), e)
  {
    PowerOfPower(b, e, f);
    PowerOfPower(b, f, e);
    MulComm(e, f);
  }

  lemma {:induction false} PowerCong(x: int, y: int, e: nat, m: int)
    requires m > 0 && Cong(x, y, m)
    ensures Cong(Power(x, e), Power(y, e), m)
  {
    if e == 0 {
      CongRefl(1, m);
    } else {
      PowerCong(x, y, e - 1, m);
      CongMul(x, y, Power(x, e - 1), Power(y, e - 1), m);
    }
  }
}
