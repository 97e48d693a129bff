/**
 * The integer facts the factoriser takes from its arbitrary-precision
 * substrate (mini-gmp): Euclidean remainders, gcd and the modular inverse.
 * Big integers are plain Dafny ints.
 */
module Arith {
  import opened Wrappers

  function Abs(x: int): nat
  {
    if x < 0 then -x else x
  }

  /** mpz_gcd on non-negative operands: Euclid's algorithm. */
  function Gcd(a: nat, b: nat): nat
    decreases b
  {
    if b == 0 then a else Gcd(b, a % b)
  }

  /** Quotient and remainder are determined by the division identity. */
  lemma DivModUnique(a: int, n: int, q: int, r: int)
    requires n > 0 && 0 <= r < n && a == q * n + r
    ensures a / n == q && a % n == r
  {
    var d := q - a / n;
    assert d * n == a % n - r;
  }

  lemma MultipleMod(k: int, n: int)
    requires n > 0
    ensures (k * n) % n == 0
  {
    DivModUnique(k * n, n, k, 0);
  }

  /** Two numbers whose difference is a multiple of n have the same remainder mod n. */
  lemma CongruentByMultiple(a: int, b: int, k: int, n: int)
    requires n > 0 && a - b == k * n
    ensures a % n == b % n
  {
    assert b == (b / n) * n + b % n;
    assert a == (b / n + k) * n + b % n;
    DivModUnique(a, n, b / n + k, b % n);
  }

  /** gcd(a, b) is a positive common divisor of a and b unless both are zero. */
  lemma {:induction false} GcdDivides(a: nat, b: nat)
    requires a > 0 || b > 0
    ensures Gcd(a, b) > 0 && a % Gcd(a, b) == 0 && b % Gcd(a, b) == 0
    decreases b
  {
    if b == 0 {
      MultipleMod(1, a);
    } else {
      GcdDivides(b, a % b);
      var g := Gcd(b, a % b);
      var i, j := b / g, (a % b) / g;
      assert b == i * g && a % b == j * g;
      assert a == (a / b) * b + a % b;
      assert a == ((a / b) * i + j) * g;
      MultipleMod((a / b) * i + j, g);
    }
  }

  /** A gcd with n other than 1 is a divisor of n strictly above 1. */
  lemma NonUnitGcdIsDivisor(x: int, n: int)
    requires n > 0 && Gcd(Abs(x), n) != 1
    ensures 1 < Gcd(Abs(x), n) <= n && n % Gcd(Abs(x), n) == 0
  {
    GcdDivides(Abs(x), n);
    DivisorAtMost(n, Gcd(Abs(x), n));
  }

  /** A positive divisor of a positive number is at most that number. */
  lemma DivisorAtMost(n: int, g: int)
    requires n > 0 && g > 0 && n % g == 0
    ensures g <= n
  {
    var k := n / g;
    assert n == k * g + n % g;
    assert k >= 1;
    assert n - g == (k - 1) * g;
  }

  /** Bezout coefficients: the extended Euclidean algorithm behind mpz_invert. */
  function ExtGcd(a: nat, b: nat): (r: (int, int))
    decreases b
    ensures r.0 * a + r.1 * b == Gcd(a, b)
  {
    if b == 0 then (1, 0)
    else
      var (s, t) := ExtGcd(b, a % b);
      assert a % b == a - (a / b) * b;
      (t, s - t * (a / b))
  }

  /**
   * mpz_invert(r, u, n): an inverse exists exactly when n > 1 and u is
   * coprime to n, and it is then the unique one in [0, n).
   */
  function Inverse(u: int, n: int): (r: Option<int>)
    ensures r.Some? <==> n > 1 && Gcd(Abs(u), n) == 1
    ensures r.Some? ==> 0 <= r.value < n && (u * r.value) % n == 1
  {
    if n <= 1 || Gcd(Abs(u), n) != 1 then None
    else
      var s := ExtGcd(Abs(u), n).0;
      var w := if u < 0 then -s else s;
      var v := w % n;
      InverseWitness(u, n, w, ExtGcd(Abs(u), n).1);
      Some(v)
  }

  lemma InverseWitness(u: int, n: int, w: int, t: int)
    requires n > 1 && (if u < 0 then -w else w) * Abs(u) + t * n == 1
    ensures (u * (w % n)) % n == 1
  {
    var k, v := w / n, w % n;
    SignedProduct(u, w);
    ScaledRemainder(u, w, k, v, n);
    NegatedSum(t, u * k, n);
    CongruentByMultiple(u * v, 1, -t - u * k, n);
  }

  lemma SignedProduct(u: int, w: int)
    ensures (if u < 0 then -w else w) * Abs(u) == u * w
  {
  }

  lemma ScaledRemainder(u: int, w: int, k: int, v: int, n: int)
    requires n > 0 && k == w / n && v == w % n
    ensures u * v == u * w - (u * k) * n
  {
    assert w == k * n + v;
    assert u * w == u * (k * n) + u * v;
    assert u * (k * n) == (u * k) * n;
  }

  lemma NegatedSum(t: int, m: int, n: int)
    ensures (-t - m) * n == -(t * n) - m * n
  {
  }

  lemma InverseSumIdentity(u: int, v1: int, v2: int, i: int, j: int, n: int)
    requires u * v1 == i * n + 1 && (-u) * v2 == j * n + 1
    ensures v1 + v2 == (-(i * v2) - j * v1) * n
  {
    assert v2 * (u * v1) == v2 * (i * n) + v2;
    assert v1 * ((-u) * v2) == v1 * (j * n) + v1;
  }

  /** Two inverses, of u and of -u, add up to a multiple of n. */
  lemma InversesOfOpposites(u: int, v1: int, v2: int, n: int)
    requires n > 1 && (u * v1) % n == 1 && ((-u) * v2) % n == 1
    ensures (v1 + v2) % n == 0
  {
    var p1, p2 := u * v1, (-u) * v2;
    assert p1 == (p1 / n) * n + 1;
    assert p2 == (p2 / n) * n + 1;
    InverseSumIdentity(u, v1, v2, p1 / n, p2 / n, n);
    MultipleMod(-((p1 / n) * v2) - (p2 / n) * v1, n);
  }

  /** The inverses of u and of -u mod n exist together and add up to a multiple of n. */
  lemma InverseOfNegation(u: int, n: int)
    requires Inverse(u, n).Some?
    ensures Inverse(-u, n).Some?
    ensures (Inverse(u, n).value + Inverse(-u, n).value) % n == 0
  {
    assert Abs(-u) == Abs(u);
    InversesOfOpposites(u, Inverse(u, n).value, Inverse(-u, n).value, n);
  }
}
