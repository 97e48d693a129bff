/**
 * Affine short-Weierstrass arithmetic y^2 = x^3 + ax + b over Z/N, where N
 * may be composite (ecm/ec.c). As in the C code, the point at infinity is
 * the raw coordinate pair (0, 0), and a slope denominator without an
 * inverse mod N is a distinct outcome that carries that denominator: its gcd
 * with N is the factor ECM is looking for.
 */
module EllipticCurve {
  import opened Wrappers
  import opened Arith

  /** ec_t: the coefficients and the modulus. */
  datatype Curve = Curve(a: int, b: int, n: int)

  /** The value held by an ec_point_t. */
  datatype Point = Point(x: int, y: int)

  /** The sentinel that stands for the point at infinity. */
  const Infinity := Point(0, 0)

  predicate IsInfinity(p: Point)
  {
    p.x == 0 && p.y == 0
  }

  predicate InRange(p: Point, n: int)
  {
    0 <= p.x < n && 0 <= p.y < n
  }

  /** point_equals: the coordinates are compared as integers, not mod N. */
  function PointEquals(p: Point, q: Point): (r: bool)
    ensures r <==> p == q
  {
    p.x == q.x && p.y == q.y
  }

  /**
   * curve_is_smooth: a^3 and b^2 are reduced mod N before they are scaled
   * and summed; the outcome is that of the unreduced discriminant test.
   */
  function CurveIsSmooth(a: int, b: int, n: int): (r: bool)
    requires n > 0
    ensures r <==> (-4 * (a * a * a) - 27 * (b * b)) % n != 0
  {
    var a3 := -4 * ((a * a * a) % n);
    var b2 := -27 * ((b * b) % n);
    DiscriminantReduction(a, b, n);
    (a3 + b2) % n != 0
  }

  lemma DiscriminantReduction(a: int, b: int, n: int)
    requires n > 0
    ensures (-4 * ((a * a * a) % n) + -27 * ((b * b) % n)) % n == (-4 * (a * a * a) - 27 * (b * b)) % n
  {
    var a3, b2 := a * a * a, b * b;
    assert a3 % n == a3 - (a3 / n) * n;
    assert b2 % n == b2 - (b2 / n) * n;
    CongruentByMultiple(-4 * (a3 % n) + -27 * (b2 % n), -4 * a3 - 27 * b2, 4 * (a3 / n) + 27 * (b2 / n), n);
  }

  /** What point_add produces: a point (return 0) or a denominator without an inverse (return -1). */
  datatype AddOutcome<T> = Sum(point: T) | NoInverse(den: int)

  /** The chord/tangent result for slope k, both coordinates reduced into [0, N). */
  function Chord(c: Curve, p: Point, q: Point, k: int): (r: Point)
    requires c.n > 0
    ensures InRange(r, c.n)
  {
    var xr := (k * k - p.x - q.x) % c.n;
    Point(xr, (k * (p.x - xr) - p.y) % c.n)
  }

  /**
   * point_add. The two sentinel shortcuts come first; then doubling when the
   * points are equal as integers, otherwise the chord through them. A vertical
   * line (doubling with y = 0, or equal x and unequal points) gives the
   * sentinel. When the slope denominator has no inverse mod N, the outcome is
   * that denominator, whose gcd with N is not 1.
   */
  function Add(c: Curve, p: Point, q: Point): (r: AddOutcome<Point>)
    ensures r.NoInverse? ==> c.n <= 1 || Gcd(Abs(r.den), c.n) != 1
    ensures r.NoInverse? ==> r.den == (if p == q then 2 * p.y else p.x - q.x)
    ensures r.Sum? && c.n > 0 && !IsInfinity(p) && !IsInfinity(q) ==> InRange(r.point, c.n)
  {
    if IsInfinity(p) then Sum(q)
    else if IsInfinity(q) then Sum(p)
    else if PointEquals(p, q) then
      if p.y == 0 then Sum(Infinity)
      else
        match Inverse(2 * p.y, c.n)
        case None => NoInverse(2 * p.y)
        case Some(inv) => Sum(Chord(c, p, q, (3 * (p.x * p.x) + c.a) * inv))
    else if p.x == q.x then Sum(Infinity)
    else
      match Inverse(p.x - q.x, c.n)
      case None => NoInverse(p.x - q.x)
      case Some(inv) => Sum(Chord(c, p, q, (p.y - q.y) * inv))
  }

  /** The sentinel is a two-sided identity of point_add. */
  lemma AddIdentity(c: Curve, p: Point)
    ensures Add(c, Infinity, p) == Sum(p) && Add(c, p, Infinity) == Sum(p)
  {
  }

  /** A failed point_add hands back a value whose gcd with N is a divisor of N above 1. */
  lemma AddFailureRevealsDivisor(c: Curve, p: Point, q: Point)
    requires c.n > 1 && Add(c, p, q).NoInverse?
    ensures var g := Gcd(Abs(Add(c, p, q).den), c.n); 1 < g <= c.n && c.n % g == 0
  {
    NonUnitGcdIsDivisor(Add(c, p, q).den, c.n);
  }

  lemma SquareDifference(k1: int, k2: int, t: int, n: int, px: int, qx: int)
    requires k1 - k2 == t * n
    ensures (k1 * k1 - px - qx) - (k2 * k2 - qx - px) == (t * (k1 + k2)) * n
  {
    assert k1 * k1 - k2 * k2 == (k1 - k2) * (k1 + k2);
  }

  lemma ChordYDifference(k1: int, k2: int, t: int, n: int, i: int, u: int, dy: int, inv1: int,
                         px: int, py: int, qx: int, qy: int, xr: int)
    requires k1 - k2 == t * n && u == px - qx && dy == py - qy && k1 == dy * inv1
    requires u * inv1 == i * n + 1
    ensures (k1 * (px - xr) - py) - (k2 * (qx - xr) - qy) == (dy * i + t * (qx - xr)) * n
  {
    assert k1 * u == dy * (u * inv1);
    assert k1 * u == dy * (i * n) + dy;
    assert (k1 * (px - xr) - py) - (k2 * (qx - xr) - qy) == k1 * u - dy + (k1 - k2) * (qx - xr);
  }

  /** The chord through p and q is the same from either end when the two slopes come from inverses of p.x - q.x and q.x - p.x. */
  lemma ChordSymmetric(c: Curve, p: Point, q: Point, inv1: int, inv2: int)
    requires c.n > 1
    requires ((p.x - q.x) * inv1) % c.n == 1 && (inv1 + inv2) % c.n == 0
    ensures Chord(c, p, q, (p.y - q.y) * inv1) == Chord(c, q, p, (q.y - p.y) * inv2)
  {
    var n, u, dy := c.n, p.x - q.x, p.y - q.y;
    var k1, k2 := dy * inv1, (q.y - p.y) * inv2;
    var s := (inv1 + inv2) / n;
    assert inv1 + inv2 == s * n;
    var t := dy * s;
    assert k1 - k2 == dy * (inv1 + inv2);
    assert k1 - k2 == t * n;
    SquareDifference(k1, k2, t, n, p.x, q.x);
    CongruentByMultiple(k1 * k1 - p.x - q.x, k2 * k2 - q.x - p.x, t * (k1 + k2), n);
    var xr := (k1 * k1 - p.x - q.x) % n;
    var i := (u * inv1) / n;
    assert u * inv1 == i * n + (u * inv1) % n;
    ChordYDifference(k1, k2, t, n, i, u, dy, inv1, p.x, p.y, q.x, q.y, xr);
    CongruentByMultiple(k1 * (p.x - xr) - p.y, k2 * (q.x - xr) - q.y, dy * i + t * (q.x - xr), n);
  }

  /** point_add gives the same point whichever operand comes first, and fails for both orders or neither. */
  lemma AddCommutes(c: Curve, p: Point, q: Point)
    ensures Add(c, p, q).Sum? == Add(c, q, p).Sum?
    ensures Add(c, p, q).Sum? ==> Add(c, p, q) == Add(c, q, p)
  {
    if !IsInfinity(p) && !IsInfinity(q) && p != q && p.x != q.x {
      assert q.x - p.x == -(p.x - q.x) && Abs(q.x - p.x) == Abs(p.x - q.x);
      if Inverse(p.x - q.x, c.n).Some? {
        InverseOfNegation(p.x - q.x, c.n);
        ChordSymmetric(c, p, q, Inverse(p.x - q.x, c.n).value, Inverse(q.x - p.x, c.n).value);
      }
    }
  }

  /** ec_point_t: a pair of big integers that point_add and point_mul overwrite in place. */
  class ECPoint {
    var x: int
    var y: int

    constructor (x: int, y: int)
      ensures this.x == x && this.y == y
    {
      this.x := x;
      this.y := y;
    }

    function View(): Point
      reads this
    {
      Point(x, y)
    }
  }

  /**
   * point_add(res, p, q, ec). res may be p or q: the result is computed from
   * the old coordinates. On failure only res.x is written (with the
   * denominator); res.y keeps its old value.
   */
  method PointAdd(res: ECPoint, p: ECPoint, q: ECPoint, c: Curve) returns (status: int)
    modifies res
    ensures var r := Add(c, old(p.View()), old(q.View()));
      && (status == 0 <==> r.Sum?) && (status == -1 <==> r.NoInverse?)
      && (r.Sum? ==> res.View() == r.point)
      && (r.NoInverse? ==> res.x == r.den && res.y == old(res.y))
  {
    if p.x == 0 && p.y == 0 {
      res.x := q.x;
      res.y := q.y;
      return 0;
    }
    if q.x == 0 && q.y == 0 {
      res.x := p.x;
      res.y := p.y;
      return 0;
    }
    var k: int;
    if p.x == q.x && p.y == q.y {
      if p.y == 0 {
        res.x, res.y := 0, 0;
        return 0;
      }
      var tmp := 2 * p.y;
      var inv := Inverse(tmp, c.n);
      if inv.None? {
        res.x := tmp;
        return -1;
      }
      k := (3 * (p.x * p.x) + c.a) * inv.value;
    } else {
      if p.x == q.x {
        res.x, res.y := 0, 0;
        return 0;
      }
      var tmp := p.x - q.x;
      var inv := Inverse(tmp, c.n);
      if inv.None? {
        res.x := tmp;
        return -1;
      }
      k := (p.y - q.y) * inv.value;
    }
    var resX := (k * k - p.x - q.x) % c.n;
    var resY := (k * (p.x - resX) - p.y) % c.n;
    res.x, res.y := resX, resY;
    status := 0;
  }

  /** The outcome of a double-and-add walk: the accumulator, or the failed denominator and the accumulator at that moment. */
  datatype WalkResult<T> = Finished(acc: T) | Failed(den: int, acc: T)

  /**
   * The double-and-add walk of point_mul over a digit string, read from its
   * last character (the least significant bit) to its first. On a '1' the
   * running point is added into the accumulator; then the running point is
   * always doubled. The first failed addition ends the walk.
   */
  function Walk<T>(add: (T, T) -> AddOutcome<T>, acc: T, run: T, bits: seq<char>): WalkResult<T>
    decreases |bits|
  {
    if bits == [] then Finished(acc)
    else
      var step := if bits[|bits| - 1] == '1' then add(acc, run) else Sum(acc);
      match step
      case NoInverse(den) => Failed(den, acc)
      case Sum(acc') =>
        match add(run, run)
        case NoInverse(den) => Failed(den, acc')
        case Sum(run') => Walk(add, acc', run', bits[..|bits| - 1])
  }

  function AddOn(c: Curve): (Point, Point) -> AddOutcome<Point>
  {
    (u, v) => Add(c, u, v)
  }

  function Digit(b: nat): char
    requires b < 2
  {
    if b == 0 then '0' else '1'
  }

  function NatBits(n: nat): seq<char>
    requires n > 0
    decreases n
  {
    if n == 1 then "1" else NatBits(n / 2) + [Digit(n % 2)]
  }

  /** mpz_get_str(NULL, 2, d): "0", the binary digits of d, or '-' and those of -d. */
  function BinaryString(d: int): (s: seq<char>)
    ensures |s| >= 1
  {
    if d == 0 then "0" else if d > 0 then NatBits(d) else ['-'] + NatBits(-d)
  }

  /** The number a digit string stands for when, as in point_mul, every character other than '1' counts as 0. */
  function BitsValue(s: seq<char>): nat
  {
    if s == [] then 0 else 2 * BitsValue(s[..|s| - 1]) + (if s[|s| - 1] == '1' then 1 else 0)
  }

  /** point_mul(Q, P, d, curve) as a value: the walk from the sentinel with running point P. */
  function Mul(c: Curve, p: Point, d: int): WalkResult<Point>
  {
    Walk(AddOn(c), Infinity, p, BinaryString(d))
  }

  /**
   * point_mul(Q, P, d, curve). P is copied before Q is reset to the sentinel,
   * so Q may be P. On failure Q.x holds the denominator of whichever addition
   * or doubling failed and Q.y the accumulator's y at that moment.
   */
  method PointMul(Q: ECPoint, P: ECPoint, d: int, c: Curve) returns (status: int)
    modifies Q
    ensures var w := Mul(c, old(P.View()), d);
      && (status == 0 <==> w.Finished?) && (status == -1 <==> w.Failed?)
      && (w.Finished? ==> Q.View() == w.acc)
      && (w.Failed? ==> Q.View() == Point(w.den, w.acc.y))
  {
    var bin := BinaryString(d);
    var run := new ECPoint(P.x, P.y);
    Q.x, Q.y := 0, 0;
    var i := |bin| - 1;
    assert bin[..i + 1] == bin && run.View() == old(P.View()) && Q.View() == Infinity;
    while i >= 0
      invariant -1 <= i < |bin|
      invariant Mul(c, old(P.View()), d) == Walk(AddOn(c), Q.View(), run.View(), bin[..i + 1])
      decreases i
    {
      assert bin[..i + 1][..i] == bin[..i];
      if bin[i] == '1' {
        var st := PointAdd(Q, Q, run, c);
        if st == -1 {
          return -1;
        }
      }
      var st := PointAdd(run, run, run, c);
      if st == -1 {
        Q.x := run.x;
        return -1;
      }
      i := i - 1;
    }
    assert bin[..0] == [];
    status := 0;
  }

  /** Integer addition, a point_add that never fails. */
  function IntAdd(): (int, int) -> AddOutcome<int>
  {
    (a: int, b: int) => Sum(a + b)
  }

  /** Over the integers the walk adds run times the value of the digit string into the accumulator. */
  lemma {:induction false} WalkOverIntegers(acc: int, run: int, bits: seq<char>)
    ensures Walk(IntAdd(), acc, run, bits) == Finished(acc + run * BitsValue(bits))
    decreases |bits|
  {
    if bits != [] {
      var b := if bits[|bits| - 1] == '1' then 1 else 0;
      var rest := bits[..|bits| - 1];
      WalkOverIntegers(acc + b * run, run + run, rest);
      assert acc + b * run + (run + run) * BitsValue(rest) == acc + run * (2 * BitsValue(rest) + b);
    }
  }

  lemma {:induction false} NatBitsValue(n: nat)
    requires n > 0
    ensures BitsValue(NatBits(n)) == n
    decreases n
  {
    if n > 1 {
      NatBitsValue(n / 2);
      var s := NatBits(n / 2) + [Digit(n % 2)];
      assert s[..|s| - 1] == NatBits(n / 2);
    }
  }

  /** A leading character other than '1' adds nothing to the value. */
  lemma {:induction false} LeadingSignIgnored(ch: char, s: seq<char>)
    requires ch != '1'
    ensures BitsValue([ch] + s) == BitsValue(s)
    decreases |s|
  {
    if s != [] {
      var t := [ch] + s;
      assert t[..|t| - 1] == [ch] + s[..|s| - 1];
      LeadingSignIgnored(ch, s[..|s| - 1]);
    }
  }

  /** The digit string of d stands for |d|: point_mul ignores the sign of its scalar. */
  lemma BinaryStringValue(d: int)
    ensures BitsValue(BinaryString(d)) == Abs(d)
  {
    if d > 0 {
      NatBitsValue(d);
    } else if d < 0 {
      NatBitsValue(-d);
      LeadingSignIgnored('-', NatBits(-d));
    }
  }

  /**
   * The walk of point_mul, run over the integers from accumulator 0 and
   * running value 1, computes |d|: reading the digit string from its last
   * character is the least-significant-bit-first double-and-add for d.
   */
  lemma WalkComputesScalar(d: int)
    ensures Walk(IntAdd(), 0, 1, BinaryString(d)) == Finished(Abs(d))
  {
    WalkOverIntegers(0, 1, BinaryString(d));
    BinaryStringValue(d);
  }

  /** Whichever addition or doubling of point_mul fails, the value it leaves has a gcd with N that divides N and exceeds 1. */
  lemma {:induction false} WalkFailureRevealsDivisor(c: Curve, acc: Point, run: Point, bits: seq<char>)
    requires c.n > 1 && Walk(AddOn(c), acc, run, bits).Failed?
    ensures var g := Gcd(Abs(Walk(AddOn(c), acc, run, bits).den), c.n); 1 < g <= c.n && c.n % g == 0
    decreases |bits|
  {
    var den := Walk(AddOn(c), acc, run, bits).den;
    var step := if bits[|bits| - 1] == '1' then Add(c, acc, run) else Sum(acc);
    if step.NoInverse? {
      NonUnitGcdIsDivisor(den, c.n);
    } else if Add(c, run, run).NoInverse? {
      NonUnitGcdIsDivisor(den, c.n);
    } else {
      WalkFailureRevealsDivisor(c, step.point, Add(c, run, run).point, bits[..|bits| - 1]);
    }
  }

  lemma MulFailureRevealsDivisor(c: Curve, p: Point, d: int)
    requires c.n > 1 && Mul(c, p, d).Failed?
    ensures var g := Gcd(Abs(Mul(c, p, d).den), c.n); 1 < g <= c.n && c.n % g == 0
  {
    WalkFailureRevealsDivisor(c, Infinity, p, BinaryString(d));
  }

  /** Multiplying the sentinel never fails and gives the sentinel. */
  lemma {:induction false} WalkFromInfinity(c: Curve, bits: seq<char>)
    ensures Walk(AddOn(c), Infinity, Infinity, bits) == Finished(Infinity)
    decreases |bits|
  {
    if bits != [] {
      WalkFromInfinity(c, bits[..|bits| - 1]);
    }
  }

  /** One draw of the random source: the values curve_create_random builds from rand() for x0, y0 and a. */
  datatype Draw = Draw(x0: nat, y0: nat, a: nat)

  /** b = y0^2 - (x0^3 mod N) - a x0, as curve_create_random computes it (not reduced mod N). */
  function CoefficientB(d: Draw, n: int): int
    requires n > 0
  {
    d.y0 * d.y0 - (d.x0 * d.x0 * d.x0) % n - d.a * d.x0
  }

  predicate OnCurve(c: Curve, p: Point)
    requires c.n > 0
  {
    (p.y * p.y) % c.n == (p.x * p.x * p.x + c.a * p.x + c.b) % c.n
  }

  predicate Accepts(d: Draw, n: int)
    requires n > 0
  {
    CurveIsSmooth(d.a, CoefficientB(d, n), n)
  }

  /** The sampled point lies on the curve whose b was computed from it. */
  lemma DrawOnCurve(d: Draw, n: int)
    requires n > 0
    ensures OnCurve(Curve(d.a, CoefficientB(d, n), n), Point(d.x0, d.y0))
  {
    var x3 := d.x0 * d.x0 * d.x0;
    assert x3 == (x3 / n) * n + x3 % n;
    var rhs := x3 + d.a * d.x0 + CoefficientB(d, n);
    assert rhs - d.y0 * d.y0 == (x3 / n) * n;
    CongruentByMultiple(rhs, d.y0 * d.y0, x3 / n, n);
  }

  /**
   * curve_create_random(curve, P, modulus), with the rand() draws of the
   * successive attempts given as a sequence. The do-while loop tries draws
   * in order until the curve is smooth; None means every given draw was
   * rejected and the C loop would go on drawing.
   */
  method CurveCreateRandom(modulus: int, draws: seq<Draw>) returns (r: Option<(Curve, Point)>, used: nat)
    requires modulus > 0
    ensures r.Some? ==> used < |draws| && Accepts(draws[used], modulus)
    ensures r.Some? ==> r.value == (Curve(draws[used].a, CoefficientB(draws[used], modulus), modulus), Point(draws[used].x0, draws[used].y0))
    ensures r.Some? ==> OnCurve(r.value.0, r.value.1)
    ensures r.Some? ==> forall j :: 0 <= j < used ==> !Accepts(draws[j], modulus)
    ensures r.None? ==> forall j :: 0 <= j < |draws| ==> !Accepts(draws[j], modulus)
  {
    used := 0;
    while used < |draws|
      invariant used <= |draws|
      invariant forall j :: 0 <= j < used ==> !Accepts(draws[j], modulus)
    {
      var d := draws[used];
      var b := d.y0 * d.y0 - (d.x0 * d.x0 * d.x0) % modulus - d.a * d.x0;
      if CurveIsSmooth(d.a, b, modulus) {
        DrawOnCurve(d, modulus);
        return Some((Curve(d.a, b, modulus), Point(d.x0, d.y0))), used;
      }
      used := used + 1;
    }
    r := None;
  }
}
