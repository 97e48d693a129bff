/**
 * Stage one of Lenstra's elliptic curve method (ecm/ecm.c): the point is
 * multiplied in place by 2, 3, 4, ... while the running product of those
 * multipliers (times 2) stays below B1. A failed inversion inside the
 * multiplication is turned into gcd(P.x, N).
 */
module Ecm {
  import opened Wrappers
  import opened Arith
  import opened EllipticCurve

  function Factorial(k: nat): nat
  {
    if k == 0 then 1 else k * Factorial(k - 1)
  }

  /** Multiplying current >= 2 by next_factor >= 2 at least doubles it, so the loop ends for every B1. */
  lemma Doubles(current: int, nextFactor: int)
    requires current >= 2 && nextFactor >= 2
    ensures current * nextFactor >= current + current
  {
  }

  /** current = 2 (k - 1)! before a pass with next_factor = k, and 2 k! after it. */
  lemma FactorialStep(current: int, k: nat)
    requires k >= 1 && current == 2 * Factorial(k - 1)
    ensures current * k == 2 * Factorial(k)
  {
    assert Factorial(k) == k * Factorial(k - 1);
  }

  /** The return value of ecm(), what it wrote to *out (None: not written), the final P and *stop. */
  datatype StageOneResult = StageOneResult(status: int, out: Option<int>, point: Point, stop: int)

  /**
   * The loop of ecm() from the state (P, current, next_factor). It stops with
   * -1 when current reaches B1, when *stop is 1 at the top of an iteration,
   * or when P becomes the sentinel; it stops with 0, *out = gcd(P.x, N) and
   * *stop = 1 when point_mul fails.
   */
  function StageOneFrom(c: Curve, p: Point, current: int, nextFactor: int, b1: int, stop: int): StageOneResult
    requires current >= 2 && nextFactor >= 2
    decreases b1 - current, 1
  {
    if current >= b1 || stop == 1 then StageOneResult(-1, None, p, stop)
    else StageOneAfter(c, Mul(c, p, nextFactor), current, nextFactor, b1, stop)
  }

  /** The rest of one pass, once point_mul has ended with m: current is multiplied by next_factor before the call. */
  function StageOneAfter(c: Curve, m: WalkResult<Point>, current: int, nextFactor: int, b1: int, stop: int): StageOneResult
    requires 2 <= current < b1 && nextFactor >= 2
    decreases b1 - current, 0
  {
    Doubles(current, nextFactor);
    match m
    case Failed(den, acc) => StageOneResult(0, Some(Gcd(Abs(den), Abs(c.n))), Point(den, acc.y), 1)
    case Finished(q) =>
      if IsInfinity(q) then StageOneResult(-1, None, q, stop)
      else StageOneFrom(c, q, current * nextFactor, nextFactor + 1, b1, stop)
  }

  /** ecm(out, curve, P, B1, stop) from its initial state current = next_factor = 2. */
  function StageOne(c: Curve, p: Point, b1: int, stop: int): (r: StageOneResult)
    ensures (r.status == 0 || r.status == -1) && (r.out.Some? <==> r.status == 0) && (r.status == -1 ==> r.stop == stop)
    ensures c.n > 1 && r.status == 0 ==> 1 < r.out.value <= c.n && c.n % r.out.value == 0 && r.stop == 1
  {
    var r := StageOneFrom(c, p, 2, 2, b1, stop);
    assert (r.status == 0 || r.status == -1) && (r.out.Some? <==> r.status == 0) && (r.status == -1 ==> r.stop == stop) by {
      StageOneOutOnlyOnFactor(c, p, 2, 2, b1, stop);
    }
    assert c.n > 1 && r.status == 0 ==> 1 < r.out.value <= c.n && c.n % r.out.value == 0 && r.stop == 1 by {
      if c.n > 1 && r.status == 0 {
        StageOneFactorIsDivisor(c, p, 2, 2, b1, stop);
      }
    }
    r
  }

  /**
   * ecm(out, curve, P, B1, stop). The stop flag, shared between worker
   * threads in the C code, is read here as the value it has on entry; the
   * value ecm leaves in it is returned as stopAfter. out is None when the C
   * code does not write *out.
   */
  method RunStageOne(c: Curve, P: ECPoint, b1: int, stop: int) returns (status: int, out: Option<int>, stopAfter: int)
    modifies P
    ensures var r := StageOne(c, old(P.View()), b1, stop);
      status == r.status && out == r.out && P.View() == r.point && stopAfter == r.stop
  {
    var current := 2;
    var nextFactor := 2;
    status, out, stopAfter := -1, None, stop;
    while current < b1
      invariant nextFactor >= 2 && current == 2 * Factorial(nextFactor - 1)
      invariant StageOne(c, old(P.View()), b1, stop) == StageOneFrom(c, P.View(), current, nextFactor, b1, stop)
      decreases b1 - current
    {
      if stopAfter == 1 {
        break;
      }
      FactorialStep(current, nextFactor);
      Doubles(current, nextFactor);
      current := current * nextFactor;
      var st := PointMul(P, P, nextFactor, c);
      if st == -1 {
        out := Some(Gcd(Abs(P.x), Abs(c.n)));
        status := 0;
        stopAfter := 1;
        break;
      }
      if P.x == 0 && P.y == 0 {
        break;
      }
      nextFactor := nextFactor + 1;
    }
  }

  /** When the function returns 0, *out is a divisor of N above 1 and *stop is set. */
  lemma {:induction false} StageOneFactorIsDivisor(c: Curve, p: Point, current: int, nextFactor: int, b1: int, stop: int)
    requires c.n > 1 && current >= 2 && nextFactor >= 2
    requires StageOneFrom(c, p, current, nextFactor, b1, stop).status == 0
    ensures var r := StageOneFrom(c, p, current, nextFactor, b1, stop);
      r.out.Some? && 1 < r.out.value <= c.n && c.n % r.out.value == 0 && r.stop == 1
    decreases b1 - current, 1
  {
    assert current < b1 && stop != 1;
    var m := Mul(c, p, nextFactor);
    if m.Failed? {
      MulFailureRevealsDivisor(c, p, nextFactor);
    }
    AfterFactorIsDivisor(c, m, current, nextFactor, b1, stop);
  }

  /** The same for the rest of a pass: a failed point_mul must have revealed a divisor. */
  lemma {:induction false} AfterFactorIsDivisor(c: Curve, m: WalkResult<Point>, current: int, nextFactor: int, b1: int, stop: int)
    requires c.n > 1 && 2 <= current < b1 && nextFactor >= 2
    requires m.Failed? ==> var g := Gcd(Abs(m.den), c.n); 1 < g <= c.n && c.n % g == 0
    requires StageOneAfter(c, m, current, nextFactor, b1, stop).status == 0
    ensures var r := StageOneAfter(c, m, current, nextFactor, b1, stop);
      r.out.Some? && 1 < r.out.value <= c.n && c.n % r.out.value == 0 && r.stop == 1
    decreases b1 - current, 0
  {
    Doubles(current, nextFactor);
    if m.Finished? && !IsInfinity(m.acc) {
      StageOneFactorIsDivisor(c, m.acc, current * nextFactor, nextFactor + 1, b1, stop);
    }
  }

  /** *out is written exactly when the return value is 0; otherwise the status is -1 and *stop is as it was. */
  lemma {:induction false} StageOneOutOnlyOnFactor(c: Curve, p: Point, current: int, nextFactor: int, b1: int, stop: int)
    requires current >= 2 && nextFactor >= 2
    ensures var r := StageOneFrom(c, p, current, nextFactor, b1, stop);
      (r.status == 0 || r.status == -1) && (r.out.Some? <==> r.status == 0) && (r.status == -1 ==> r.stop == stop)
    decreases b1 - current, 1
  {
    if current < b1 && stop != 1 {
      AfterOutOnlyOnFactor(c, Mul(c, p, nextFactor), current, nextFactor, b1, stop);
    }
  }

  /** The same for the rest of a pass, whatever point_mul returned. */
  lemma {:induction false} AfterOutOnlyOnFactor(c: Curve, m: WalkResult<Point>, current: int, nextFactor: int, b1: int, stop: int)
    requires 2 <= current < b1 && nextFactor >= 2
    ensures var r := StageOneAfter(c, m, current, nextFactor, b1, stop);
      (r.status == 0 || r.status == -1) && (r.out.Some? <==> r.status == 0) && (r.status == -1 ==> r.stop == stop)
    decreases b1 - current, 0
  {
    Doubles(current, nextFactor);
    if m.Finished? && !IsInfinity(m.acc) {
      StageOneOutOnlyOnFactor(c, m.acc, current * nextFactor, nextFactor + 1, b1, stop);
    }
  }

  /** With *stop already 1 the function returns -1 and leaves P untouched. */
  lemma StageOneStopped(c: Curve, p: Point, b1: int)
    ensures StageOne(c, p, b1, 1) == StageOneResult(-1, None, p, 1)
  {
  }
}
