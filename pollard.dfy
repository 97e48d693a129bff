/**
 * Pollard's rho method as written in ecm/pollard.c. The pseudo-random map is
 * g(v) = v^2 + 1 mod n; the hare y takes two steps of g per pass, but the
 * tortoise x is updated as x*y + 1 rather than x*x + 1 (the comment on that
 * line of the C file calls this a mistake). The loop has no iteration cap,
 * so the model runs for at most `fuel` passes and reports when it ran out.
 */
module Pollard {
  import opened Arith

  /** The hare's step g(v) = v^2 + 1 mod n. */
  function G(v: int, n: int): int
    requires n != 0
  {
    (v * v + 1) % n
  }

  /** Done: the loop exited with d != 1 and the function returned status (-1 iff d == n). OutOfFuel: still looping at (x, y). */
  datatype RhoResult = Done(status: int, d: nat) | OutOfFuel(x: int, y: int)

  /**
   * What pollard() returns once the pass has made d = gcd(|x - y|, n) different
   * from 1: for n > 0 that d is a divisor of n above 1, and the status is -1
   * exactly when it is n itself.
   */
  function Exit(diff: int, n: int): (r: RhoResult)
    requires n != 0 && Gcd(Abs(diff), Abs(n)) != 1
    ensures r.Done? && r.d == Gcd(Abs(diff), Abs(n))
    ensures n > 0 ==> 1 < r.d <= n && n % r.d == 0 && (r.status == 0 <==> r.d < n) && (r.status == -1 <==> r.d == n)
  {
    var d := Gcd(Abs(diff), Abs(n));
    assert n > 0 ==> 1 < d <= n && n % d == 0 by {
      if n > 0 {
        NonUnitGcdIsDivisor(diff, n);
      }
    }
    Done(if d == n then -1 else 0, d)
  }

  /** The loop of pollard() as written, from (x, y), for at most `fuel` passes. */
  function RhoFrom(n: int, x: int, y: int, fuel: nat): RhoResult
    requires n != 0
    decreases fuel
  {
    if fuel == 0 then OutOfFuel(x, y)
    else
      var x' := (x * y + 1) % n;
      var y' := G(G(y, n), n);
      var d := Gcd(Abs(x' - y'), Abs(n));
      if d != 1 then Exit(x' - y', n) else RhoFrom(n, x', y', fuel - 1)
  }

  /** pollard(&d, &n): x = y = 2 and d = 1 before the first pass. */
  function RhoRun(n: int, fuel: nat): RhoResult
    requires n != 0
  {
    RhoFrom(n, 2, 2, fuel)
  }

  /** pollard(&d, &n), cut off after `fuel` passes of its loop. */
  method Rho(n: int, fuel: nat) returns (r: RhoResult)
    requires n != 0
    ensures r == RhoRun(n, fuel)
  {
    var x, y := 2, 2;
    var d: nat := 1;
    var k: nat := 0;
    while d == 1 && k < fuel
      invariant k <= fuel
      invariant d == 1 ==> RhoRun(n, fuel) == RhoFrom(n, x, y, fuel - k)
      invariant d == Gcd(Abs(x - y), Abs(n)) || (k == 0 && d == 1)
      invariant d != 1 ==> RhoRun(n, fuel) == Exit(x - y, n)
      decreases fuel - k
    {
      x := (x * y + 1) % n;
      y := (y * y + 1) % n;
      y := (y * y + 1) % n;
      d := Gcd(Abs(x - y), Abs(n));
      k := k + 1;
    }
    if d == 1 {
      return OutOfFuel(x, y);
    }
    r := Exit(x - y, n);
  }

  /** Whenever the loop exits, d divides n; for n > 0 the status is 0 exactly when 1 < d < n. */
  lemma {:induction false} RhoExitIsDivisor(n: int, x: int, y: int, fuel: nat)
    requires n > 0
    requires RhoFrom(n, x, y, fuel).Done?
    ensures var r := RhoFrom(n, x, y, fuel);
      1 < r.d <= n && n % r.d == 0 && (r.status == 0 <==> r.d < n) && (r.status == -1 <==> r.d == n)
    decreases fuel
  {
    var x' := (x * y + 1) % n;
    var y' := G(G(y, n), n);
    var d := Gcd(Abs(x' - y'), Abs(n));
    if d == 1 {
      RhoExitIsDivisor(n, x', y', fuel - 1);
    }
  }

  /** The status returned by pollard() for n > 0: 0 means d is a proper divisor of n. */
  lemma RhoFactorIsProper(n: int, fuel: nat)
    requires n > 0 && RhoRun(n, fuel).Done?
    ensures var r := RhoRun(n, fuel);
      1 < r.d <= n && (r.status == 0 ==> r.d < n && n % r.d == 0) && (r.status == -1 <==> r.d == n)
  {
    RhoExitIsDivisor(n, 2, 2, fuel);
  }

  /** From (3, 2) modulo 4, every pass gives back (3, 2) with d = 1. */
  lemma {:induction false} RhoStuckAtFour(fuel: nat)
    ensures RhoFrom(4, 3, 2, fuel) == OutOfFuel(3, 2)
    decreases fuel
  {
    if fuel > 0 {
      assert Gcd(1, 4) == 1;
      RhoStuckAtFour(fuel - 1);
    }
  }

  /** As written, pollard(4) never leaves its loop: (2, 2) -> (1, 2) -> (3, 2) -> (3, 2) -> ... with d = 1 throughout. */
  lemma RhoNeverFinishesOnFour(fuel: nat)
    ensures RhoRun(4, fuel).OutOfFuel?
  {
    if fuel >= 2 {
      assert Gcd(1, 4) == 1;
      assert G(G(2, 4), 4) == 2 && (2 * 2 + 1) % 4 == 1;
      assert RhoFrom(4, 2, 2, fuel) == RhoFrom(4, 1, 2, fuel - 1);
      assert (1 * 2 + 1) % 4 == 3;
      assert RhoFrom(4, 1, 2, fuel - 1) == RhoFrom(4, 3, 2, fuel - 2);
      RhoStuckAtFour(fuel - 2);
    } else if fuel == 1 {
      assert Gcd(1, 4) == 1;
      assert G(G(2, 4), 4) == 2 && (2 * 2 + 1) % 4 == 1;
    }
  }

  /** As written, pollard(12) leaves its first pass with d = gcd(|5 - 2|, 12) = 3, so the cofactor 4 is pushed next. */
  lemma RhoSplitsTwelve(fuel: nat)
    requires fuel >= 1
    ensures RhoRun(12, fuel) == Done(0, 3) && 12 / 3 == 4
  {
    assert G(G(2, 12), 12) == 2 && (2 * 2 + 1) % 12 == 5;
    assert Gcd(3, 12) == 3;
  }

  /** For n = 1 every pass gives x = y = 0 and d = gcd(0, 1) = 1, so the loop never ends. */
  lemma {:induction false} RhoNeverFinishesOnOne(x: int, y: int, fuel: nat)
    ensures RhoFrom(1, x, y, fuel).OutOfFuel?
    decreases fuel
  {
    if fuel > 0 {
      assert Gcd(0, 1) == 1;
      RhoNeverFinishesOnOne(0, 0, fuel - 1);
    }
  }

  // ---------------------------------------------------------------------
  // The evidently intended loop: Floyd's cycle finding with x := g(x).
  // ---------------------------------------------------------------------

  /** The loop with line 15 corrected to x := x*x + 1 mod n. */
  function FloydFrom(n: int, x: int, y: int, fuel: nat): RhoResult
    requires n != 0
    decreases fuel
  {
    if fuel == 0 then OutOfFuel(x, y)
    else
      var x' := G(x, n);
      var y' := G(G(y, n), n);
      var d := Gcd(Abs(x' - y'), Abs(n));
      if d != 1 then Exit(x' - y', n) else FloydFrom(n, x', y', fuel - 1)
  }

  function FloydRun(n: int, fuel: nat): RhoResult
    requires n != 0
  {
    FloydFrom(n, 2, 2, fuel)
  }

  /** pollard() with the corrected tortoise step, cut off after `fuel` passes. */
  method Floyd(n: int, fuel: nat) returns (r: RhoResult)
    requires n != 0
    ensures r == FloydRun(n, fuel)
  {
    var x, y := 2, 2;
    var d: nat := 1;
    var k: nat := 0;
    while d == 1 && k < fuel
      invariant k <= fuel
      invariant d == 1 ==> FloydRun(n, fuel) == FloydFrom(n, x, y, fuel - k)
      invariant d == Gcd(Abs(x - y), Abs(n)) || (k == 0 && d == 1)
      invariant d != 1 ==> FloydRun(n, fuel) == Exit(x - y, n)
      decreases fuel - k
    {
      x := (x * x + 1) % n;
      y := (y * y + 1) % n;
      y := (y * y + 1) % n;
      d := Gcd(Abs(x - y), Abs(n));
      k := k + 1;
    }
    if d == 1 {
      return OutOfFuel(x, y);
    }
    r := Exit(x - y, n);
  }

  /** The corrected loop on 4: (2, 2) -> (1, 2) -> (2, 2), where d = gcd(0, 4) = 4 = n, so pollard() returns -1. */
  lemma FloydFailsOnFour(fuel: nat)
    requires fuel >= 2
    ensures FloydRun(4, fuel) == Done(-1, 4)
  {
    assert G(2, 4) == 1 && G(1, 4) == 2 && G(G(2, 4), 4) == 2;
    assert Gcd(1, 4) == 1 && Gcd(0, 4) == 4;
    assert FloydFrom(4, 2, 2, fuel) == FloydFrom(4, 1, 2, fuel - 1);
  }

  /** g applied k times to 2. */
  function Orbit(n: int, k: nat): int
    requires n != 0
  {
    if k == 0 then 2 else G(Orbit(n, k - 1), n)
  }

  lemma {:induction false} OrbitInRange(n: int, k: nat)
    requires n > 0 && k >= 1
    ensures 0 <= Orbit(n, k) < n
  {
  }

  lemma {:induction false} OrbitAdd(n: int, i: nat, j: nat)
    requires n != 0
    ensures Orbit(n, i + j) == Iterate(n, Orbit(n, i), j)
    decreases j
  {
    if j > 0 {
      OrbitAdd(n, i, j - 1);
    }
  }

  /** g applied k times to v. */
  function Iterate(n: int, v: int, k: nat): int
    requires n != 0
  {
    if k == 0 then v else G(Iterate(n, v, k - 1), n)
  }

  /** A sequence of distinct values from [0, m) has at most m elements. */
  lemma {:induction false} DistinctBound(s: seq<int>, m: nat)
    requires forall i :: 0 <= i < |s| ==> 0 <= s[i] < m
    requires forall i, j :: 0 <= i < j < |s| ==> s[i] != s[j]
    ensures |s| <= m
    decreases |s|
  {
    if |s| > 0 {
      var v := s[|s| - 1];
      // Close the gap left by v: values above it move down by one.
      var t := seq(|s| - 1, i requires 0 <= i < |s| - 1 => if s[i] > v then s[i] - 1 else s[i]);
      forall i | 0 <= i < |t|
        ensures 0 <= t[i] < m - 1
      {
        assert s[i] != v;
      }
      forall i, j | 0 <= i < j < |t|
        ensures t[i] != t[j]
      {
        assert s[i] != s[j] && s[i] != v && s[j] != v;
      }
      DistinctBound(t, m - 1);
    }
  }

  /** Among g^1(2), ..., g^(n+1)(2) two values coincide. */
  lemma OrbitRepeats(n: int) returns (a: nat, b: nat)
    requires n > 0
    ensures 1 <= a < b <= n + 1 && Orbit(n, a) == Orbit(n, b)
  {
    var s := seq(n + 1, i requires 0 <= i => Orbit(n, i + 1));
    forall i | 0 <= i < |s|
      ensures 0 <= s[i] < n
    {
      OrbitInRange(n, i + 1);
    }
    if forall i, j :: 0 <= i < j < |s| ==> s[i] != s[j] {
      DistinctBound(s, n);
      assert false;
    }
    var i, j :| 0 <= i < j < |s| && s[i] == s[j];
    a, b := i + 1, j + 1;
  }

  /** Once the orbit repeats with period p from index a on, every later index shifts by multiples of p. */
  lemma {:induction false} OrbitPeriodic(n: int, a: nat, p: nat, k: nat, m: nat)
    requires n != 0 && Orbit(n, a) == Orbit(n, a + p) && k >= a
    ensures Orbit(n, k + m * p) == Orbit(n, k)
    decreases m
  {
    if m > 0 {
      OrbitPeriodic(n, a, p, k, m - 1);
      OrbitShift(n, a, p, k + (m - 1) * p);
      assert k + (m - 1) * p + p == k + m * p;
    }
  }

  lemma {:induction false} OrbitShift(n: int, a: nat, p: nat, k: nat)
    requires n != 0 && Orbit(n, a) == Orbit(n, a + p) && k >= a
    ensures Orbit(n, k + p) == Orbit(n, k)
  {
    OrbitAdd(n, a, k - a);
    OrbitAdd(n, a + p, k - a);
    assert a + p + (k - a) == k + p;
  }

  /** There is a pass t in 1..n after which the tortoise and hare meet: g^t(2) == g^(2t)(2). */
  lemma MeetingPass(n: int) returns (t: nat)
    requires n > 0
    ensures 1 <= t <= n && Orbit(n, t) == Orbit(n, 2 * t)
  {
    var a, b := OrbitRepeats(n);
    var p := b - a;
    var q := (a + p - 1) / p;
    t := q * p;
    DivModUnique(a + p - 1, p, q, (a + p - 1) % p);
    assert a <= t < a + p;
    OrbitPeriodic(n, a, p, t, q);
    assert t + q * p == 2 * t;
  }

  /** With the pass t of MeetingPass still ahead, the corrected loop exits within it. */
  lemma {:induction false} FloydReaches(n: int, i: nat, t: nat, fuel: nat)
    requires n > 1 && i < t <= i + fuel && Orbit(n, t) == Orbit(n, 2 * t)
    ensures FloydFrom(n, Orbit(n, i), Orbit(n, 2 * i), fuel).Done?
    decreases fuel
  {
    var x' := G(Orbit(n, i), n);
    var y' := G(G(Orbit(n, 2 * i), n), n);
    assert x' == Orbit(n, i + 1);
    assert G(Orbit(n, 2 * i), n) == Orbit(n, 2 * i + 1);
    assert y' == Orbit(n, 2 * (i + 1));
    if Gcd(Abs(x' - y'), Abs(n)) == 1 {
      if t == i + 1 {
        assert Gcd(0, n) == n;
        assert false;
      }
      FloydReaches(n, i + 1, t, fuel - 1);
    }
  }

  /** The corrected loop always exits within n passes for n >= 2. */
  lemma FloydFinishes(n: int, fuel: nat)
    requires n > 1 && fuel >= n
    ensures FloydRun(n, fuel).Done?
  {
    var t := MeetingPass(n);
    assert Orbit(n, 0) == 2 && Orbit(n, 2 * 0) == 2;
    FloydReaches(n, 0, t, fuel);
  }

  /** The corrected loop's exit still yields a divisor, proper exactly when the status is 0. */
  lemma {:induction false} FloydExitIsDivisor(n: int, x: int, y: int, fuel: nat)
    requires n > 0
    requires FloydFrom(n, x, y, fuel).Done?
    ensures var r := FloydFrom(n, x, y, fuel);
      1 < r.d <= n && n % r.d == 0 && (r.status == 0 <==> r.d < n) && (r.status == -1 <==> r.d == n)
    decreases fuel
  {
    var x' := G(x, n);
    var y' := G(G(y, n), n);
    var d := Gcd(Abs(x' - y'), Abs(n));
    if d == 1 {
      FloydExitIsDivisor(n, x', y', fuel - 1);
    }
  }
}
