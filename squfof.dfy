/**
 * Shanks' square forms factorisation as written in src/Squfof.java: the
 * Newton integer square root, the perfect-square filter for 64-bit values
 * and the forward and reverse continued-fraction phases ending in a gcd.
 * Java `long` arithmetic is modelled with unbounded integers; `/` on longs
 * and BigInteger.divide truncate toward zero, which JavaDiv spells out.
 */
module Squfof {
  import opened Arith

  /** Java's integer division: the quotient truncated toward zero. */
  function JavaDiv(a: int, b: int): (q: int)
    requires b != 0
    ensures a >= 0 && b > 0 ==> q == a / b
  {
    var q := Abs(a) / Abs(b);
    if (a < 0) != (b < 0) then -q else q
  }

  /** Truncating division is exact on multiples. */
  lemma JavaDivExact(k: int, s: int)
    requires s != 0
    ensures JavaDiv(s * k, s) == k
  {
    DivModUnique(Abs(s * k), Abs(s), Abs(k), 0);
    assert Abs(s * k) == Abs(k) * Abs(s);
  }

  function Pow2(k: nat): (r: nat)
    ensures r >= 1
  {
    if k == 0 then 1 else 2 * Pow2(k - 1)
  }

  lemma {:induction false} Pow2Monotone(i: nat, j: nat)
    requires i <= j
    ensures Pow2(i) <= Pow2(j)
    decreases j
  {
    if i < j {
      Pow2Monotone(i, j - 1);
    }
  }

  /** Bits needed for a natural number: 0 for 0. */
  function NatBitLength(n: nat): nat
  {
    if n == 0 then 0 else 1 + NatBitLength(n / 2)
  }

  /** BigInteger.bitLength: the bits of the two's-complement form, sign bit excluded. */
  function BitLength(n: int): nat
  {
    if n >= 0 then NatBitLength(n) else NatBitLength(-n - 1)
  }

  lemma {:induction false} NatBitLengthBounds(n: nat)
    requires n >= 1
    ensures NatBitLength(n) >= 1 && Pow2(NatBitLength(n) - 1) <= n < Pow2(NatBitLength(n))
    decreases n
  {
    if n >= 2 {
      NatBitLengthBounds(n / 2);
    }
  }

  /** A value r is the floor of the square root of n. */
  predicate IsFloorSqrt(r: int, n: int)
  {
    r >= 0 && r * r <= n < (r + 1) * (r + 1)
  }

  /** The reference integer square root. */
  function FloorSqrt(n: nat): (r: nat)
    ensures IsFloorSqrt(r, n)
  {
    if n == 0 then 0
    else
      var r := FloorSqrt(n - 1);
      if (r + 1) * (r + 1) <= n then
        assert (r + 2) * (r + 2) == (r + 1) * (r + 1) + 2 * r + 3;
        r + 1
      else r
  }

  /** The floor square root is unique. */
  lemma FloorSqrtUnique(r: int, s: int, n: int)
    requires IsFloorSqrt(r, n) && IsFloorSqrt(s, n)
    ensures r == s
  {
    if r < s {
      assert (r + 1) * (r + 1) <= s * s by {
        MulMonotone(r + 1, s);
      }
    } else if s < r {
      assert (s + 1) * (s + 1) <= r * r by {
        MulMonotone(s + 1, r);
      }
    }
  }

  lemma MulMonotone(a: int, b: int)
    requires 0 <= a <= b
    ensures a * a <= b * b
  {
    assert a * a <= a * b <= b * b;
  }

  /** How isqrt's loop ended: with a value, with a division by zero, or still running at n0. */
  datatype SqrtOutcome = Root(r: int) | SqrtDivisionByZero | SqrtRunning(n0: int)

  /** One Newton step of isqrt: n0 := (n0 + in / n0) / 2. */
  function NewtonStep(n: int, n0: int): int
    requires n0 != 0
  {
    JavaDiv(n0 + JavaDiv(n, n0), 2)
  }

  /** The do-while loop of isqrt(BigInteger) from (n0, np), for at most `fuel` passes. */
  function IsqrtFrom(n: int, n0: int, np: int, fuel: nat): SqrtOutcome
    decreases fuel
  {
    if fuel == 0 then SqrtRunning(n0)
    else if n0 == 0 then SqrtDivisionByZero
    else
      var next := NewtonStep(n, n0);
      if np == next then Root(next) else IsqrtFrom(n, next, next, fuel - 1)
  }

  /** isqrt(in): n0 starts at 2^(bitLength/2) and np at in itself. */
  function IsqrtRun(n: int, fuel: nat): SqrtOutcome
  {
    IsqrtFrom(n, Pow2(BitLength(n) / 2), n, fuel)
  }

  /** isqrt(BigInteger in), cut off after `fuel` passes. */
  method Isqrt(n: int, fuel: nat) returns (r: SqrtOutcome)
    ensures r == IsqrtRun(n, fuel)
  {
    var n0 := Pow2(BitLength(n) / 2);
    var np := n;
    var k := 0;
    while k < fuel
      invariant 0 <= k <= fuel
      invariant IsqrtRun(n, fuel) == IsqrtFrom(n, n0, np, fuel - k)
    {
      if n0 == 0 {
        return SqrtDivisionByZero;
      }
      n0 := JavaDiv(n0 + JavaDiv(n, n0), 2);
      var c := np - n0;
      np := n0;
      if c == 0 {
        return Root(n0);
      }
      k := k + 1;
    }
    return SqrtRunning(n0);
  }

  /** isqrt(long in): delegates to the BigInteger version. */
  method IsqrtLong(n: int, fuel: nat) returns (r: SqrtOutcome)
    requires -0x8000_0000_0000_0000 <= n < 0x8000_0000_0000_0000
    ensures r == IsqrtRun(n, fuel)
  {
    r := Isqrt(n, fuel);
  }

  /** A fixed point r >= 1 of the Newton step is the floor square root. */
  lemma NewtonFixedPoint(n: int, r: int)
    requires n >= 0 && r >= 1 && NewtonStep(n, r) == r
    ensures IsFloorSqrt(r, n)
  {
    var q := n / r;
    DivModUnique(n, r, q, n % r);
    assert 2 * r <= r + q <= 2 * r + 1 by {
      DivModUnique(r + q, 2, r, (r + q) % 2);
    }
    assert r * r <= r * q <= n;
    assert n < r * q + r <= r * (r + 1) + r;
  }

  /** For n >= 1 the iterate never reaches 0. */
  lemma NewtonStepPositive(n: int, n0: int)
    requires n >= 1 && n0 >= 1
    ensures NewtonStep(n, n0) >= 1
  {
    if n0 == 1 {
      assert JavaDiv(n, 1) == n;
    }
  }

  /** From the first pass on, the loop is a plain fixed-point search. */
  lemma {:induction false} IsqrtLaterPasses(n: int, n0: int, fuel: nat)
    requires n >= 1 && n0 >= 1
    ensures IsqrtFrom(n, n0, n0, fuel).Root? ==> IsFloorSqrt(IsqrtFrom(n, n0, n0, fuel).r, n)
    ensures !IsqrtFrom(n, n0, n0, fuel).SqrtDivisionByZero?
    decreases fuel
  {
    if fuel > 0 {
      NewtonStepPositive(n, n0);
      var next := NewtonStep(n, n0);
      if n0 == next {
        NewtonFixedPoint(n, n0);
      } else {
        IsqrtLaterPasses(n, next, fuel - 1);
      }
    }
  }

  /** One Newton step from 2 <= n0 <= n lands below n. */
  lemma StepBelow(n: int, n0: int)
    requires 2 <= n0 <= n
    ensures NewtonStep(n, n0) < n
  {
    var q := n / n0;
    assert JavaDiv(n, n0) == q;
    QuotientAtMostHalf(n, n0);
    assert NewtonStep(n, n0) == (n0 + q) / 2;
  }

  lemma QuotientAtMostHalf(n: int, n0: int)
    requires 2 <= n0 <= n
    ensures 0 <= n / n0 && 2 * (n / n0) <= n
  {
    var q, m := n / n0, n % n0;
    assert n == q * n0 + m && 0 <= m;
    assert q >= 0;
    ScaleUp(q, 2, n0);
  }

  lemma ScaleUp(q: int, a: int, b: int)
    requires q >= 0 && a <= b
    ensures q * a <= q * b
  {
    assert q * b - q * a == q * (b - a);
  }

  /** The starting iterate 2^(bitLength/2) lies in [2, n] for n >= 2. */
  lemma StartInRange(n: int)
    requires n >= 2
    ensures 2 <= Pow2(BitLength(n) / 2) <= n
  {
    var bl := NatBitLength(n);
    assert BitLength(n) == bl;
    NatBitLengthBounds(n);
    NatBitLengthBounds(n / 2);
    assert bl == 1 + NatBitLength(n / 2) && bl >= 2;
    var h := bl / 2;
    assert 1 <= h <= bl - 1;
    Pow2Monotone(1, h);
    assert Pow2(1) == 2;
    Pow2Monotone(h, bl - 1);
  }

  /** For in >= 0, a value returned by isqrt is the floor of the square root. */
  lemma IsqrtCorrect(n: int, fuel: nat)
    requires n >= 0
    ensures IsqrtRun(n, fuel).Root? ==> IsFloorSqrt(IsqrtRun(n, fuel).r, n)
    ensures !IsqrtRun(n, fuel).SqrtDivisionByZero?
  {
    if fuel == 0 {
      assert IsqrtRun(n, 0).SqrtRunning?;
    } else if n == 0 {
      IsqrtOfZero(fuel);
    } else if n == 1 {
      IsqrtOfOne(fuel);
    } else {
      IsqrtOfLarge(n, fuel);
    }
  }

  /** isqrt(0) = 0 and isqrt(1) = 1, both after one pass. */
  lemma IsqrtOfZero(fuel: nat)
    requires fuel > 0
    ensures IsqrtRun(0, fuel) == Root(0)
  {
    assert Pow2(BitLength(0) / 2) == 1;
    assert NewtonStep(0, 1) == 0;
    FirstPassReturns(0, 1, 0, fuel);
  }

  lemma IsqrtOfOne(fuel: nat)
    requires fuel > 0
    ensures IsqrtRun(1, fuel) == Root(1)
  {
    assert Pow2(BitLength(1) / 2) == 1;
    assert NewtonStep(1, 1) == 1;
    FirstPassReturns(1, 1, 1, fuel);
  }

  /** When the first step lands on np, the loop returns it. */
  lemma FirstPassReturns(n: int, n0: int, np: int, fuel: nat)
    requires fuel > 0 && n0 != 0 && NewtonStep(n, n0) == np
    ensures IsqrtFrom(n, n0, np, fuel) == Root(np)
  {
  }

  /** For in >= 2 the first pass never returns: it moves below in and on to a plain fixed-point search. */
  lemma IsqrtFirstPass(n: int, fuel: nat) returns (next: int)
    requires n >= 2 && fuel > 0
    ensures next >= 1 && IsqrtRun(n, fuel) == IsqrtFrom(n, next, next, fuel - 1)
  {
    var n0 := Pow2(BitLength(n) / 2);
    StartInRange(n);
    StepBelow(n, n0);
    NewtonStepPositive(n, n0);
    next := NewtonStep(n, n0);
  }

  lemma IsqrtOfLarge(n: int, fuel: nat)
    requires n >= 2 && fuel > 0
    ensures IsqrtRun(n, fuel).Root? ==> IsFloorSqrt(IsqrtRun(n, fuel).r, n)
    ensures !IsqrtRun(n, fuel).SqrtDivisionByZero?
  {
    var next := IsqrtFirstPass(n, fuel);
    IsqrtLaterPasses(n, next, fuel - 1);
  }

  /** isqrt(3) never returns: after the first pass the iterate alternates 1, 2, 1, 2, ... */
  lemma {:induction false} IsqrtThreeOscillates(fuel: nat)
    ensures IsqrtFrom(3, 1, 1, fuel).SqrtRunning? && IsqrtFrom(3, 2, 2, fuel).SqrtRunning?
    decreases fuel
  {
    if fuel > 0 {
      assert NewtonStep(3, 1) == 2 && NewtonStep(3, 2) == 1;
      IsqrtThreeOscillates(fuel - 1);
    }
  }

  lemma IsqrtThreeNeverReturns(fuel: nat)
    ensures IsqrtRun(3, fuel).SqrtRunning?
  {
    assert BitLength(3) == 2;
    assert NewtonStep(3, 2) == 1;
    if fuel > 0 {
      IsqrtThreeOscillates(fuel - 1);
    }
  }

  /** For in = k^2 - 1 the Newton step sends k - 1 to k and k back to k - 1. */
  lemma NearSquareSteps(k: int)
    requires k >= 2
    ensures NewtonStep(k * k - 1, k - 1) == k && NewtonStep(k * k - 1, k) == k - 1
  {
    var n := k * k - 1;
    DivModUnique(n, k - 1, k + 1, 0);
    DivModUnique(n, k, k - 1, k - 1);
    DivModUnique(2 * k, 2, k, 0);
    DivModUnique(2 * k - 1, 2, k - 1, 1);
  }

  /** k - 1 is the floor square root of k^2 - 1. */
  lemma NearSquareRoot(k: int)
    requires k >= 1
    ensures IsFloorSqrt(k - 1, k * k - 1)
  {
  }

  /** For in = k^2 - 1 the fixed-point search from a positive estimate never settles: no estimate is its own Newton step. */
  lemma {:induction false} NearSquareNoFixedPoint(k: int, n0: int, fuel: nat)
    requires k >= 2 && n0 >= 1
    ensures IsqrtFrom(k * k - 1, n0, n0, fuel).SqrtRunning?
    decreases fuel
  {
    var n := k * k - 1;
    if fuel > 0 {
      var next := NewtonStep(n, n0);
      NearSquareSteps(k);
      NearSquareRoot(k);
      assert next != n0 by {
        if next == n0 {
          NewtonFixedPoint(n, n0);
          FloorSqrtUnique(n0, k - 1, n);
        }
      }
      NewtonStepPositive(n, n0);
      NearSquareNoFixedPoint(k, next, fuel - 1);
    }
  }

  /**
   * isqrt(k^2 - 1) never returns for k >= 2: the estimates end up
   * alternating between k - 1 and k, and the loop only stops when two
   * successive estimates are equal.
   */
  lemma IsqrtNearSquareNeverReturns(k: int, fuel: nat)
    requires k >= 2
    ensures IsqrtRun(k * k - 1, fuel).SqrtRunning?
  {
    var n := k * k - 1;
    if fuel > 0 {
      var next := IsqrtFirstPass(n, fuel);
      NearSquareNoFixedPoint(k, next, fuel - 1);
    }
  }

  // ---------------------------------------------------------------------
  // isPerfectSquare64
  // ---------------------------------------------------------------------

  /** The range of a Java long. */
  predicate InLongRange(x: int)
  {
    -0x8000_0000_0000_0000 <= x < 0x8000_0000_0000_0000
  }

  /** The constant shifted left by x in isPerfectSquare64: bit 63 - s is set exactly when s is a square modulo 64. */
  const SquareMask: bv64 := 0xC840_C040_4840_4040

  /** The squares modulo 64. */
  const SquareResidues64: set<int> := {0, 1, 4, 9, 16, 17, 25, 33, 36, 41, 49, 57}

  /** (SquareMask << s) is negative as a signed long. */
  predicate MaskSignSet(s: nat)
    requires s < 64
  {
    SquareMask << s >= 0x8000_0000_0000_0000
  }

  /** The mask test keeps exactly the residues of squares. */
  lemma MaskMatchesResidues(s: nat)
    requires s < 64
    ensures MaskSignSet(s) <==> s in SquareResidues64
  {
    if s < 16 {
      MaskMatchesResidues0(s);
    } else if s < 32 {
      MaskMatchesResidues1(s);
    } else if s < 48 {
      MaskMatchesResidues2(s);
    } else {
      MaskMatchesResidues3(s);
    }
  }

  lemma MaskMatchesResidues0(s: nat)
    requires 0 <= s < 16
    ensures MaskSignSet(s) <==> s in SquareResidues64
  {
    if s == 0 {
      assert SquareMask << 0 == 0xc840c04048404040;
    } else if s == 1 {
      assert SquareMask << 1 == 0x9081808090808080;
    } else if s == 2 {
      assert SquareMask << 2 == 0x2103010121010100;
    } else if s == 3 {
      assert SquareMask << 3 == 0x4206020242020200;
    } else if s == 4 {
      assert SquareMask << 4 == 0x840c040484040400;
    } else if s == 5 {
      assert SquareMask << 5 == 0x818080908080800;
    } else if s == 6 {
      assert SquareMask << 6 == 0x1030101210101000;
    } else if s == 7 {
      assert SquareMask << 7 == 0x2060202420202000;
    } else if s == 8 {
      assert SquareMask << 8 == 0x40c0404840404000;
    } else if s == 9 {
      assert SquareMask << 9 == 0x8180809080808000;
    } else if s == 10 {
      assert SquareMask << 10 == 0x301012101010000;
    } else if s == 11 {
      assert SquareMask << 11 == 0x602024202020000;
    } else if s == 12 {
      assert SquareMask << 12 == 0xc04048404040000;
    } else if s == 13 {
      assert SquareMask << 13 == 0x1808090808080000;
    } else if s == 14 {
      assert SquareMask << 14 == 0x3010121010100000;
    } else {
      assert s == 15;
      assert SquareMask << 15 == 0x6020242020200000;
    }
  }

  lemma SquareResidueOfSmall0(c: int)
    requires 0 <= c < 16
    ensures (c * c) % 64 in SquareResidues64
  {
    if c == 0 {
      assert c * c == 0 && 0 % 64 == 0;
    } else if c == 1 {
      assert c * c == 1 && 1 % 64 == 1;
    } else if c == 2 {
      assert c * c == 4 && 4 % 64 == 4;
    } else if c == 3 {
      assert c * c == 9 && 9 % 64 == 9;
    } else if c == 4 {
      assert c * c == 16 && 16 % 64 == 16;
    } else if c == 5 {
      assert c * c == 25 && 25 % 64 == 25;
    } else if c == 6 {
      assert c * c == 36 && 36 % 64 == 36;
    } else if c == 7 {
      assert c * c == 49 && 49 % 64 == 49;
    } else if c == 8 {
      assert c * c == 64 && 64 % 64 == 0;
    } else if c == 9 {
      assert c * c == 81 && 81 % 64 == 17;
    } else if c == 10 {
      assert c * c == 100 && 100 % 64 == 36;
    } else if c == 11 {
      assert c * c == 121 && 121 % 64 == 57;
    } else if c == 12 {
      assert c * c == 144 && 144 % 64 == 16;
    } else if c == 13 {
      assert c * c == 169 && 169 % 64 == 41;
    } else if c == 14 {
      assert c * c == 196 && 196 % 64 == 4;
    } else {
      assert c == 15;
      assert c * c == 225 && 225 % 64 == 33;
    }
  }

  lemma MaskMatchesResidues1(s: nat)
    requires 16 <= s < 32
    ensures MaskSignSet(s) <==> s in SquareResidues64
  {
    if s == 16 {
      assert SquareMask << 16 == 0xc040484040400000;
    } else if s == 17 {
      assert SquareMask << 17 == 0x8080908080800000;
    } else if s == 18 {
      assert SquareMask << 18 == 0x101210101000000;
    } else if s == 19 {
      assert SquareMask << 19 == 0x202420202000000;
    } else if s == 20 {
      assert SquareMask << 20 == 0x404840404000000;
    } else if s == 21 {
      assert SquareMask << 21 == 0x809080808000000;
    } else if s == 22 {
      assert SquareMask << 22 == 0x1012101010000000;
    } else if s == 23 {
      assert SquareMask << 23 == 0x2024202020000000;
    } else if s == 24 {
      assert SquareMask << 24 == 0x4048404040000000;
    } else if s == 25 {
      assert SquareMask << 25 == 0x8090808080000000;
    } else if s == 26 {
      assert SquareMask << 26 == 0x121010100000000;
    } else if s == 27 {
      assert SquareMask << 27 == 0x242020200000000;
    } else if s == 28 {
      assert SquareMask << 28 == 0x484040400000000;
    } else if s == 29 {
      assert SquareMask << 29 == 0x908080800000000;
    } else if s == 30 {
      assert SquareMask << 30 == 0x1210101000000000;
    } else {
      assert s == 31;
      assert SquareMask << 31 == 0x2420202000000000;
    }
  }

  lemma SquareResidueOfSmall1(c: int)
    requires 16 <= c < 32
    ensures (c * c) % 64 in SquareResidues64
  {
    if c == 16 {
      assert c * c == 256 && 256 % 64 == 0;
    } else if c == 17 {
      assert c * c == 289 && 289 % 64 == 33;
    } else if c == 18 {
      assert c * c == 324 && 324 % 64 == 4;
    } else if c == 19 {
      assert c * c == 361 && 361 % 64 == 41;
    } else if c == 20 {
      assert c * c == 400 && 400 % 64 == 16;
    } else if c == 21 {
      assert c * c == 441 && 441 % 64 == 57;
    } else if c == 22 {
      assert c * c == 484 && 484 % 64 == 36;
    } else if c == 23 {
      assert c * c == 529 && 529 % 64 == 17;
    } else if c == 24 {
      assert c * c == 576 && 576 % 64 == 0;
    } else if c == 25 {
      assert c * c == 625 && 625 % 64 == 49;
    } else if c == 26 {
      assert c * c == 676 && 676 % 64 == 36;
    } else if c == 27 {
      assert c * c == 729 && 729 % 64 == 25;
    } else if c == 28 {
      assert c * c == 784 && 784 % 64 == 16;
    } else if c == 29 {
      assert c * c == 841 && 841 % 64 == 9;
    } else if c == 30 {
      assert c * c == 900 && 900 % 64 == 4;
    } else {
      assert c == 31;
      assert c * c == 961 && 961 % 64 == 1;
    }
  }

  lemma MaskMatchesResidues2(s: nat)
    requires 32 <= s < 48
    ensures MaskSignSet(s) <==> s in SquareResidues64
  {
    if s == 32 {
      assert SquareMask << 32 == 0x4840404000000000;
    } else if s == 33 {
      assert SquareMask << 33 == 0x9080808000000000;
    } else if s == 34 {
      assert SquareMask << 34 == 0x2101010000000000;
    } else if s == 35 {
      assert SquareMask << 35 == 0x4202020000000000;
    } else if s == 36 {
      assert SquareMask << 36 == 0x8404040000000000;
    } else if s == 37 {
      assert SquareMask << 37 == 0x808080000000000;
    } else if s == 38 {
      assert SquareMask << 38 == 0x1010100000000000;
    } else if s == 39 {
      assert SquareMask << 39 == 0x2020200000000000;
    } else if s == 40 {
      assert SquareMask << 40 == 0x4040400000000000;
    } else if s == 41 {
      assert SquareMask << 41 == 0x8080800000000000;
    } else if s == 42 {
      assert SquareMask << 42 == 0x101000000000000;
    } else if s == 43 {
      assert SquareMask << 43 == 0x202000000000000;
    } else if s == 44 {
      assert SquareMask << 44 == 0x404000000000000;
    } else if s == 45 {
      assert SquareMask << 45 == 0x808000000000000;
    } else if s == 46 {
      assert SquareMask << 46 == 0x1010000000000000;
    } else {
      assert s == 47;
      assert SquareMask << 47 == 0x2020000000000000;
    }
  }

  lemma SquareResidueOfSmall2(c: int)
    requires 32 <= c < 48
    ensures (c * c) % 64 in SquareResidues64
  {
    if c == 32 {
      assert c * c == 1024 && 1024 % 64 == 0;
    } else if c == 33 {
      assert c * c == 1089 && 1089 % 64 == 1;
    } else if c == 34 {
      assert c * c == 1156 && 1156 % 64 == 4;
    } else if c == 35 {
      assert c * c == 1225 && 1225 % 64 == 9;
    } else if c == 36 {
      assert c * c == 1296 && 1296 % 64 == 16;
    } else if c == 37 {
      assert c * c == 1369 && 1369 % 64 == 25;
    } else if c == 38 {
      assert c * c == 1444 && 1444 % 64 == 36;
    } else if c == 39 {
      assert c * c == 1521 && 1521 % 64 == 49;
    } else if c == 40 {
      assert c * c == 1600 && 1600 % 64 == 0;
    } else if c == 41 {
      assert c * c == 1681 && 1681 % 64 == 17;
    } else if c == 42 {
      assert c * c == 1764 && 1764 % 64 == 36;
    } else if c == 43 {
      assert c * c == 1849 && 1849 % 64 == 57;
    } else if c == 44 {
      assert c * c == 1936 && 1936 % 64 == 16;
    } else if c == 45 {
      assert c * c == 2025 && 2025 % 64 == 41;
    } else if c == 46 {
      assert c * c == 2116 && 2116 % 64 == 4;
    } else {
      assert c == 47;
      assert c * c == 2209 && 2209 % 64 == 33;
    }
  }

  lemma MaskMatchesResidues3(s: nat)
    requires 48 <= s < 64
    ensures MaskSignSet(s) <==> s in SquareResidues64
  {
    if s == 48 {
      assert SquareMask << 48 == 0x4040000000000000;
    } else if s == 49 {
      assert SquareMask << 49 == 0x8080000000000000;
    } else if s == 50 {
      assert SquareMask << 50 == 0x100000000000000;
    } else if s == 51 {
      assert SquareMask << 51 == 0x200000000000000;
    } else if s == 52 {
      assert SquareMask << 52 == 0x400000000000000;
    } else if s == 53 {
      assert SquareMask << 53 == 0x800000000000000;
    } else if s == 54 {
      assert SquareMask << 54 == 0x1000000000000000;
    } else if s == 55 {
      assert SquareMask << 55 == 0x2000000000000000;
    } else if s == 56 {
      assert SquareMask << 56 == 0x4000000000000000;
    } else if s == 57 {
      assert SquareMask << 57 == 0x8000000000000000;
    } else if s == 58 {
      assert SquareMask << 58 == 0x0;
    } else if s == 59 {
      assert SquareMask << 59 == 0x0;
    } else if s == 60 {
      assert SquareMask << 60 == 0x0;
    } else if s == 61 {
      assert SquareMask << 61 == 0x0;
    } else if s == 62 {
      assert SquareMask << 62 == 0x0;
    } else {
      assert s == 63;
      assert SquareMask << 63 == 0x0;
    }
  }

  lemma SquareResidueOfSmall3(c: int)
    requires 48 <= c < 64
    ensures (c * c) % 64 in SquareResidues64
  {
    if c == 48 {
      assert c * c == 2304 && 2304 % 64 == 0;
    } else if c == 49 {
      assert c * c == 2401 && 2401 % 64 == 33;
    } else if c == 50 {
      assert c * c == 2500 && 2500 % 64 == 4;
    } else if c == 51 {
      assert c * c == 2601 && 2601 % 64 == 41;
    } else if c == 52 {
      assert c * c == 2704 && 2704 % 64 == 16;
    } else if c == 53 {
      assert c * c == 2809 && 2809 % 64 == 57;
    } else if c == 54 {
      assert c * c == 2916 && 2916 % 64 == 36;
    } else if c == 55 {
      assert c * c == 3025 && 3025 % 64 == 17;
    } else if c == 56 {
      assert c * c == 3136 && 3136 % 64 == 0;
    } else if c == 57 {
      assert c * c == 3249 && 3249 % 64 == 49;
    } else if c == 58 {
      assert c * c == 3364 && 3364 % 64 == 36;
    } else if c == 59 {
      assert c * c == 3481 && 3481 % 64 == 25;
    } else if c == 60 {
      assert c * c == 3600 && 3600 % 64 == 16;
    } else if c == 61 {
      assert c * c == 3721 && 3721 % 64 == 9;
    } else if c == 62 {
      assert c * c == 3844 && 3844 % 64 == 4;
    } else {
      assert c == 63;
      assert c * c == 3969 && 3969 % 64 == 1;
    }
  }

  lemma SquareResidueOfSmall(c: int)
    requires 0 <= c < 64
    ensures (c * c) % 64 in SquareResidues64
  {
    if c < 16 {
      SquareResidueOfSmall0(c);
    } else if c < 32 {
      SquareResidueOfSmall1(c);
    } else if c < 48 {
      SquareResidueOfSmall2(c);
    } else {
      SquareResidueOfSmall3(c);
    }
  }

  /** Every square is a square residue modulo 64. */
  lemma SquareResidue(r: int)
    ensures (r * r) % 64 in SquareResidues64
  {
    var c := r % 64;
    var k := r / 64;
    assert r == 64 * k + c;
    assert r * r - c * c == (k * (r + c)) * 64;
    CongruentByMultiple(r * r, c * c, k * (r + c), 64);
    SquareResidueOfSmall(c);
  }

  /** The exponent of 2 in x != 0. */
  function Valuation(x: int): nat
    requires x != 0
    decreases Abs(x)
  {
    if x % 2 != 0 then 0 else 1 + Valuation(x / 2)
  }

  /** Long.numberOfTrailingZeros: 64 for zero. */
  function TrailingZeros(x: int): nat
  {
    if x == 0 then 64 else Valuation(x)
  }

  /** The square test at the end of isPerfectSquare64, taken as exact. */
  predicate IsSquare(x: int)
  {
    x >= 0 && FloorSqrt(x) * FloorSqrt(x) == x
  }

  /** isPerfectSquare64(x): the residue filter, the trailing-zero filter, the mod-8 filter, then the exact test. */
  function IsPerfectSquare64(x: int): bool
  {
    if !MaskSignSet(x % 64) then false
    else
      var tz := TrailingZeros(x);
      if tz % 2 != 0 then false
      else
        // x >>= tz: the shift count is taken modulo 64 and the shift floors.
        var y := x / Pow2(tz % 64);
        if y % 8 != 1 || y <= 0 then y == 0
        else IsSquare(y)
  }

  /** x splits into 2^v times an odd number. */
  lemma {:induction false} ValuationSplit(x: int)
    requires x != 0
    ensures x == Pow2(Valuation(x)) * (x / Pow2(Valuation(x)))
    ensures (x / Pow2(Valuation(x))) % 2 == 1
    decreases Abs(x)
  {
    if x % 2 == 0 {
      var h := x / 2;
      ValuationSplit(h);
      var v := Valuation(h);
      var o := h / Pow2(v);
      assert x == Pow2(v + 1) * o;
      DivModUnique(x, Pow2(v + 1), o, 0);
    }
  }

  /** An odd times a power of two has that valuation. */
  lemma {:induction false} ValuationOf(v: nat, o: int)
    requires o % 2 == 1
    ensures Pow2(v) * o != 0 && Valuation(Pow2(v) * o) == v
    decreases v
  {
    if v == 0 {
      assert Pow2(v) * o == o;
    } else {
      ValuationOf(v - 1, o);
      var k := Pow2(v - 1) * o;
      var x := Pow2(v) * o;
      assert x == 2 * k;
      DivModUnique(x, 2, k, 0);
    }
  }

  lemma Pow2Add(i: nat, j: nat)
    ensures Pow2(i + j) == Pow2(i) * Pow2(j)
    decreases j
  {
    if j > 0 {
      Pow2Add(i, j - 1);
    }
  }

  /** One of two consecutive integers is even. */
  lemma ConsecutiveProductEven(m: int)
    ensures (m * (m + 1)) % 2 == 0
  {
    var a := m / 2;
    if m % 2 == 0 {
      assert m == 2 * a;
      assert m * (m + 1) == 2 * (a * (m + 1));
      MultipleMod(a * (m + 1), 2);
    } else {
      assert m + 1 == 2 * (a + 1);
      assert m * (m + 1) == 2 * (m * (a + 1));
      MultipleMod(m * (a + 1), 2);
    }
  }

  /** Odd squares are 1 modulo 8. */
  lemma OddSquare(o: int)
    requires o % 2 == 1
    ensures (o * o) % 8 == 1
  {
    var m := o / 2;
    assert o == 2 * m + 1;
    ConsecutiveProductEven(m);
    var t := (m * (m + 1)) / 2;
    assert m * (m + 1) == 2 * t;
    assert o * o == 4 * (m * (m + 1)) + 1;
    assert o * o == 8 * t + 1;
    DivModUnique(o * o, 8, t, 1);
  }

  lemma Rearrange(p: int, o: int)
    ensures (p * o) * (p * o) == (p * p) * (o * o)
  {
  }

  lemma OddFromMod8(x: int)
    requires x % 8 == 1
    ensures x % 2 == 1
  {
    var t := x / 8;
    DivModUnique(x, 8, t, 1);
    DivModUnique(x, 2, 4 * t, 1);
  }

  /** A square r*r (r != 0) is 4^v times the odd square o*o, where r = 2^v * o. */
  lemma SquareSplit(r: int, v: nat, o: int)
    requires r != 0 && v == Valuation(r) && o == r / Pow2(v)
    ensures r * r != 0 && Valuation(r * r) == 2 * v && (r * r) / Pow2(2 * v) == o * o && o % 2 == 1
  {
    ValuationSplit(r);
    var p := Pow2(v);
    assert r == p * o;
    Pow2Add(v, v);
    Rearrange(p, o);
    var q := Pow2(2 * v);
    assert r * r == q * (o * o);
    OddSquare(o);
    OddFromMod8(o * o);
    ValuationOf(2 * v, o * o);
    DivModUnique(r * r, q, o * o, 0);
  }

  /** Any square has the exact test true. */
  lemma SquareIsSquare(r: int)
    ensures IsSquare(r * r)
  {
    var n := r * r;
    var a := Abs(r);
    assert a * a == n;
    assert (a + 1) * (a + 1) > n;
    FloorSqrtUnique(FloorSqrt(n), a, n);
  }

  lemma Pow2Of64()
    ensures Pow2(64) == 0x1_0000_0000_0000_0000
  {
    assert Pow2(8) == 256;
    Pow2Add(8, 8);
    Pow2Add(16, 16);
    Pow2Add(32, 32);
  }

  lemma AtLeastFactor(p: int, o: int)
    requires p >= 1 && o != 0
    ensures Abs(p * o) >= p
  {
    if o > 0 {
      assert p * o >= p * 1;
    } else {
      assert p * o <= p * -1;
    }
  }

  /** A valuation below 64 for a non-zero long. */
  lemma ValuationBound(x: int)
    requires x != 0 && InLongRange(x)
    ensures Valuation(x) < 64
  {
    ValuationSplit(x);
    var v := Valuation(x);
    var p := Pow2(v);
    var o := x / p;
    AtLeastFactor(p, o);
    if v >= 64 {
      Pow2Monotone(64, v);
      Pow2Of64();
    }
  }

  /** The filters of isPerfectSquare64 for a non-zero long, with the shift count below 64. */
  lemma IsPerfectSquare64Unfold(x: int, tz: nat, y: int)
    requires x != 0 && tz == Valuation(x) && tz < 64 && y == x / Pow2(tz)
    ensures IsPerfectSquare64(x) <==>
      MaskSignSet(x % 64) && tz % 2 == 0 && (if y % 8 != 1 || y <= 0 then y == 0 else IsSquare(y))
  {
    assert TrailingZeros(x) == tz;
    assert tz % 64 == tz;
  }

  lemma SquareMaskSet(x: int, r: int)
    requires x == r * r
    ensures MaskSignSet(x % 64)
  {
    SquareResidue(r);
    MaskMatchesResidues(x % 64);
  }

  /** Shifting the trailing zeros out of a non-zero square leaves an odd square. */
  lemma SquareQuotient(x: int, r: int)
    requires x == r * r && r != 0
    ensures x != 0 && Valuation(x) % 2 == 0
    ensures var y := x / Pow2(Valuation(x)); y % 8 == 1 && y > 0 && IsSquare(y)
  {
    var v := Valuation(r);
    var o := r / Pow2(v);
    SquareSplit(r, v, o);
    var y := o * o;
    assert Valuation(x) == 2 * v && x / Pow2(2 * v) == y;
    DivModUnique(2 * v, 2, v, 0);
    OddSquare(o);
    SquareIsSquare(o);
    assert y >= 0 by {
      SquareNonNegative(o);
    }
  }

  lemma SquareNonNegative(o: int)
    ensures o * o >= 0
  {
    if o < 0 {
      assert o * o == (-o) * (-o);
    }
  }

  /** A non-zero square long passes every filter. */
  lemma SquarePasses(x: int)
    requires x != 0 && InLongRange(x) && IsSquare(x)
    ensures IsPerfectSquare64(x)
  {
    ValuationBound(x);
    var r := FloorSqrt(x);
    SquareMaskSet(x, r);
    SquareQuotient(x, r);
    IsPerfectSquare64Unfold(x, Valuation(x), x / Pow2(Valuation(x)));
  }

  lemma SquareOfPowerTimes(x: int, h: nat, y: int, s: int)
    requires x == Pow2(2 * h) * y && y == s * s
    ensures x == (Pow2(h) * s) * (Pow2(h) * s)
  {
    Pow2Add(h, h);
    Rearrange(Pow2(h), s);
  }

  /** A non-zero long that passes every filter is a square. */
  lemma PassesIsSquare(x: int)
    requires x != 0 && InLongRange(x) && IsPerfectSquare64(x)
    ensures IsSquare(x)
  {
    ValuationBound(x);
    ValuationSplit(x);
    var tz := Valuation(x);
    var y := x / Pow2(tz);
    IsPerfectSquare64Unfold(x, tz, y);
    assert y % 2 == 1;
    assert y > 0 && IsSquare(y);
    var s := FloorSqrt(y);
    var h := tz / 2;
    assert tz == 2 * h;
    SquareOfPowerTimes(x, h, y, s);
    SquareIsSquare(Pow2(h) * s);
  }

  /** isPerfectSquare64 is true exactly on squares, for every long (0 included). */
  lemma IsPerfectSquare64Correct(x: int)
    requires InLongRange(x)
    ensures IsPerfectSquare64(x) <==> IsSquare(x)
  {
    if x == 0 {
      MaskMatchesResidues(0);
      SquareIsSquare(0);
    } else if IsSquare(x) {
      SquarePasses(x);
    } else if IsPerfectSquare64(x) {
      PassesIsSquare(x);
    }
  }

  /** The first two filters as the source states them: an odd count of trailing zeros means no square. */
  lemma OddTrailingZerosRejected(x: int)
    requires MaskSignSet(x % 64) && TrailingZeros(x) % 2 == 1
    ensures !IsPerfectSquare64(x)
  {
  }

  // ---------------------------------------------------------------------
  // squfof
  // ---------------------------------------------------------------------

  /** The multiplier k of squfof. */
  const K := 1

  /** The sliding window of squfof: P_{i-1}, Q_{i-1} and Q_i. */
  datatype Form = Form(p0: int, q0: int, q1: int)

  /** The window is a form of discriminant kN: P_{i-1}^2 + Q_{i-1} Q_i == kN. */
  predicate Holds(kN: int, f: Form)
  {
    f.p0 * f.p0 + f.q0 * f.q1 == kN
  }

  /** One pass of either loop, then the slide: b = (sqrtKN + P0) / Q1, P1 = b Q1 - P0, Q2 = Q0 + b (P0 - P1). */
  function Step(sqrtKN: int, f: Form): Form
    requires f.q1 != 0
  {
    var b := JavaDiv(sqrtKN + f.p0, f.q1);
    var p1 := b * f.q1 - f.p0;
    Form(p1, f.q1, f.q0 + b * (f.p0 - p1))
  }

  /** How the forward loop ended: at a square Q_i after the pass with index `index`, on a division by zero, or still running. */
  datatype Forward = SquareFound(form: Form, index: nat) | ForwardDivisionByZero | ForwardRunning(form: Form)

  /** The forward loop from window f and counter i, for at most `fuel` passes. */
  function ForwardFrom(sqrtKN: int, f: Form, i: nat, fuel: nat): Forward
    decreases fuel
  {
    if fuel == 0 then ForwardRunning(f)
    else if f.q1 == 0 then ForwardDivisionByZero
    else
      var g := Step(sqrtKN, f);
      if i % 2 == 0 && IsPerfectSquare64(g.q1) then SquareFound(g, i)
      else ForwardFrom(sqrtKN, g, i + 1, fuel - 1)
  }

  /** The restart of the reverse phase from the forward window f and s = isqrt(Q_i), s != 0. */
  function ReverseStart(kN: int, sqrtKN: int, f: Form, s: int): Form
    requires s != 0
  {
    var b0 := JavaDiv(sqrtKN - f.p0, s);
    var p0 := b0 * s + f.p0;
    Form(p0, s, JavaDiv(kN - p0 * p0, s))
  }

  /** How the reverse loop ended: P_i met P_{i-1} (the window after that pass), a division by zero, or still running. */
  datatype Reverse = Met(form: Form) | ReverseDivisionByZero | ReverseRunning(form: Form)

  /** The reverse loop from window f, for at most `fuel` passes. */
  function ReverseFrom(sqrtKN: int, f: Form, fuel: nat): Reverse
    decreases fuel
  {
    if fuel == 0 then ReverseRunning(f)
    else if f.q1 == 0 then ReverseDivisionByZero
    else
      var g := Step(sqrtKN, f);
      if g.p0 == f.p0 then Met(g) else ReverseFrom(sqrtKN, g, fuel - 1)
  }

  /** What squfof(N) does: a factor, an ArithmeticException for a division by zero, or a loop still running when the fuel ran out. */
  datatype SqufofOutcome = Factor(factor: int) | DivisionByZero | NotFinished

  /** squfof(N), where each of its loops (the two isqrt calls included) runs for at most `fuel` passes. */
  function SqufofRun(n: int, fuel: nat): SqufofOutcome
  {
    var kN := n * K;
    match IsqrtRun(kN, fuel)
    case SqrtDivisionByZero => DivisionByZero
    case SqrtRunning(_) => NotFinished
    case Root(sqrtKN) =>
      match ForwardFrom(sqrtKN, Form(sqrtKN, 1, K * n - sqrtKN * sqrtKN), 0, fuel)
      case ForwardDivisionByZero => DivisionByZero
      case ForwardRunning(_) => NotFinished
      case SquareFound(f, _) =>
        match IsqrtRun(f.q1, fuel)
        case SqrtDivisionByZero => DivisionByZero
        case SqrtRunning(_) => NotFinished
        case Root(s) =>
          if s == 0 then DivisionByZero
          else
            match ReverseFrom(sqrtKN, ReverseStart(kN, sqrtKN, f, s), fuel)
            case ReverseDivisionByZero => DivisionByZero
            case ReverseRunning(_) => NotFinished
            case Met(g) => Factor(Gcd(Abs(n), Abs(g.p0)))
  }

  /** The first do-while loop of squfof, from window (P0, Q0, Q1) with i = 0, cut off after `fuel` passes. */
  method ForwardLoop(sqrtKN: int, start: Form, fuel: nat) returns (res: Forward)
    ensures res == ForwardFrom(sqrtKN, start, 0, fuel)
  {
    var p0, q0, q1 := start.p0, start.q0, start.q1;
    var p1, q2;
    var i: nat := 0;
    while i < fuel
      invariant i <= fuel
      invariant ForwardFrom(sqrtKN, start, 0, fuel) == ForwardFrom(sqrtKN, Form(p0, q0, q1), i, fuel - i)
    {
      if q1 == 0 {
        return ForwardDivisionByZero;
      }
      ghost var g := Step(sqrtKN, Form(p0, q0, q1));
      var b := JavaDiv(sqrtKN + p0, q1);
      p1 := b * q1 - p0;
      q2 := q0 + b * (p0 - p1);
      q0, q1, p0 := q1, q2, p1;
      assert Form(p0, q0, q1) == g;
      var checked := i;
      i := i + 1;
      if checked % 2 == 0 && IsPerfectSquare64(q1) {
        return SquareFound(Form(p0, q0, q1), checked);
      }
    }
    return ForwardRunning(Form(p0, q0, q1));
  }

  /** The second do-while loop of squfof, from window (P0, Q0, Q1), cut off after `fuel` passes. */
  method ReverseLoop(sqrtKN: int, start: Form, fuel: nat) returns (res: Reverse)
    ensures res == ReverseFrom(sqrtKN, start, fuel)
  {
    var p0, q0, q1 := start.p0, start.q0, start.q1;
    var p1, q2;
    var k := 0;
    while k < fuel
      invariant k <= fuel
      invariant ReverseFrom(sqrtKN, start, fuel) == ReverseFrom(sqrtKN, Form(p0, q0, q1), fuel - k)
    {
      if q1 == 0 {
        return ReverseDivisionByZero;
      }
      var b := JavaDiv(sqrtKN + p0, q1);
      p1 := b * q1 - p0;
      q2 := q0 + b * (p0 - p1);
      if p1 == p0 {
        return Met(Form(p1, q1, q2));
      }
      q0, q1, p0 := q1, q2, p1;
      k := k + 1;
    }
    return ReverseRunning(Form(p0, q0, q1));
  }

  /** squfof(N): the square root of kN, the forward loop, the restart from isqrt(Q_i), the reverse loop and the gcd. */
  method Squfof(n: int, fuel: nat) returns (r: SqufofOutcome)
    ensures r == SqufofRun(n, fuel)
  {
    var kN := n * K;
    var root := Isqrt(kN, fuel);
    if !root.Root? {
      return if root.SqrtDivisionByZero? then DivisionByZero else NotFinished;
    }
    var sqrtKN := root.r;
    var forward := ForwardLoop(sqrtKN, Form(sqrtKN, 1, K * n - sqrtKN * sqrtKN), fuel);
    if !forward.SquareFound? {
      return if forward.ForwardDivisionByZero? then DivisionByZero else NotFinished;
    }
    var f := forward.form;
    // isqrt(long) only delegates to the BigInteger version.
    var sq := Isqrt(f.q1, fuel);
    if !sq.Root? {
      return if sq.SqrtDivisionByZero? then DivisionByZero else NotFinished;
    }
    var sqrtQ := sq.r;
    if sqrtQ == 0 {
      return DivisionByZero;
    }
    var b0 := JavaDiv(sqrtKN - f.p0, sqrtQ);
    var p0 := b0 * sqrtQ + f.p0;
    var q0 := sqrtQ;
    var q1 := JavaDiv(kN - p0 * p0, q0);
    var reverse := ReverseLoop(sqrtKN, Form(p0, q0, q1), fuel);
    if !reverse.Met? {
      return if reverse.ReverseDivisionByZero? then DivisionByZero else NotFinished;
    }
    return Factor(Gcd(Abs(n), Abs(reverse.form.p0)));
  }

  /** The algebra of one pass: P1^2 + Q1 Q2 == P0^2 + Q0 Q1 whatever b is. */
  lemma StepIdentity(p0: int, q0: int, q1: int, b: int)
    ensures var p1 := b * q1 - p0;
      p1 * p1 + q1 * (q0 + b * (p0 - p1)) == p0 * p0 + q0 * q1
  {
    var p1 := b * q1 - p0;
    assert q1 * (q0 + b * (p0 - p1)) == q0 * q1 + (b * q1) * (p0 - p1);
    assert (p1 + p0) * (p0 - p1) == p0 * p0 - p1 * p1;
  }

  /** Every pass keeps the window a form of discriminant kN. */
  lemma StepKeepsForm(kN: int, sqrtKN: int, f: Form)
    requires Holds(kN, f) && f.q1 != 0
    ensures Holds(kN, Step(sqrtKN, f))
  {
    StepIdentity(f.p0, f.q0, f.q1, JavaDiv(sqrtKN + f.p0, f.q1));
  }

  /** The forward loop keeps the form, and it stops only after an even-indexed pass at a Q_i that passes isPerfectSquare64. */
  lemma {:induction false} ForwardExit(kN: int, sqrtKN: int, f: Form, i: nat, fuel: nat)
    requires Holds(kN, f)
    ensures ForwardFrom(sqrtKN, f, i, fuel).SquareFound? ==>
      var g := ForwardFrom(sqrtKN, f, i, fuel);
      Holds(kN, g.form) && g.index % 2 == 0 && g.index >= i && IsPerfectSquare64(g.form.q1)
    ensures ForwardFrom(sqrtKN, f, i, fuel).ForwardRunning? ==>
      Holds(kN, ForwardFrom(sqrtKN, f, i, fuel).form)
    decreases fuel
  {
    if fuel > 0 && f.q1 != 0 {
      StepKeepsForm(kN, sqrtKN, f);
      ForwardExit(kN, sqrtKN, Step(sqrtKN, f), i + 1, fuel - 1);
    }
  }

  /** The algebra of the restart: kN - P0'^2 == s (Q0 s - b0^2 s - 2 b0 P0) when P0^2 + Q0 s^2 == kN. */
  lemma RestartIdentity(kN: int, p0: int, q0: int, s: int, b0: int)
    requires p0 * p0 + q0 * (s * s) == kN
    ensures var p := b0 * s + p0;
      kN - p * p == s * (q0 * s - b0 * b0 * s - 2 * b0 * p0)
  {
    var p := b0 * s + p0;
    assert p * p == b0 * b0 * (s * s) + 2 * b0 * s * p0 + p0 * p0;
    assert s * (q0 * s - b0 * b0 * s - 2 * b0 * p0) == q0 * (s * s) - b0 * b0 * (s * s) - 2 * b0 * s * p0;
  }

  /** When s^2 == Q_i, the restart divides exactly and yields a form of discriminant kN again. */
  lemma ReverseStartHolds(kN: int, sqrtKN: int, f: Form, s: int)
    requires Holds(kN, f) && s != 0 && s * s == f.q1
    ensures Holds(kN, ReverseStart(kN, sqrtKN, f, s)) && ReverseStart(kN, sqrtKN, f, s).q0 == s
  {
    var b0 := JavaDiv(sqrtKN - f.p0, s);
    var p := b0 * s + f.p0;
    var k := f.q0 * s - b0 * b0 * s - 2 * b0 * f.p0;
    RestartIdentity(kN, f.p0, f.q0, s, b0);
    JavaDivExact(k, s);
    assert JavaDiv(kN - p * p, s) == k;
    assert p * p + s * k == kN;
  }

  /** The reverse loop keeps the form; when P_i meets P_{i-1}, Q_i divides 2 P_i. */
  lemma {:induction false} ReverseExit(kN: int, sqrtKN: int, f: Form, fuel: nat)
    requires Holds(kN, f)
    ensures ReverseFrom(sqrtKN, f, fuel).Met? ==>
      var g := ReverseFrom(sqrtKN, f, fuel).form;
      Holds(kN, g) && g.q0 != 0 && (2 * g.p0) % Abs(g.q0) == 0
    ensures ReverseFrom(sqrtKN, f, fuel).ReverseRunning? ==>
      Holds(kN, ReverseFrom(sqrtKN, f, fuel).form)
    decreases fuel
  {
    if fuel > 0 && f.q1 != 0 {
      StepKeepsForm(kN, sqrtKN, f);
      var g := Step(sqrtKN, f);
      if g.p0 == f.p0 {
        var b := JavaDiv(sqrtKN + f.p0, f.q1);
        assert 2 * g.p0 == b * f.q1;
        MeetDivides(b, f.q1);
      } else {
        ReverseExit(kN, sqrtKN, g, fuel - 1);
      }
    }
  }

  lemma MeetDivides(b: int, q: int)
    requires q != 0
    ensures (b * q) % Abs(q) == 0
  {
    if q > 0 {
      MultipleMod(b, q);
    } else {
      assert b * q == (-b) * Abs(q);
      MultipleMod(-b, Abs(q));
    }
  }

  /** A divisor of |n| divides n. */
  lemma DividesSigned(n: int, d: int)
    requires d > 0 && Abs(n) % d == 0
    ensures n % d == 0
  {
    var q := Abs(n) / d;
    DivModUnique(Abs(n), d, q, 0);
    if n < 0 {
      assert n == (-q) * d;
      MultipleMod(-q, d);
    }
  }

  /** For N != 0 the value returned by squfof is a positive divisor of N. */
  lemma SqufofFactorDivides(n: int, fuel: nat)
    requires n != 0 && SqufofRun(n, fuel).Factor?
    ensures SqufofRun(n, fuel).factor >= 1 && n % SqufofRun(n, fuel).factor == 0
    ensures SqufofRun(n, fuel).factor <= Abs(n)
  {
    var f := SqufofRun(n, fuel).factor;
    var p :| f == Gcd(Abs(n), p);
    GcdDivides(Abs(n), p);
    DividesSigned(n, f);
    DivisorBelow(Abs(n), f);
  }

  lemma DivisorBelow(a: nat, d: nat)
    requires a > 0 && d > 0 && a % d == 0
    ensures d <= a
  {
    var q := a / d;
    DivModUnique(a, d, q, 0);
    assert q >= 1;
    assert q * d >= 1 * d;
  }

  /** On a perfect square N (0 included) squfof never returns a factor: Q_0 = kN - isqrt(kN)^2 is 0 and the first division fails. */
  lemma SqufofOnSquareFails(n: int, fuel: nat)
    requires IsSquare(n) && fuel > 0
    ensures !SqufofRun(n, fuel).Factor?
  {
    IsqrtCorrect(n, fuel);
    var kN := n * K;
    assert kN == n;
    match IsqrtRun(kN, fuel)
    case SqrtDivisionByZero =>
    case SqrtRunning(_) =>
    case Root(r) =>
      FloorSqrtUnique(r, FloorSqrt(n), n);
      assert K * n - r * r == 0;
  }

  /** squfof(3) never returns: the square root of kN = 3 already oscillates. */
  lemma SqufofOnThreeRuns(fuel: nat)
    ensures SqufofRun(3, fuel) == NotFinished
  {
    IsqrtThreeNeverReturns(fuel);
  }

  /** squfof(N) never returns when kN is one below a square, since isqrt(kN) does not. */
  lemma SqufofNearSquareRuns(k: int, fuel: nat)
    requires k >= 2
    ensures SqufofRun(k * k - 1, fuel) == NotFinished
  {
    IsqrtNearSquareNeverReturns(k, fuel);
  }

  /** isqrt(8051) runs 64, 94, 89, 89. */
  lemma IsqrtOf8051()
    ensures IsqrtRun(8051, 10) == Root(89)
  {
    assert NatBitLength(8051) == 13;
    assert Pow2(6) == 64;
    assert NewtonStep(8051, 64) == 94 && NewtonStep(8051, 94) == 89 && NewtonStep(8051, 89) == 89;
  }

  /** isqrt(49) runs 8, 7, 7. */
  lemma IsqrtOf49()
    ensures IsqrtRun(49, 10) == Root(7)
  {
    assert NatBitLength(49) == 6;
    assert Pow2(3) == 8;
    assert NewtonStep(49, 8) == 7 && NewtonStep(49, 7) == 7;
  }

  /** From kN = 8051, the first forward pass reaches Q_1 = 49 = 7^2 at index 0. */
  lemma ForwardOn8051()
    ensures ForwardFrom(89, Form(89, 1, 130), 0, 10) == SquareFound(Form(41, 130, 49), 0)
  {
    assert JavaDiv(178, 130) == 1;
    assert Step(89, Form(89, 1, 130)) == Form(41, 130, 49);
    SquareIsSquare(7);
    IsPerfectSquare64Correct(49);
  }

  /** The restart from Form(41, 130, 49) with sqrtQ = 7, then one reverse pass, where P_1 meets P_0 = 83. */
  lemma ReverseOn8051()
    ensures ReverseStart(8051, 89, Form(41, 130, 49), 7) == Form(83, 7, 166)
    ensures ReverseFrom(89, Form(83, 7, 166), 10) == Met(Form(83, 166, 7))
  {
    assert JavaDiv(48, 7) == 6;
    assert JavaDiv(1162, 7) == 166;
    assert JavaDiv(172, 166) == 1;
  }

  /** squfof(8051) returns 83, a proper factor (8051 = 83 * 97), one pass into each loop. */
  lemma SqufofOn8051()
    ensures SqufofRun(8051, 10) == Factor(83)
  {
    IsqrtOf8051();
    ForwardOn8051();
    IsqrtOf49();
    ReverseOn8051();
    assert Gcd(8051, 83) == 83;
  }
}
