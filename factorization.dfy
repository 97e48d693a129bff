/**
 * complete_factorization of ecm/main.c: values move between a work stack
 * and a stack of primes. A value the primality test accepts is moved to the
 * primes; any other value is split by Pollard's rho into d and n/d, which go
 * back on the work stack. A failing rho ends the loop early.
 */
module Factorization {
  import opened Wrappers
  import opened Queue
  import opened Pollard
  import opened Arith

  /** How the loop ended. */
  datatype Outcome =
    | Drained          // the work stack ran empty
    | PollardFailed    // pollard returned -1 (d == n); the loop broke
    | RhoOutOfFuel     // pollard was still looping after its pass budget

  /** The loop measure: each value v weighs 2v - 1. */
  ghost function Weight(s: seq<int>): int
  {
    if s == [] then 0 else 2 * s[0] - 1 + Weight(s[1..])
  }

  /** Every value is at least 1. */
  predicate AllPositive(s: seq<int>)
  {
    s == [] || (s[0] >= 1 && AllPositive(s[1..]))
  }

  lemma AllPositivePrepend(x: int, s: seq<int>)
    ensures AllPositive([x] + s) <==> x >= 1 && AllPositive(s)
  {
    assert ([x] + s)[1..] == s;
  }

  /** Every value lies in [lo, hi]. */
  predicate AllBetween(s: seq<int>, lo: int, hi: int)
  {
    s == [] || (lo <= s[0] <= hi && AllBetween(s[1..], lo, hi))
  }

  lemma AllBetweenPrepend(x: int, s: seq<int>, lo: int, hi: int)
    ensures AllBetween([x] + s, lo, hi) <==> lo <= x <= hi && AllBetween(s, lo, hi)
  {
    assert ([x] + s)[1..] == s;
  }

  /** Every value passed the primality test and is at least 1. */
  predicate AllAccepted(s: seq<int>, isPrime: int -> bool)
  {
    s == [] || (isPrime(s[0]) && s[0] >= 1 && AllAccepted(s[1..], isPrime))
  }

  lemma AllAcceptedPrepend(x: int, s: seq<int>, isPrime: int -> bool)
    ensures AllAccepted([x] + s, isPrime) <==> isPrime(x) && x >= 1 && AllAccepted(s, isPrime)
  {
    assert ([x] + s)[1..] == s;
  }

  lemma {:induction false} AllAcceptedElements(s: seq<int>, isPrime: int -> bool)
    requires AllAccepted(s, isPrime)
    ensures AllPositive(s)
    ensures forall i :: 0 <= i < |s| ==> isPrime(s[i]) && s[i] >= 1
    decreases |s|
  {
    if s != [] {
      AllAcceptedElements(s[1..], isPrime);
      forall i | 0 < i < |s|
        ensures isPrime(s[i]) && s[i] >= 1
      {
        assert s[i] == s[1..][i - 1];
      }
    }
  }

  lemma {:induction false} WeightNonNegative(s: seq<int>)
    requires AllPositive(s)
    ensures Weight(s) >= 0
    decreases |s|
  {
    if s != [] {
      WeightNonNegative(s[1..]);
    }
  }

  lemma WeightPrepend(x: int, s: seq<int>)
    ensures Weight([x] + s) == 2 * x - 1 + Weight(s)
  {
    assert ([x] + s)[1..] == s;
  }

  /** Two factors of at least 2 sum to at most their product. */
  lemma SumAtMostProduct(d: int, q: int)
    requires d >= 2 && q >= 2
    ensures d + q <= d * q
  {
    assert d * q - d - q + 1 == (d - 1) * (q - 1);
    assert (d - 1) * (q - 1) >= (d - 1) * 1;
  }

  /** The product of positive values is positive. */
  lemma {:induction false} ProductPositive(s: seq<int>)
    requires AllPositive(s)
    ensures Product(s) >= 1
    decreases |s|
  {
    if s != [] {
      ProductPositive(s[1..]);
      assert s == [s[0]] + s[1..];
      ProductPrepend(s[0], s[1..]);
      assert s[0] * Product(s[1..]) >= 1 * Product(s[1..]);
    }
  }

  lemma MoveFactor(n: int, r: int, p: int)
    ensures (n * r) * p == r * (n * p) == n * (r * p)
  {
  }

  /** How the product p of the primes relates to the input, given the product l of the values not among them. */
  lemma ProductShare(l: int, p: int, number: int)
    requires l * p == number && p >= 1 && number >= 1
    ensures l >= 1 && number % p == 0
    ensures l == 1 ==> p == number
    ensures l >= 2 ==> p < number
  {
    MultipleMod(l, p);
    if l >= 2 {
      assert l * p >= 2 * p;
    }
  }

  /** The cofactor n / d of a proper divisor d of n is itself at least 2. */
  lemma Cofactor(n: int, d: int)
    requires 1 < d < n && n % d == 0
    ensures (n / d) * d == n && 2 <= n / d < n
  {
    var q := n / d;
    assert n == d * q + n % d;
    CofactorBounds(n, d, q);
  }

  lemma CofactorBounds(n: int, d: int, q: int)
    requires 1 < d < n && n == d * q
    ensures 2 <= q < n
  {
    assert d * (q - 1) == n - d > 0;
    assert q - 1 >= 1;
    assert d * q >= 2 * q;
  }

  /** Replacing n by its factors n / d and d keeps the product, lowers the weight and keeps every value in [lo, hi]. */
  lemma SplitStep(n: int, d: int, rest: seq<int>, ps: seq<int>, lo: int, hi: int)
    requires 1 < d < n && n % d == 0
    requires AllPositive(rest) && AllBetween(rest, lo, hi) && lo <= 2 && n <= hi
    ensures var q := n / d;
      Product(([q] + ([d] + rest)) + ps) == Product(([n] + rest) + ps) &&
      Weight([q] + ([d] + rest)) < Weight([n] + rest) &&
      AllPositive([q] + ([d] + rest)) && AllBetween([q] + ([d] + rest), lo, hi)
  {
    var q := n / d;
    Cofactor(n, d);
    SplitProduct(n, d, q, rest, ps);
    SplitWeight(n, d, q, rest);
    SplitBounds(n, d, q, rest, lo, hi);
  }

  lemma SplitProduct(n: int, d: int, q: int, rest: seq<int>, ps: seq<int>)
    requires q * d == n
    ensures Product(([q] + ([d] + rest)) + ps) == Product(([n] + rest) + ps)
  {
    ProductPrepend(d, rest);
    ProductPrepend(q, [d] + rest);
    ProductPrepend(n, rest);
    ProductConcat([q] + ([d] + rest), ps);
    ProductConcat([n] + rest, ps);
    MoveFactor(q, d, Product(rest));
  }

  lemma SplitWeight(n: int, d: int, q: int, rest: seq<int>)
    requires d >= 2 && q >= 2 && q * d == n
    ensures Weight([q] + ([d] + rest)) < Weight([n] + rest)
  {
    WeightPrepend(d, rest);
    WeightPrepend(q, [d] + rest);
    WeightPrepend(n, rest);
    SumAtMostProduct(d, q);
  }

  lemma SplitBounds(n: int, d: int, q: int, rest: seq<int>, lo: int, hi: int)
    requires 2 <= d < n && 2 <= q < n && AllPositive(rest) && AllBetween(rest, lo, hi) && lo <= 2 && n <= hi
    ensures AllPositive([q] + ([d] + rest)) && AllBetween([q] + ([d] + rest), lo, hi)
  {
    AllPositivePrepend(d, rest);
    AllPositivePrepend(q, [d] + rest);
    AllBetweenPrepend(d, rest, lo, hi);
    AllBetweenPrepend(q, [d] + rest, lo, hi);
  }

  /** Taking the top value n off the work stack: the rest keeps the bounds and weighs less. */
  lemma TakeStep(n: int, rest: seq<int>, lo: int, hi: int)
    requires AllPositive([n] + rest) && AllBetween([n] + rest, lo, hi)
    ensures n >= 1 && lo <= n <= hi && AllPositive(rest) && AllBetween(rest, lo, hi)
    ensures 0 <= Weight(rest) < Weight([n] + rest)
  {
    AllPositivePrepend(n, rest);
    AllBetweenPrepend(n, rest, lo, hi);
    WeightPrepend(n, rest);
    WeightNonNegative(rest);
  }

  /** A value the primality test accepts moves to the primes without changing the product of both stacks. */
  lemma PrimeStep(n: int, rest: seq<int>, ps: seq<int>, isPrime: int -> bool)
    requires isPrime(n) && n >= 1 && AllAccepted(ps, isPrime)
    ensures Product(rest + ([n] + ps)) == Product(([n] + rest) + ps)
    ensures AllAccepted([n] + ps, isPrime)
  {
    AllAcceptedPrepend(n, ps, isPrime);
    MoveStep(n, rest, ps);
  }

  /**
   * What pollard(n) gives for a value n of the work stack: a divisor of n
   * above 1 when it returns, n itself exactly when it reports failure, and
   * it always returns within `number` passes.
   */
  lemma RhoStep(n: int, lo: int, number: int, rhoFuel: nat)
    requires 1 <= lo <= n <= number && (number >= 2 ==> lo == 2)
    ensures var r := FloydRun(n, rhoFuel);
      (number >= 2 && rhoFuel >= number ==> r.Done?) &&
      (r.Done? ==> 1 < r.d <= n && n % r.d == 0 && (r.status == 0 <==> r.d < n))
  {
    if number >= 2 && rhoFuel >= number {
      FloydFinishes(n, rhoFuel);
    }
    if FloydRun(n, rhoFuel).Done? {
      FloydExitIsDivisor(n, 2, 2, rhoFuel);
    }
  }

  /** Moving n from the work stack to the primes keeps the product of both. */
  lemma MoveStep(n: int, rest: seq<int>, ps: seq<int>)
    ensures Product(rest + ([n] + ps)) == Product(([n] + rest) + ps)
  {
    ProductConcat(rest, [n] + ps);
    ProductConcat([n] + rest, ps);
    ProductPrepend(n, rest);
    ProductPrepend(n, ps);
    MoveFactor(n, Product(rest), Product(ps));
  }

  /** Multiplying by a value of at least 1 does not decrease a positive product. */
  lemma PrependAtLeast(n: int, rest: seq<int>)
    requires n >= 1 && AllPositive(rest)
    ensures Product([n] + rest) >= n
  {
    ProductPrepend(n, rest);
    ProductPositive(rest);
    assert n * Product(rest) >= n * 1;
  }

  /** What the product of the primes says once the values w are left over. */
  lemma FinalShare(w: seq<int>, ps: seq<int>, number: int)
    requires Product(w + ps) == number && number >= 1 && AllPositive(w) && AllPositive(ps)
    ensures Product(ps) >= 1 && number % Product(ps) == 0
    ensures w == [] ==> Product(ps) == number
    ensures Product(w) >= 2 ==> Product(ps) < number
  {
    ProductConcat(w, ps);
    ProductPositive(w);
    ProductPositive(ps);
    ProductShare(Product(w), Product(ps), number);
  }

  /** The branch of complete_factorization for a value n that the primality test accepts: n is pushed onto the primes. */
  method MovePrime(primes: Queue, n: int, isPrime: int -> bool, ghost rest: seq<int>)
    requires primes.Valid() && isPrime(n) && n >= 1 && AllAccepted(primes.Contents, isPrime)
    modifies primes
    ensures primes.Valid() && primes.Contents == [n] + old(primes.Contents)
    ensures AllAccepted(primes.Contents, isPrime)
    ensures Product(rest + primes.Contents) == Product(([n] + rest) + old(primes.Contents))
  {
    PrimeStep(n, rest, primes.Contents, isPrime);
    primes.Enqueue(n);
  }

  /**
   * The branch of complete_factorization for a value n that the primality
   * test rejected, once n is off the work stack: pollard(n) either fails,
   * which ends the loop and leaves the stack as it was, or gives a proper
   * divisor d, after which d and then n / d are pushed.
   */
  method SplitTop(work: Queue, n: int, rhoFuel: nat, ghost ps: seq<int>, ghost lo: int, ghost number: int) returns (ended: Option<Outcome>)
    requires work.Valid() && AllPositive(work.Contents) && AllBetween(work.Contents, lo, number)
    requires 1 <= lo <= n <= number && lo <= 2 && (number >= 2 ==> lo == 2)
    modifies work
    ensures work.Valid()
    ensures ended.None? ==>
      Product(work.Contents + ps) == Product(([n] + old(work.Contents)) + ps) &&
      Weight(work.Contents) < Weight([n] + old(work.Contents)) &&
      AllPositive(work.Contents) && AllBetween(work.Contents, lo, number)
    ensures ended.Some? ==> work.Contents == old(work.Contents) && ended != Some(Drained)
    ensures ended == Some(PollardFailed) ==> n >= 2
    ensures ended == Some(RhoOutOfFuel) ==> !(number >= 2 && rhoFuel >= number)
    ensures ended.None? ==>
      FloydRun(n, rhoFuel).Done? && FloydRun(n, rhoFuel).status == 0 &&
      var d := FloydRun(n, rhoFuel).d;
      d != 0 && work.Contents == [n / d, d] + old(work.Contents)
    ensures ended == Some(RhoOutOfFuel) <==> FloydRun(n, rhoFuel).OutOfFuel?
    ensures ended == Some(PollardFailed) <==> FloydRun(n, rhoFuel).Done? && FloydRun(n, rhoFuel).status != 0
  {
    var r := Floyd(n, rhoFuel);
    RhoStep(n, lo, number, rhoFuel);
    if r.OutOfFuel? {
      return Some(RhoOutOfFuel);
    }
    if r.status != 0 {
      return Some(PollardFailed);
    }
    var d := r.d;
    ghost var rest := work.Contents;
    work.Enqueue(d);
    work.Enqueue(n / d);
    SplitStep(n, d, rest, ps, lo, number);
    return None;
  }

  /**
   * complete_factorization(number). The primality test mpz_probab_prime_p
   * is the oracle isPrime, and pollard is the corrected iteration (Floyd),
   * each call running for at most rhoFuel passes. The primes stack is
   * returned; the work stack is dropped, as in the C code. With a budget of
   * at least `number` passes, pollard always returns for number >= 2.
   */
  method CompleteFactorization(number: int, isPrime: int -> bool, rhoFuel: nat) returns (primes: Queue, outcome: Outcome)
    requires number >= 1
    ensures fresh(primes) && primes.Valid()
    ensures forall i :: 0 <= i < |primes.Contents| ==> isPrime(primes.Contents[i]) && primes.Contents[i] >= 1
    ensures Product(primes.Contents) >= 1 && number % Product(primes.Contents) == 0
    ensures outcome == Drained ==> Product(primes.Contents) == number
    ensures outcome == PollardFailed ==> Product(primes.Contents) < number
    ensures number >= 2 && rhoFuel >= number ==> outcome != RhoOutOfFuel
  {
    primes := new Queue();
    var work := new Queue();
    work.Enqueue(number);
    outcome := Drained;
    ProductPrepend(number, []);
    assert work.Contents + primes.Contents == [number];
    // The values not (yet) among the primes: the work stack, plus the value
    // being split when the loop breaks.
    ghost var leftover := work.Contents;
    ghost var lo := if number >= 2 then 2 else 1;
    AllBetweenPrepend(number, [], lo, number);
    while work.size > 0
      invariant work.Valid() && primes.Valid() && work != primes
      invariant AllPositive(work.Contents) && AllAccepted(primes.Contents, isPrime)
      invariant leftover == work.Contents && Product(work.Contents + primes.Contents) == number
      invariant AllBetween(work.Contents, lo, number)
      decreases Weight(work.Contents)
    {
      ghost var before := work.Contents;
      var next := work.Dequeue();
      var n := next.value;
      assert before == [n] + work.Contents;
      TakeStep(n, work.Contents, lo, number);
      if isPrime(n) {
        MovePrime(primes, n, isPrime, work.Contents);
        leftover := work.Contents;
        continue;
      }
      var ended := SplitTop(work, n, rhoFuel, primes.Contents, lo, number);
      if ended.Some? {
        outcome := ended.value;
        if outcome == PollardFailed {
          PrependAtLeast(n, work.Contents);
        }
        break;
      }
      leftover := work.Contents;
    }
    AllAcceptedElements(primes.Contents, isPrime);
    FinalShare(leftover, primes.Contents, number);
  }
}
