# Integer factorisation: elliptic-curve stage one, Pollard rho, SQUFOF

This project is a Dafny model of the arithmetic core of a small factorisation toolkit. It covers:

- the C program's affine elliptic-curve arithmetic modulo N (`ecm/ec.c`): point equality, the smoothness test, chord-and-tangent addition with a failed inversion that reveals a divisor, and double-and-add scalar multiplication over the binary string of the scalar;
- the stage-one driver of Lenstra's elliptic-curve method (`ecm/ecm.c`) and its parameter table (`ecm/ecm_params.c`);
- Pollard's rho (`ecm/pollard.c`);
- the pointer-linked stack "queue" with its product and grouping operations (`ecm/queue.c`);
- the driver that splits a number into primes, `complete_factorization` in `ecm/main.c`;
- Shanks' square-form factorisation with its integer square root and 64-bit perfect-square test (`src/Squfof.java`).

Modelling conventions:

- Arbitrary-precision integers (mini-gmp `mpz_t`, Java `BigInteger`) are Dafny `int`.
- mini-gmp's `mpz_mod` is Euclidean, like Dafny's `%`.
- Java's `/` truncates toward zero and is written out as `Squfof.JavaDiv`.
- `mpz_invert` is `Arith.Inverse`. It succeeds exactly when N > 1 and gcd(u, N) = 1, and then returns the inverse in [0, N).
- The point at infinity is the sentinel (0, 0), exactly as in the C code.
- A mutable `ec_point_t` is the class `EllipticCurve.ECPoint`. This lets `point_add` and `point_mul` be called with aliased arguments (`res == p`, `Q == P`) as the C callers do.
- The linked queue is the class `Queue.Queue` over `Queue.Node` objects. Its ghost `Contents` sequence lists the elements from the head.
- The loops in the source that are not guaranteed to end take a `fuel` bound, or a finite sequence of random draws, and report "still running" when it runs out. This applies to Pollard rho, Newton's square root, both SQUFOF loops and the curve-drawing retry.
- Randomness (`rand`) and the primality test (`mpz_probab_prime_p`) are parameters: a sequence of draws and an `isPrime` predicate.

## Model

| member | source | states |
|---|---|---|
| EllipticCurve.PointEquals | ecm/ec.c:45-47 | true exactly when both coordinates agree |
| EllipticCurve.CurveIsSmooth | ecm/ec.c:121-154 | accepts exactly when the discriminant -4a³ - 27b² is non-zero modulo N |
| EllipticCurve.DiscriminantReduction | ecm/ec.c:121-154 | reducing a³ and b² modulo N first, as the code does, gives the same residue as the exact discriminant |
| EllipticCurve.Chord | ecm/ec.c:241-263 | the computed third point has both coordinates reduced into [0, N) |
| EllipticCurve.Add | ecm/ec.c:171-273 | infinity is the identity; a failed inversion reports the denominator (2y for doubling, x_p - x_q otherwise), which shares a factor with N; a finite sum lies in [0, N) |
| EllipticCurve.AddIdentity | ecm/ec.c:175-185 | adding the (0, 0) sentinel on either side returns the other point |
| EllipticCurve.AddFailureRevealsDivisor | ecm/ec.c:206-215 | on a failed inversion, gcd(den, N) is a divisor of N greater than 1 |
| EllipticCurve.ChordSymmetric | ecm/ec.c:241-263 | the chord through p, q with λ built from (x_p - x_q)⁻¹ equals the one built from (x_q - x_p)⁻¹ |
| EllipticCurve.AddCommutes | ecm/ec.c:171-273 | addition succeeds for (p, q) iff it succeeds for (q, p), and the sums are equal |
| EllipticCurve.ECPoint.constructor | ecm/ec.c:156-161 | a fresh point holds the given coordinates |
| EllipticCurve.PointAdd | ecm/ec.c:171-273 | the result point and status match `Add` on the old values of p and q, even when res aliases p or q |
| EllipticCurve.BinaryString | ecm/ec.c:281-286 | the binary expansion of the scalar is never empty |
| EllipticCurve.Walk | ecm/ec.c:290-304 | the double-and-add loop over the digit string, from the last digit, stopping at the first failed addition; its properties are `WalkOverIntegers`, `WalkFailureRevealsDivisor` and `WalkFromInfinity` |
| EllipticCurve.Mul | ecm/ec.c:275-310 | point_mul as a value: the walk from the sentinel over the binary string of d; its properties are `WalkComputesScalar` and `MulFailureRevealsDivisor` |
| EllipticCurve.PointMul | ecm/ec.c:275-310 | the result point and status match the double-and-add walk `Mul` on the old value of P, even when Q aliases P |
| EllipticCurve.WalkOverIntegers | ecm/ec.c:290-304 | run over integer addition, the walk computes acc + run·value(bits) |
| EllipticCurve.NatBitsValue | ecm/ec.c:281-286 | the digits produced for n > 0 read back as n |
| EllipticCurve.LeadingSignIgnored | ecm/ec.c:290-304 | a leading character other than '1' (the '-' of a negative scalar) adds nothing |
| EllipticCurve.BinaryStringValue | ecm/ec.c:281-286 | the string read back is \|d\| |
| EllipticCurve.WalkComputesScalar | ecm/ec.c:275-310 | the walk over integers from 0 with unit 1 ends at \|d\|: point_mul computes \|d\|·P |
| EllipticCurve.WalkFailureRevealsDivisor | ecm/ec.c:290-304 | a walk that stops on a failed addition leaves a denominator whose gcd with N is a divisor greater than 1 |
| EllipticCurve.MulFailureRevealsDivisor | ecm/ec.c:275-310 | the same holds for a failed scalar multiplication |
| EllipticCurve.WalkFromInfinity | ecm/ec.c:290-304 | multiplying the sentinel gives the sentinel |
| EllipticCurve.CoefficientB | ecm/ec.c:95-105 | b = y0² - (x0³ mod N) - a·x0, not reduced modulo N; its property is `DrawOnCurve` |
| EllipticCurve.DrawOnCurve | ecm/ec.c:95-105 | the point (x0, y0) satisfies y² ≡ x³ + ax + b (mod N) for the computed b |
| EllipticCurve.CurveCreateRandom | ecm/ec.c:66-119 | returns the first draw whose curve is smooth, that curve with the drawn point on it, and rejects every earlier draw; without such a draw it reports none |
| Ecm.Doubles | ecm/ecm.c:26 | multiplying by next_factor ≥ 2 at least doubles current |
| Ecm.FactorialStep | ecm/ecm.c:26 | current = 2·(k-1)! times k is 2·k! |
| Ecm.StageOneFrom | ecm/ecm.c:21-43 | the loop from (P, current, next_factor): -1 when current reaches B1, when the stop flag is set, or when P becomes the sentinel; 0 with gcd(den, N) when point_mul fails; its properties are `StageOneFactorIsDivisor` and `StageOneOutOnlyOnFactor` |
| Ecm.StageOneAfter | ecm/ecm.c:26-42 | the rest of one pass once point_mul has returned; its properties are `AfterFactorIsDivisor` and `AfterOutOnlyOnFactor` |
| Ecm.StageOne | ecm/ecm.c:10-49 | ecm() from current = next_factor = 2: the status is 0 or -1, a factor is written iff it is 0, and then it is a divisor of N above 1 and the stop flag is set; on -1 the stop flag is unchanged |
| Ecm.RunStageOne | ecm/ecm.c:10-49 | status, factor and final point equal the stage-one specification `StageOne` on the old point |
| Ecm.StageOneFactorIsDivisor | ecm/ecm.c:27-36 | status 0 means a factor is present, it is a divisor of N greater than 1, and the stop flag is set |
| Ecm.AfterFactorIsDivisor | ecm/ecm.c:27-36 | the same after one multiplication has been performed |
| Ecm.StageOneOutOnlyOnFactor | ecm/ecm.c:21-48 | status is 0 or -1; a factor is written iff status is 0; the stop flag changes only then |
| Ecm.AfterOutOnlyOnFactor | ecm/ecm.c:21-48 | the same after one multiplication has been performed |
| Ecm.StageOneStopped | ecm/ecm.c:22-24 | with the stop flag already set, stage one returns -1 without touching P |
| EcmParams.Params | ecm/ecm_params.c:16-82 | rounds outside 1..10 get the fallback row; round 1 is (53, 2650, 4, 6); every row has 0 < B1 < B2, L ≥ 4 and 6..30 digits |
| EcmParams.Rank | ecm/ecm_params.c:77-81 | rounds 1..10 keep their place and every other round ranks last |
| EcmParams.ParamsStepIncrease | ecm/ecm_params.c:16-82 | B1, B2 and L increase from each row to the next |
| EcmParams.ParamsIncrease | ecm/ecm_params.c:16-82 | B1, B2 and L strictly increase with the rank of the round |
| EcmParams.DigitsDipAtRoundEight | ecm/ecm_params.c:53-70 | the expected digit count is not monotone: round 8 returns 8, below rounds 7 and 9 |
| Pollard.Exit | ecm/pollard.c:29-40 | once d = gcd(\|x - y\|, n) is not 1, for n > 0 it is a divisor of n with 1 < d ≤ n, and the status is 0 iff d < n and -1 iff d = n |
| Pollard.RhoFrom | ecm/pollard.c:13-37 | the as-written loop from (x, y) for at most `fuel` passes; its properties are `RhoExitIsDivisor`, `RhoStuckAtFour` and `RhoNeverFinishesOnOne` |
| Pollard.RhoRun | ecm/pollard.c:5-46 | pollard() as written from x = y = 2; its properties are `RhoFactorIsProper`, `RhoSplitsTwelve` and `RhoNeverFinishesOnFour` |
| Pollard.Rho | ecm/pollard.c:5-46 | the loop as written (x := x·y + 1) computes the specification `RhoRun` |
| Pollard.RhoExitIsDivisor | ecm/pollard.c:29-40 | on exit, d divides n with 1 < d ≤ n; status 0 iff d < n and -1 iff d = n |
| Pollard.RhoFactorIsProper | ecm/pollard.c:39-40 | on exit with status 0, 1 < d < n and d divides n |
| Pollard.RhoStuckAtFour | ecm/pollard.c:13-37 | from x = 3, y = 2 modulo 4 the state never changes and never exits |
| Pollard.RhoNeverFinishesOnFour | ecm/pollard.c:15 | the as-written loop never ends for n = 4, for any amount of fuel |
| Pollard.RhoSplitsTwelve | ecm/pollard.c:13-40 | as written, pollard(12) exits on its first pass with status 0 and d = 3, so the driver pushes the cofactor 4 |
| Pollard.RhoNeverFinishesOnOne | ecm/pollard.c:29-36 | for n = 1 the gcd is always 1, so the loop never ends |
| Pollard.FloydFrom | ecm/pollard.c:13-37 | the corrected loop from (x, y) for at most `fuel` passes; its properties are `FloydReaches`, `FloydFinishes` and `FloydExitIsDivisor` |
| Pollard.Floyd | ecm/pollard.c:5-46 | the corrected loop (x := x² + 1) computes the specification `FloydRun` |
| Pollard.OrbitInRange | ecm/pollard.c:15-27 | every iterate of x ↦ x² + 1 mod n lies in [0, n) |
| Pollard.OrbitAdd | ecm/pollard.c:15-27 | i + j iterations are i iterations followed by j |
| Pollard.DistinctBound | ecm/pollard.c:13-37 | at most m distinct values fit in [0, m) |
| Pollard.OrbitRepeats | ecm/pollard.c:13-37 | within n + 1 iterations the orbit repeats a value |
| Pollard.OrbitPeriodic | ecm/pollard.c:13-37 | after the first repeat the orbit is periodic with any multiple of the period |
| Pollard.OrbitShift | ecm/pollard.c:13-37 | after the first repeat, one period later gives the same value |
| Pollard.MeetingPass | ecm/pollard.c:19-27 | some pass t in 1..n has x_t = x_{2t}, where the tortoise meets the hare |
| Pollard.FloydReaches | ecm/pollard.c:13-37 | with enough fuel to reach that meeting pass, the corrected loop exits |
| Pollard.FloydFailsOnFour | ecm/pollard.c:13-40 | the corrected loop on n = 4 reaches x = y on its second pass, so d = n and the status is -1 |
| Pollard.FloydFinishes | ecm/pollard.c:13-37 | for n > 1 the corrected loop exits within n passes |
| Pollard.FloydExitIsDivisor | ecm/pollard.c:29-40 | on exit of the corrected loop, d divides n with 1 < d ≤ n; status 0 iff d < n and -1 iff d = n |
| Queue.Node.constructor | ecm/queue.c:19-21 | a new node holds the data, links to the old head and lists it in front of that head's contents |
| Queue.ProductPrepend | ecm/queue.c:71-82 | the product of x followed by s is x times the product of s |
| Queue.ProductConcat | ecm/queue.c:71-82 | the product distributes over concatenation |
| Queue.ConsSorted | ecm/queue.c:84-89 | a head not above a sorted tail gives a sorted sequence |
| Queue.HeadIsLeast | ecm/queue.c:84-89 | the head of a sorted sequence is its least element |
| Queue.Insert | ecm/queue.c:108 | inserting into a sorted sequence keeps it sorted and adds exactly x |
| Queue.Sort | ecm/queue.c:108 | the result is sorted and a permutation of the input |
| Queue.SortedUnique | ecm/queue.c:108 | two sorted permutations of the same elements are equal, so the order `qsort` leaves is determined |
| Queue.AddToGroups | ecm/queue.c:113-117 | a new group starts exactly when the value changes, and the last group carries the new value |
| Queue.Groups | ecm/queue.c:101-134 | there are no more groups than elements; there are none exactly for an empty queue; the last group has the last value |
| Queue.GroupsCover | ecm/queue.c:101-134 | every group is non-empty with a value from the input, and every value has a group |
| Queue.GroupsAscending | ecm/queue.c:101-134 | over a sorted array the group values strictly ascend |
| Queue.GroupsCount | ecm/queue.c:119-128 | over a sorted array a group's size is the multiplicity of its value |
| Queue.GroupsOfSorted | ecm/queue.c:101-134 | combines the two: ascending values, sizes equal to multiplicities, every value covered |
| Queue.GroupIsDistinctValue | ecm/queue.c:91-100 | group i has i distinct smaller values before it, and its size is its value's multiplicity |
| Queue.GroupsOfConstant | ecm/queue.c:119-125 | a run of one value is a single group of its length |
| Queue.GroupsSplit | ecm/queue.c:113-117 | concatenating at a value change concatenates the groups |
| Queue.GroupAt | ecm/queue.c:113-128 | a maximal run starting at a value change is the group numbered by the groups before it |
| Queue.GroupsGrow | ecm/queue.c:113-117 | extending the prefix by one element adds a group exactly when the value changes |
| Queue.Queue.constructor | ecm/queue.c:10-13 | a new queue is empty with size 0 |
| Queue.Queue.Enqueue | ecm/queue.c:18-24 | the element goes to the head and the size grows by one |
| Queue.Queue.Dequeue | ecm/queue.c:30-40 | an empty queue returns none and stays empty; otherwise the head element is removed and returned |
| Queue.Queue.Clear | ecm/queue.c:45-50 | the queue ends empty with size 0 |
| Queue.Queue.ToArray | ecm/queue.c:55-65 | a fresh array holding the elements from the head |
| Queue.Queue.ProductOf | ecm/queue.c:71-82 | 0 for an empty queue, otherwise the product of the elements |
| Queue.Queue.GroupAtIndex | ecm/queue.c:101-134 | group `index` of the sorted elements, or none when there is no such group (including an empty queue) |
| Queue.ScanGroups | ecm/queue.c:110-131 | the scan over the sorted array returns group `index`, or none past the last group |
| Queue.GroupsIgnoreOrder | ecm/queue.c:101-134 | the groups depend only on the elements, not on the order in which they were enqueued |
| Queue.UnitTestGroups | ecm/queue.c:250-273 | the queue left by pushing 2, 1, 3, 2, 2, 3, 3, 1, 3, read from the head as 3, 1, 3, 3, 2, 2, 3, 1, 2, sorts to 1, 1, 2, 2, 2, 3, 3, 3, 3 and has exactly the three groups (2×1), (3×2), (4×3) |
| Queue.GroupUnitTest | ecm/queue.c:250-273 | clearing, pushing those nine values and asking `GroupAtIndex` for 0, 1, 2 and 3 gives (2×1), (3×2), (4×3) and none, the four results the unit test asserts |
| Factorization.Cofactor | ecm/main.c:107 | for a proper divisor d, n/d is exact and 2 ≤ n/d < n |
| Factorization.SplitStep | ecm/main.c:106-108 | pushing d then n/d keeps the product, shrinks the work measure and keeps every element in range |
| Factorization.TakeStep | ecm/main.c:93 | the dequeued element is positive and within range, and the work measure drops |
| Factorization.PrimeStep | ecm/main.c:93-96 | moving a prime keeps the product of both queues and keeps the primes queue all prime |
| Factorization.RhoStep | ecm/main.c:101 | the corrected rho exits given fuel ≥ number, and then d divides n with 1 < d ≤ n, and status 0 iff d < n |
| Factorization.FinalShare | ecm/main.c:110-111 | the primes multiply to a divisor of the number; to the number itself when the work queue is empty, and to less when a composite is left |
| Factorization.MovePrime | ecm/main.c:93-96 | the prime is pushed onto the primes queue, which stays all prime, and the product is kept |
| Factorization.SplitTop | ecm/main.c:98-108 | calls the corrected rho (`Pollard.Floyd`, not the as-written `pollard`); it ends with `RhoOutOfFuel` exactly when that rho runs out of fuel and with `PollardFailed` exactly when it returns a status other than 0, leaving the stack unchanged; otherwise rho returned status 0 with d, and the stack becomes [n/d, d] followed by the old stack, with the same product and a smaller work measure |
| Factorization.CompleteFactorization | ecm/main.c:85-112 | every returned element passes the primality test, and their product divides the number. It equals the number when the work queue drains and is smaller when rho fails. Rho never runs out of fuel when fuel ≥ number. |
| Squfof.JavaDiv | src/Squfof.java:25 | for a non-negative dividend and positive divisor it is floor division |
| Squfof.JavaDivExact | src/Squfof.java:42 | exact division by s returns the quotient for either sign |
| Squfof.NatBitLengthBounds | src/Squfof.java:80 | 2^(bitLength-1) ≤ n < 2^bitLength |
| Squfof.FloorSqrt | src/Squfof.java:77-88 | a reference floor square root: r² ≤ n < (r+1)² |
| Squfof.FloorSqrtUnique | src/Squfof.java:77-88 | the floor square root is unique |
| Squfof.Isqrt | src/Squfof.java:77-88 | the Newton loop computes the specification `IsqrtRun` |
| Squfof.IsqrtLong | src/Squfof.java:72-74 | the long overload is the same computation on a 64-bit input |
| Squfof.NewtonFixedPoint | src/Squfof.java:84-86 | a fixed point of the Newton step is the floor square root |
| Squfof.StepBelow | src/Squfof.java:83 | from a start in [2, n] the next estimate is below n |
| Squfof.StartInRange | src/Squfof.java:80 | the starting estimate 2^(bitLength/2) lies in [2, n] for n ≥ 2 |
| Squfof.IsqrtCorrect | src/Squfof.java:77-88 | when the loop returns, it returns the floor square root; it never divides by zero for n ≥ 0 |
| Squfof.IsqrtThreeOscillates | src/Squfof.java:84-86 | for n = 3 the estimates alternate between 1 and 2 |
| Squfof.IsqrtThreeNeverReturns | src/Squfof.java:77-88 | for n = 3 the loop never returns |
| Squfof.NearSquareSteps | src/Squfof.java:84-86 | for in = k² - 1 with k ≥ 2, one Newton step sends k - 1 to k and k to k - 1 |
| Squfof.NearSquareNoFixedPoint | src/Squfof.java:82-87 | for in = k² - 1 no estimate equals its own Newton step, so from a positive estimate the do-while is still running after any number of passes |
| Squfof.IsqrtNearSquareNeverReturns | src/Squfof.java:77-88 | isqrt(k² - 1) never returns for any k ≥ 2 (n = 3, 8, 15, ...) |
| Squfof.IsqrtFrom | src/Squfof.java:82-87 | the Newton do-while from (n0, np) for at most `fuel` passes; its properties are `IsqrtLaterPasses` and `IsqrtThreeOscillates` |
| Squfof.IsPerfectSquare64 | src/Squfof.java:59-70 | the mask filter, the trailing-zero filter, the shift, the mod-8 filter and the square test in that order; its properties are `IsPerfectSquare64Correct` and `OddTrailingZerosRejected` |
| Squfof.MaskMatchesResidues | src/Squfof.java:60-61 | the mask's sign test at shift s is set exactly for the squares modulo 64 |
| Squfof.SquareResidue | src/Squfof.java:60-61 | every square is a square residue modulo 64 |
| Squfof.ValuationSplit | src/Squfof.java:62-65 | a non-zero x is 2^v times an odd number, with v its trailing-zero count |
| Squfof.ValuationOf | src/Squfof.java:62-65 | the trailing-zero count of 2^v·o for odd o is v |
| Squfof.OddSquare | src/Squfof.java:66-67 | an odd square is 1 modulo 8 |
| Squfof.SquareSplit | src/Squfof.java:62-67 | a square has an even trailing-zero count and an odd part that is the square of an odd number |
| Squfof.SquarePasses | src/Squfof.java:59-70 | every non-zero 64-bit square passes the test |
| Squfof.PassesIsSquare | src/Squfof.java:59-70 | every non-zero value the test accepts is a square |
| Squfof.IsPerfectSquare64Correct | src/Squfof.java:59-70 | on 64-bit inputs the test accepts exactly the squares |
| Squfof.OddTrailingZerosRejected | src/Squfof.java:62-64 | an odd trailing-zero count is rejected |
| Squfof.Step | src/Squfof.java:25-31 | one step of the form recurrence, b = (√kN + P₀) / Q₁ with truncating division; its properties are `StepIdentity` and `StepKeepsForm` |
| Squfof.ForwardFrom | src/Squfof.java:24-34 | the forward loop from a form for at most `fuel` passes, stopping on a square Q₁ at an even index; its property is `ForwardExit` |
| Squfof.ReverseStart | src/Squfof.java:38-42 | the restart from √Q₁: b0, the new P₀, Q₀ = √Q₁ and Q₁ = (kN - P₀²) / Q₀; its property is `ReverseStartHolds` |
| Squfof.ReverseFrom | src/Squfof.java:43-53 | the reverse loop for at most `fuel` passes, stopping when P₁ = P₀; its property is `ReverseExit` |
| Squfof.SqufofRun | src/Squfof.java:11-56 | the whole of squfof() with every loop bounded by `fuel`; its properties are `SqufofFactorDivides`, `SqufofOnSquareFails` and `SqufofOn8051` |
| Squfof.ForwardLoop | src/Squfof.java:24-34 | the forward loop computes the specification `ForwardFrom` |
| Squfof.ReverseLoop | src/Squfof.java:43-53 | the reverse loop computes the specification `ReverseFrom` |
| Squfof.Squfof | src/Squfof.java:11-56 | the whole method computes the specification `SqufofRun` |
| Squfof.StepIdentity | src/Squfof.java:25-31 | the form recurrence keeps P² + Q₀Q₁ unchanged |
| Squfof.StepKeepsForm | src/Squfof.java:25-31 | each step keeps P² + Q₀Q₁ = kN |
| Squfof.ForwardExit | src/Squfof.java:24-34 | a form found by the forward loop still satisfies the identity, at an even index, with a square Q₁ |
| Squfof.RestartIdentity | src/Squfof.java:39-42 | the restarted form satisfies the identity |
| Squfof.ReverseStartHolds | src/Squfof.java:38-42 | the restart from √Q keeps the identity and sets Q₀ = √Q |
| Squfof.ReverseExit | src/Squfof.java:43-53 | the reverse loop keeps the identity and ends with P₁ = P₀ |
| Squfof.SqufofFactorDivides | src/Squfof.java:55 | a returned factor is between 1 and \|N\| and divides N |
| Squfof.SqufofOnSquareFails | src/Squfof.java:13-22 | a perfect square N yields no factor |
| Squfof.SqufofOnThreeRuns | src/Squfof.java:13-22 | for N = 3 the square root never returns, so neither does squfof |
| Squfof.SqufofNearSquareRuns | src/Squfof.java:13-22 | squfof(N) never returns whenever kN = N is one below a square k² with k ≥ 2 |
| Squfof.IsqrtOf8051 | src/Squfof.java:77-88 | isqrt(8051) = 89 |
| Squfof.ForwardOn8051 | src/Squfof.java:24-34 | on 8051 the forward loop stops at the form (41, 130, 49) |
| Squfof.ReverseOn8051 | src/Squfof.java:38-53 | restarting from √49 = 7 reaches P₁ = P₀ = 83 |
| Squfof.SqufofOn8051 | src/Squfof.java:11-56 | squfof(8051) = gcd(8051, 83) = 83, a factor of 8051 = 83·97 |
| Arith.GcdDivides | ecm/ec.c:206-215 | the gcd is positive and divides both arguments |
| Arith.Inverse | ecm/ec.c:206-215 | `mpz_invert` succeeds iff N > 1 and gcd(u, N) = 1, and then u·r ≡ 1 with r in [0, N) |
| Arith.InverseOfNegation | ecm/ec.c:241-263 | the inverses of u and -u sum to 0 modulo N |

## Left out

- Threads, `ecm_threaded_factorization` and the shared stop flag: the flag is an input to stage one and is returned with its new value.
- `main`, argument parsing, logging and printing: these are I/O.
- `rand`: `CurveCreateRandom` takes a finite sequence of draws, and a smooth curve may not appear in it. How many `rand()` calls make up one coordinate is not modelled. Each draw holds the coordinates directly.
- mini-gmp itself: its integers are Dafny integers. `mpz_invert` is the function `Arith.Inverse` built on the extended Euclidean algorithm.
- `mpz_probab_prime_p`: it is the `isPrime` parameter of `CompleteFactorization`. Nothing is assumed about it beyond what the driver uses.
- Allocation and `free`: the queue's `malloc`/`free` and the copying of `mpz_t` pointers into the queues are not modelled. Numbers are values, not shared pointers.
- `Queue.Queue.GroupAtIndex`: `qsort` with `__cmp_mpz` is the reference `Queue.Sort`, which the lemma `SortedUnique` shows is the only sorted permutation. No sorting algorithm is run on an array.
- `Factorization.CompleteFactorization`: requires number ≥ 1. The source is only ever given a positive number to factor, and the model does not follow `pollard` on 0 or negatives.
- `Factorization.SplitTop`: it calls the corrected Pollard rho (`Pollard.Floyd`), where ecm/main.c:101 calls `pollard` as written; see Findings. The consequence is that a split reaching 4 behaves differently. For number = 12 the as-written `pollard` gives 3 (`Pollard.RhoSplitsTwelve`), pushes 4, and then hangs in `pollard(4)` (`Pollard.RhoNeverFinishesOnFour`). The corrected rho on 4 instead meets d = 4 = n on its second pass (`Pollard.FloydFailsOnFour`), so the model stops with `PollardFailed` and returns the primes found so far. Each rho call takes a fuel bound.
- `Factorization.CompleteFactorization`: it drives `SplitTop`, so its outcome and its clause that rho never runs out of fuel when fuel ≥ number are about the corrected rho. The source as written never returns for number = 12.
- `Pollard.Rho`: requires n ≠ 0, where the C code would divide by zero.
- `EllipticCurve.CurveIsSmooth`: requires N > 0, the only moduli the curve code is called with.
- Fuel: `Pollard.Rho`, `Pollard.Floyd`, `Squfof.Isqrt`, `Squfof.ForwardLoop`, `Squfof.ReverseLoop` and `Squfof.Squfof` take a fuel bound and report that they are still running when it is spent. The source loops without bound.
- `Squfof.IsPerfectSquare64`: `Math.sqrt` on a double is modelled as an exact test that the odd part is a square. Floating-point rounding is not modelled.
- `Squfof.Squfof`: Java `long` overflow in the form recurrence is not modelled, and neither is the exception `longValueExact` throws. The arithmetic is unbounded.
- `Squfof.Squfof`: the Java `assert` at src/Squfof.java:37 (Q₁² = N) is not modelled. Java assertions are off by default, and the claim does not hold in general: for N = 8051 the forward loop stops with Q₁ = 49 (`Squfof.ForwardOn8051`).
- The unit tests in `ecm/queue.c` other than the final grouping test. The `__test_ec` vectors at ecm/main.c:244-310 are not modelled either; that function returns at line 246 before any of them is used.
- The pseudocode sketches `factor.c`, `squfof.c` and `pollard.c` at the top of the repository. They are not compiled; the first describes the driver and the others describe SQUFOF and Brent's variant of rho.

## Findings

| source | as written | input that shows it | evidently intended | confidence | as-written member | corrected member |
|---|---|---|---|---|---|---|
| ecm/pollard.c:15 | the tortoise is updated as x := x·y + 1 mod n | n = 4: from x = y = 2 the state goes to (1, 2), then to (3, 2), and stays there. gcd(\|x - y\|, 4) = 1 on every pass, so the loop never exits. | x := x² + 1 mod n, the tortoise half of Floyd's cycle detection | not executed | Pollard.RhoNeverFinishesOnFour | Pollard.FloydFinishes |
