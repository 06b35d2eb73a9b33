# ULP-error classifier of the floating-point vs. exact-real test harness

This project models the core of `UnifiedRealVsFpTest`. That test checks Java's `Math` functions
against an arbitrary-precision "exact real" oracle (`UnifiedReal`) and measures the error in
units in the last place (ULP). At the heart of it are `ulpError` and its bounded-precision twin
`approxUlpError`. Given a finite double `f` and an exact value `u`, they return a class:
0 (correctly rounded), 1 (within one ulp), 2 (within two ulps) or `WRONG` = 3. They work only
through three-way comparisons, subtraction and negation of exact values, and
`Math.nextAfter(·, -∞)`. A value below `u` is
handled by classifying `(-f, -u)` instead, and that recursion happens at most once.

No IEEE arithmetic is needed:

- **Doubles** (`doubles.dfy`). The finite doubles form an abstract grid. `Grid(magnitudes)` lists
  the positive finite values, which are positive and strictly increasing. A finite value is an
  index `k` in `[-Max(), Max()]`. `Val(0) = 0` and `Val(-k) = -Val(k)` hold by construction.
  `NextDown(k)` is `Math.nextAfter(Val(k), -∞)`. It returns the next index below, or negative
  infinity below the most negative finite value. `Fp` is a double as the format holds it: finite,
  infinite or NaN.
- **Ulp** (`ulp.dfy`). The oracle is an exact Dafny `real` and its `compareTo` is `Compare`.
  `UlpError` follows `ulpError` branch for branch. `ApproxUlpError` follows `approxUlpError`,
  with the bounded comparison `compareTo(·, COMPARE_PREC)` passed in as a comparator parameter.
  `BoundedCompare(tol)` is one such comparator: differences up to a cutoff compare as equal.
- **UlpSpec** (`ulp_spec.dfy`). This is a definition of the classes that does not depend on how
  the classifier walks the grid. It counts the grid values lying between `u` (inclusive) and `f`
  (exclusive). Two or more give WRONG and exactly one gives 2. With none, the class is 0 when `f`
  is a nearest representable value to `u` and 1 otherwise. `UlpErrorMeaning` proves that the
  classifier computes this class for every input.
- **UlpSelfTest** (`ulp_self_test.dfy`). These are the assertions of `checkUlpError`, stated for
  every grid index. They also cover the bracketing case and both ends of the grid.
- **RandomDouble** (`random_double.dfy`). This is `getRandomDouble`'s rejection loop over a given
  sequence of already-decoded draws.

`ApproxUlpError` requires `SignNormalises(cmp)`: when `cmp(a, b) < 0`, then `cmp(-a, -b) >= 0`.
The Java method asks nothing of its comparator. But if a comparator reports "below" both for a
classified pair and for its negation, the sign normalisation recurses without end. The model
covers every comparator that never does that, for any pair. The exact comparison and every
`BoundedCompare(tol)` with `tol >= 0` meet the requirement.

The finite value passed to `UlpError` must lie on the grid (`g.InRange(k)`). The source's
callers only pass finite doubles. A non-finite one could not be turned into a `UnifiedReal`.

When the predecessor is at least `u` but is itself the most negative finite value, `ulpError`
returns 2 (lines 69-70, "Dubious, but seems to qualify"). `UlpErrorPredecessorAtBottom` states
this.

## Model

| member | source | states |
|---|---|---|
| Ulp.UlpError | src/java/com/android/calculator2/evaluation/UnifiedRealVsFpTest.java:45-91 | every class is one of 0, 1, 2, WRONG = 3; the recursion on (-f, -u) happens at most once, so the classification terminates |
| Ulp.ApproxUlpError | src/java/com/android/calculator2/evaluation/UnifiedRealVsFpTest.java:99-141 | with any comparator that never reports "below" for both a pair and its negation, the bounded classifier terminates and returns one of 0, 1, 2, WRONG |
| Ulp.Compare | src/java/com/android/calculator2/evaluation/UnifiedRealVsFpTest.java:50 | the oracle's three-way comparison: the sign of the result is the exact order of its operands |
| Ulp.BoundedCompareProperties | src/java/com/android/calculator2/evaluation/UnifiedRealVsFpTest.java:103 | a comparison at a fixed non-negative precision cutoff reverses exactly under negation; with a zero cutoff its sign is the exact order |
| Ulp.CompareIsSignExact | src/java/com/android/calculator2/evaluation/UnifiedRealVsFpTest.java:50 | the exact comparison meets the bounded classifier's requirement and its sign always agrees with the order |
| Ulp.UlpErrorNegation | src/java/com/android/calculator2/evaluation/UnifiedRealVsFpTest.java:54-55 | classifying (-f, -u) gives the same class as classifying (f, u), for every input |
| Ulp.ApproxUlpErrorNegation | src/java/com/android/calculator2/evaluation/UnifiedRealVsFpTest.java:107-108 | with a comparator that negates exactly under negation, the bounded classifier is negation-symmetric too |
| Ulp.ApproxMatchesExact | src/java/com/android/calculator2/evaluation/UnifiedRealVsFpTest.java:93-141 | approxUlpError "behaves like ulpError": it returns the same class whenever its comparator orders each of the (at most four) pairs the classifier compares for this input as the exact comparison does |
| Ulp.BoundedMatchesExact | src/java/com/android/calculator2/evaluation/UnifiedRealVsFpTest.java:93-141 | with a comparison at a non-negative cutoff, approxUlpError returns ulpError's class whenever each compared pair is equal or differs by more than the cutoff |
| Ulp.ApproxWithCompareIsUlpError | src/java/com/android/calculator2/evaluation/UnifiedRealVsFpTest.java:94-141 | approxUlpError with the exact comparator returns the same class as ulpError on every input |
| UlpSpec.UlpErrorMeaning | src/java/com/android/calculator2/evaluation/UnifiedRealVsFpTest.java:35-91 | the classifier returns WRONG exactly when two or more grid values lie between u and f, 2 when exactly one does, and otherwise 0 or 1 depending on whether f is a nearest representable value |
| UlpSpec.ClassifyNegation | src/java/com/android/calculator2/evaluation/UnifiedRealVsFpTest.java:54-55 | the documented class is unchanged when f and u are both negated, which is what justifies the sign normalisation |
| UlpSpec.UlpErrorZeroIffNearest | src/java/com/android/calculator2/evaluation/UnifiedRealVsFpTest.java:36-37 | class 0 holds exactly when f is correctly rounded: no representable value is strictly nearer to u |
| UlpSpec.UlpErrorAtMostOneIffAdjacent | src/java/com/android/calculator2/evaluation/UnifiedRealVsFpTest.java:37-38 | class 0 or 1 holds exactly when no representable value lies between u and f, that is, when f is one of the two values bracketing u |
| UlpSpec.RepresentableExactIsZero | src/java/com/android/calculator2/evaluation/UnifiedRealVsFpTest.java:38-39 | when u is itself representable, f is class 0 exactly when f is u, class 1 never occurs, and every other f is class 2 or worse |
| UlpSelfTest.UlpErrorOfSelf | src/java/com/android/calculator2/evaluation/UnifiedRealVsFpTest.java:257 | a finite value against its own exact value is class 0 |
| UlpSelfTest.UlpErrorOfPredecessor | src/java/com/android/calculator2/evaluation/UnifiedRealVsFpTest.java:258-259 | a value and its predecessor are class 2 against each other, in both directions, including at the bottom of the grid |
| UlpSelfTest.UlpErrorOfSecondPredecessor | src/java/com/android/calculator2/evaluation/UnifiedRealVsFpTest.java:260-261 | a value and its predecessor's predecessor are class WRONG against each other, in both directions |
| UlpSelfTest.SelfTestHolds | src/java/com/android/calculator2/evaluation/UnifiedRealVsFpTest.java:252-263 | all five self-test assertions hold at every finite value of the grid, not only along the sampled geometric sequence |
| UlpSelfTest.UlpErrorBracketed | src/java/com/android/calculator2/evaluation/UnifiedRealVsFpTest.java:81-89 | when prev(f) < u < f, the class is 0 exactly when f - u <= u - prev(f) (ties go to 0) and 1 exactly otherwise |
| UlpSelfTest.UlpErrorAtBottom | src/java/com/android/calculator2/evaluation/UnifiedRealVsFpTest.java:58-62 | the most negative finite value is class 0 against any smaller u |
| UlpSelfTest.UlpErrorPredecessorAtBottom | src/java/com/android/calculator2/evaluation/UnifiedRealVsFpTest.java:66-70 | when prev(f) >= u and prev(f) is the most negative finite value, the class is 2 |
| UlpSelfTest.UlpErrorAtTop | src/java/com/android/calculator2/evaluation/UnifiedRealVsFpTest.java:54-62 | by the negation step, the largest finite value is class 0 against any larger u |
| RandomDouble.GetRandomDouble | src/java/com/android/calculator2/evaluation/UnifiedRealVsFpTest.java:162-172 | the generator returns only a finite, non-NaN value, namely the first draw that is neither NaN nor infinite; every earlier draw was rejected |
| Doubles.Grid.NextDown | src/java/com/android/calculator2/evaluation/UnifiedRealVsFpTest.java:58-59 | nextAfter(f, -inf) is the largest representable value strictly below f, or negative infinity exactly when f is the least finite value |

## Left out

- `checkFunctionsAt`, its private helper `hypot`, and `aFewSpecialDoubleChecks`: they evaluate Java's floating-point `Math` functions and the oracle's transcendental operations. Both are foreign and float-valued, and the per-function bounds are empirical.
- `manyRandomDoubleChecks`, `main`, `java.util.Random` seeding, printing, timing, and the `assertTrue`/`assertEquals` helpers: these are I/O and glue.
- The oracle's internals: `propertyCorrect`, `isComparable`/`checkComparable`, `COMPARE_PREC`'s exact precision semantics and `doubleValue`. The oracle is an exact `real`, so every comparison is decidable and the comparability checks always pass.
- The IEEE-754 binary64 encoding: bit patterns, `longBitsToDouble`, and signed zero, which is collapsed onto index 0. `GetRandomDouble` receives the stream of already-decoded draws. Because the stream is finite, it returns None when no finite value appears, where the Java loop would keep drawing.
- `checkUlpError`'s driver loop (`x *= -1.7` until infinity): its assertions are stated as lemmas over every grid index instead.
