/** The ULP-error classifier of the floating-point test harness.

    `UlpError(g, k, u)` says how far the finite value with index k is from the exact value
    u, using only three-way comparisons, subtraction and negation of exact values, and
    stepping to the next value below:
      0      the value is a correctly rounded result for u (or exactly u);
      1      u lies strictly between the value and a neighbour, and the neighbour is nearer;
      2      the value is one grid step further away than that;
      WRONG  anything worse.
    The exact-real oracle is a Dafny `real`; its unconditional comparison is `Compare`.
    `ApproxUlpError` is the same classifier driven by a bounded-precision comparator.
 */
module Ulp {
  import opened Doubles

  /** Result class for an error of more than two units in the last place. */
  const WRONG := 3

  /** Exact three-way comparison of two reals: the sign of the result is the order. */
  function Compare(a: real, b: real): (r: int)
    ensures r < 0 <==> a < b
    ensures r == 0 <==> a == b
    ensures r > 0 <==> b < a
    ensures -1 <= r <= 1
  {
    if a < b then -1 else if a == b then 0 else 1
  }

  /** A comparator that reports "below" for (a, b) does not report "below" again for
      (-a, -b). This is what makes the sign normalisation recurse at most once. */
  ghost predicate SignNormalises(cmp: (real, real) -> int) {
    forall a: real, b: real :: cmp(a, b) < 0 ==> cmp(-a, -b) >= 0
  }

  /** A comparator whose sign always agrees with the exact order. */
  ghost predicate SignExact(cmp: (real, real) -> int) {
    forall a: real, b: real :: (cmp(a, b) < 0 <==> a < b) && (cmp(a, b) == 0 <==> a == b)
  }

  /** The ULP error of the finite value Val(k) against the exact value u. A value below u
      is handled by classifying (-Val(k), -u) instead, which lies above. */
  function UlpError(g: Grid, k: int, u: real): (r: int)
    requires g.Valid() && g.InRange(k)
    ensures 0 <= r <= WRONG
    decreases if g.Val(k) < u then 1 else 0
  {
    var errorSign := Compare(g.Val(k), u);
    if errorSign == 0 then
      0
    else if errorSign < 0 then
      g.ValNegate(k);
      UlpError(g, -k, -u)
    else
      var prevFp := g.NextDown(k);
      if prevFp.Infinite? then
        // Val(k) is the most negative finite value and u is smaller still.
        0
      else
        var prev := prevFp.index;
        if Compare(g.Val(prev), u) >= 0 then
          var prevprevFp := g.NextDown(prev);
          if prevprevFp.Infinite? then
            2
          else if Compare(g.Val(prevprevFp.index), u) >= 0 then
            // u <= Val(prevprev) < Val(prev) < Val(k)
            WRONG
          else
            2
        else
          var prevDiff := u - g.Val(prev);
          var fpValDiff := g.Val(k) - u;
          if Compare(fpValDiff, prevDiff) <= 0 then 0 else 1
  }

  /** The same classifier with every comparison made by `cmp`, a bounded-precision
      comparison that always terminates but may misjudge values closer than its cutoff. */
  function ApproxUlpError(g: Grid, cmp: (real, real) -> int, k: int, u: real): (r: int)
    requires g.Valid() && g.InRange(k) && SignNormalises(cmp)
    ensures 0 <= r <= WRONG
    decreases if cmp(g.Val(k), u) < 0 then 1 else 0
  {
    var errorSign := cmp(g.Val(k), u);
    if errorSign == 0 then
      0
    else if errorSign < 0 then
      g.ValNegate(k);
      ApproxUlpError(g, cmp, -k, -u)
    else
      var prevFp := g.NextDown(k);
      if prevFp.Infinite? then
        0
      else
        var prev := prevFp.index;
        if cmp(g.Val(prev), u) >= 0 then
          var prevprevFp := g.NextDown(prev);
          if prevprevFp.Infinite? then
            2
          else if cmp(g.Val(prevprevFp.index), u) >= 0 then
            WRONG
          else
            2
        else
          var prevDiff := u - g.Val(prev);
          var fpValDiff := g.Val(k) - u;
          if cmp(fpValDiff, prevDiff) <= 0 then 0 else 1
  }

  /** A bounded-precision comparison: values whose difference is at most `tol` compare
      as equal, otherwise the sign is exact. */
  function BoundedCompare(tol: real): (real, real) -> int {
    (a: real, b: real) => if tol < b - a then -1 else if tol < a - b then 1 else 0
  }

  /** A bounded comparison with a non-negative cutoff reverses exactly under negation, so it
      meets the requirement of `ApproxUlpError`; with a zero cutoff it is the exact
      comparison. */
  lemma BoundedCompareProperties(tol: real)
    requires 0.0 <= tol
    ensures SignNormalises(BoundedCompare(tol))
    ensures forall a: real, b: real :: BoundedCompare(tol)(-a, -b) == -BoundedCompare(tol)(a, b)
    ensures tol == 0.0 ==> SignExact(BoundedCompare(tol))
  {
  }

  /** The exact comparison meets the requirement of `ApproxUlpError` and is sign-exact. */
  lemma CompareIsSignExact()
    ensures SignNormalises(Compare)
    ensures SignExact(Compare)
  {
  }

  /** Classifying (-Val(k), -u) gives the same class as classifying (Val(k), u). */
  lemma UlpErrorNegation(g: Grid, k: int, u: real)
    requires g.Valid() && g.InRange(k)
    ensures g.InRange(-k) && UlpError(g, -k, -u) == UlpError(g, k, u)
  {
    // One unfolding of each side suffices: the side below u recurses onto the other.
  }

  /** With a comparator that reverses exactly under negation, the bounded classifier is
      negation-symmetric too. */
  lemma ApproxUlpErrorNegation(g: Grid, cmp: (real, real) -> int, k: int, u: real)
    requires g.Valid() && g.InRange(k) && SignNormalises(cmp)
    requires forall a: real, b: real :: cmp(-a, -b) == -cmp(a, b)
    ensures g.InRange(-k) && ApproxUlpError(g, cmp, -k, -u) == ApproxUlpError(g, cmp, k, u)
  {
    // As for UlpErrorNegation, one unfolding of each side suffices.
  }

  /** `cmp` orders (a, b) as the exact comparison does. */
  ghost predicate AgreesAt(cmp: (real, real) -> int, a: real, b: real) {
    (cmp(a, b) < 0 <==> a < b) && (cmp(a, b) == 0 <==> a == b)
  }

  /** The pairs `UlpError` compares when Val(k) lies above u: (f, u), then (prev, u), then
      either (prevprev, u) or the two gaps (f - u, u - prev), as far as those values exist. */
  function PairsAbove(g: Grid, k: int, u: real): seq<(real, real)>
    requires g.Valid() && g.InRange(k)
  {
    [(g.Val(k), u)] +
    if !g.InRange(k - 1) then []
    else if u <= g.Val(k - 1) then
      [(g.Val(k - 1), u)] + if g.InRange(k - 2) then [(g.Val(k - 2), u)] else []
    else
      [(g.Val(k - 1), u), (g.Val(k) - u, u - g.Val(k - 1))]
  }

  /** Every pair `UlpError(g, k, u)` compares, in order: at most four. */
  function ComparedPairs(g: Grid, k: int, u: real): (ps: seq<(real, real)>)
    requires g.Valid() && g.InRange(k)
    ensures 1 <= |ps| <= 4 && ps[0] == (g.Val(k), u)
  {
    if g.Val(k) == u then [(g.Val(k), u)]
    else if g.Val(k) < u then (g.ValNegate(k); [(g.Val(k), u)] + PairsAbove(g, -k, -u))
    else PairsAbove(g, k, u)
  }

  ghost predicate AgreesOnAll(cmp: (real, real) -> int, ps: seq<(real, real)>) {
    forall i :: 0 <= i < |ps| ==> AgreesAt(cmp, ps[i].0, ps[i].1)
  }

  /** Above u, a comparator that agrees with the exact order on the compared pairs gives
      the exact class. */
  lemma ApproxMatchesExactAbove(g: Grid, cmp: (real, real) -> int, k: int, u: real)
    requires g.Valid() && g.InRange(k) && SignNormalises(cmp) && u < g.Val(k)
    requires AgreesOnAll(cmp, PairsAbove(g, k, u))
    ensures ApproxUlpError(g, cmp, k, u) == UlpError(g, k, u)
  {
    var ps := PairsAbove(g, k, u);
    assert AgreesAt(cmp, ps[0].0, ps[0].1);
    if g.InRange(k - 1) {
      assert AgreesAt(cmp, ps[1].0, ps[1].1);
      if u <= g.Val(k - 1) {
        if g.InRange(k - 2) {
          assert AgreesAt(cmp, ps[2].0, ps[2].1);
        }
      } else {
        assert AgreesAt(cmp, ps[2].0, ps[2].1);
      }
    }
  }

  /** The bounded classifier behaves like the exact one whenever its comparator orders
      every pair the classifier compares as the exact comparison does; `Compare` and any
      sign-exact comparator are special cases. */
  lemma ApproxMatchesExact(g: Grid, cmp: (real, real) -> int, k: int, u: real)
    requires g.Valid() && g.InRange(k) && SignNormalises(cmp)
    requires AgreesOnAll(cmp, ComparedPairs(g, k, u))
    ensures ApproxUlpError(g, cmp, k, u) == UlpError(g, k, u)
  {
    var ps := ComparedPairs(g, k, u);
    assert AgreesAt(cmp, ps[0].0, ps[0].1);
    if g.Val(k) < u {
      g.ValNegate(k);
      var rest := PairsAbove(g, -k, -u);
      assert ps == [(g.Val(k), u)] + rest;
      assert forall i :: 0 <= i < |rest| ==> rest[i] == ps[i + 1];
      ApproxMatchesExactAbove(g, cmp, -k, -u);
    } else if u < g.Val(k) {
      ApproxMatchesExactAbove(g, cmp, k, u);
    }
  }

  /** A cutoff comparison reaches the exact order on (a, b) when a == b or the two differ
      by more than the cutoff. */
  predicate Resolved(tol: real, a: real, b: real) {
    a == b || tol < a - b || tol < b - a
  }

  /** `approxUlpError` with a bounded comparison returns `ulpError`'s class whenever every
      pair it compares is resolved at the cutoff. */
  lemma BoundedMatchesExact(g: Grid, tol: real, k: int, u: real)
    requires g.Valid() && g.InRange(k) && 0.0 <= tol
    requires forall p :: p in ComparedPairs(g, k, u) ==> Resolved(tol, p.0, p.1)
    ensures SignNormalises(BoundedCompare(tol))
    ensures ApproxUlpError(g, BoundedCompare(tol), k, u) == UlpError(g, k, u)
  {
    BoundedCompareProperties(tol);
    var ps := ComparedPairs(g, k, u);
    forall i | 0 <= i < |ps|
      ensures AgreesAt(BoundedCompare(tol), ps[i].0, ps[i].1)
    {
      assert ps[i] in ps;
    }
    ApproxMatchesExact(g, BoundedCompare(tol), k, u);
  }

  /** `approxUlpError` with the exact comparator is `ulpError`. */
  lemma ApproxWithCompareIsUlpError(g: Grid, k: int, u: real)
    requires g.Valid() && g.InRange(k)
    ensures SignNormalises(Compare) && ApproxUlpError(g, Compare, k, u) == UlpError(g, k, u)
  {
    CompareIsSignExact();
    var ps := ComparedPairs(g, k, u);
    assert AgreesOnAll(Compare, ps);
    ApproxMatchesExact(g, Compare, k, u);
  }
}
