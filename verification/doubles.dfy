/** An abstract model of the finite values of a floating-point format.

    The representable values form a strictly increasing grid that is symmetric under
    negation. A finite value is named by its index k in [-Max(), Max()]: index 0 is zero
    (both signed zeros collapse onto it), index i > 0 is the i-th positive magnitude in
    increasing order, and index -i is its negation. Stepping one index down is
    `Math.nextAfter(x, Double.NEGATIVE_INFINITY)`; stepping below -Max() gives -infinity.
 */
module Doubles {

  /** A floating-point value as the format can hold it: a finite grid value, an infinity,
      or NaN. */
  datatype Fp = Finite(index: int) | Infinite(negative: bool) | NaN

  /** The grid of finite values; `magnitudes` lists the positive finite values in
      increasing order, the largest being the format's largest finite magnitude. */
  datatype Grid = Grid(magnitudes: seq<real>) {

    /** Index of the largest finite value. */
    function Max(): int {
      |magnitudes|
    }

    predicate InRange(k: int) {
      -Max() <= k <= Max()
    }

    /** True if `x` is a value this format can produce: an infinity, NaN, or a finite
        value whose index lies on the grid. */
    predicate Holds(x: Fp) {
      x.Finite? ==> InRange(x.index)
    }

    /** The magnitudes are positive and strictly increasing. */
    ghost predicate Valid() {
      && (forall i :: 0 <= i < |magnitudes| ==> 0.0 < magnitudes[i])
      && (forall i, j :: 0 <= i < j < |magnitudes| ==> magnitudes[i] < magnitudes[j])
    }

    /** The exact real value of the finite value with index k. */
    function Val(k: int): real
      requires InRange(k)
    {
      if k == 0 then 0.0
      else if k > 0 then magnitudes[k - 1]
      else -magnitudes[-k - 1]
    }

    /** `Math.nextAfter(Val(k), Double.NEGATIVE_INFINITY)`: the largest representable
        value strictly below Val(k), or negative infinity when Val(k) is the most
        negative finite value. */
    function NextDown(k: int): (r: Fp)
      requires Valid() && InRange(k)
      ensures r.Finite? || r == Infinite(true)
      ensures r.Finite? ==> InRange(r.index) && Val(r.index) < Val(k)
      ensures r.Finite? ==> forall j :: InRange(j) && Val(j) < Val(k) ==> Val(j) <= Val(r.index)
      ensures r.Infinite? ==> forall j :: InRange(j) ==> Val(k) <= Val(j)
    {
      if InRange(k - 1) then
        PredecessorIsLargestBelow(k);
        Finite(k - 1)
      else
        BottomIsLeast(k);
        Infinite(true)
    }

    /** Val(k - 1) is the largest grid value below Val(k). */
    lemma PredecessorIsLargestBelow(k: int)
      requires Valid() && InRange(k) && InRange(k - 1)
      ensures Val(k - 1) < Val(k)
      ensures forall j :: InRange(j) && Val(j) < Val(k) ==> Val(j) <= Val(k - 1)
    {
      ValIncreasing(k - 1, k);
      forall j | InRange(j) && Val(j) < Val(k)
        ensures Val(j) <= Val(k - 1)
      {
        ValOrder(j, k);
        if j < k - 1 {
          ValIncreasing(j, k - 1);
        }
      }
    }

    /** Without a predecessor, Val(k) is the least grid value. */
    lemma BottomIsLeast(k: int)
      requires Valid() && InRange(k) && !InRange(k - 1)
      ensures forall j :: InRange(j) ==> Val(k) <= Val(j)
    {
      forall j | InRange(j)
        ensures Val(k) <= Val(j)
      {
        if k < j {
          ValIncreasing(k, j);
        }
      }
    }

    /** The grid is strictly increasing in the index. */
    lemma ValIncreasing(i: int, j: int)
      requires Valid() && InRange(i) && InRange(j) && i < j
      ensures Val(i) < Val(j)
    {
    }

    /** The index order and the value order agree. */
    lemma ValOrder(i: int, j: int)
      requires Valid() && InRange(i) && InRange(j)
      ensures Val(i) < Val(j) <==> i < j
      ensures Val(i) == Val(j) <==> i == j
    {
      if i < j {
        ValIncreasing(i, j);
      } else if j < i {
        ValIncreasing(j, i);
      }
    }

    /** Zero is on the grid and the grid is symmetric under negation. */
    lemma ValNegate(k: int)
      requires InRange(k)
      ensures InRange(-k) && Val(-k) == -Val(k)
      ensures Val(0) == 0.0
    {
    }
  }
}
