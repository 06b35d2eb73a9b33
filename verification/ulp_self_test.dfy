/** The assertions of the harness's self-test of `ulpError`, stated for every finite value
    of the grid rather than along a geometric sequence of samples, together with the
    classifier's behaviour in the bracketing case and at the bottom of the grid.
 */
module UlpSelfTest {
  import opened Doubles
  import opened Ulp

  /** A finite value compared with its own exact value is class 0. */
  lemma UlpErrorOfSelf(g: Grid, k: int)
    requires g.Valid() && g.InRange(k)
    ensures UlpError(g, k, g.Val(k)) == 0
  {
  }

  /** A value and its predecessor are class 2 against each other, in both directions. */
  lemma UlpErrorOfPredecessor(g: Grid, k: int, p: int)
    requires g.Valid() && g.InRange(k) && g.NextDown(k) == Finite(p)
    ensures UlpError(g, p, g.Val(k)) == 2
    ensures UlpError(g, k, g.Val(p)) == 2
  {
    // (Val(p), Val(k)) is classified as (Val(-p), Val(-k)), which lies above.
    g.ValNegate(k);
    g.ValNegate(p);
    assert g.NextDown(-p) == Finite(-k);
  }

  /** A value and its predecessor's predecessor are class WRONG against each other, in
      both directions. */
  lemma UlpErrorOfSecondPredecessor(g: Grid, k: int, p: int, pp: int)
    requires g.Valid() && g.InRange(k)
    requires g.NextDown(k) == Finite(p) && g.NextDown(p) == Finite(pp)
    ensures UlpError(g, pp, g.Val(k)) == WRONG
    ensures UlpError(g, k, g.Val(pp)) == WRONG
  {
    g.ValNegate(k);
    g.ValNegate(p);
    g.ValNegate(pp);
    assert g.NextDown(-pp) == Finite(-p);
    assert g.NextDown(-p) == Finite(-k);
  }

  /** Every assertion of the self-test holds at every finite value of the grid. */
  lemma SelfTestHolds(g: Grid)
    requires g.Valid()
    ensures forall k :: g.InRange(k) ==> UlpError(g, k, g.Val(k)) == 0
    ensures forall k :: g.InRange(k) && g.InRange(k - 1) ==>
      UlpError(g, k - 1, g.Val(k)) == 2 && UlpError(g, k, g.Val(k - 1)) == 2
    ensures forall k :: g.InRange(k) && g.InRange(k - 2) ==>
      UlpError(g, k - 2, g.Val(k)) == WRONG && UlpError(g, k, g.Val(k - 2)) == WRONG
  {
    forall k | g.InRange(k) && g.InRange(k - 1)
      ensures UlpError(g, k - 1, g.Val(k)) == 2 && UlpError(g, k, g.Val(k - 1)) == 2
    {
      UlpErrorOfPredecessor(g, k, k - 1);
    }
    forall k | g.InRange(k) && g.InRange(k - 2)
      ensures UlpError(g, k - 2, g.Val(k)) == WRONG && UlpError(g, k, g.Val(k - 2)) == WRONG
    {
      UlpErrorOfSecondPredecessor(g, k, k - 1, k - 2);
    }
  }

  /** When u lies strictly between Val(k) and its predecessor, Val(k) is class 0 exactly
      when it is at least as near to u as the predecessor (ties go to 0), and 1 otherwise. */
  lemma UlpErrorBracketed(g: Grid, k: int, p: int, u: real)
    requires g.Valid() && g.InRange(k) && g.NextDown(k) == Finite(p)
    requires g.Val(p) < u < g.Val(k)
    ensures UlpError(g, k, u) == 0 <==> g.Val(k) - u <= u - g.Val(p)
    ensures UlpError(g, k, u) == 1 <==> u - g.Val(p) < g.Val(k) - u
  {
  }

  /** Bottom of the grid: the most negative finite value above u is class 0. */
  lemma UlpErrorAtBottom(g: Grid, k: int, u: real)
    requires g.Valid() && g.InRange(k) && u < g.Val(k) && g.NextDown(k).Infinite?
    ensures UlpError(g, k, u) == 0
  {
  }

  /** Bottom of the grid: when the predecessor is at least u but is itself the most
      negative finite value, the class is 2. */
  lemma UlpErrorPredecessorAtBottom(g: Grid, k: int, p: int, u: real)
    requires g.Valid() && g.InRange(k) && u < g.Val(k)
    requires g.NextDown(k) == Finite(p) && u <= g.Val(p) && g.NextDown(p).Infinite?
    ensures UlpError(g, k, u) == 2
  {
  }

  /** Top of the grid, by the negation symmetry: the largest finite value below u is
      class 0. */
  lemma UlpErrorAtTop(g: Grid, u: real)
    requires g.Valid() && g.Val(g.Max()) < u
    ensures UlpError(g, g.Max(), u) == 0
  {
    g.ValNegate(g.Max());
    assert g.NextDown(-g.Max()).Infinite?;
  }
}
