/** The harness's sample generator: draw raw 64-bit patterns until one decodes to a finite
    value. The random source and the bit-pattern decoding are outside the model; the
    generator receives the already-decoded draws, in order, as a sequence.
 */
module RandomDouble {
  import opened Doubles

  datatype Option<T> = None | Some(value: T)

  /** The condition under which the generator discards a draw and draws again. */
  predicate Rejected(x: Fp) {
    x.NaN? || x.Infinite?
  }

  /** `getRandomDouble`: the first draw that is neither NaN nor infinite. Returns the
      finite value's index and the number of draws consumed, or None when the stream ends
      before any finite value appears. */
  method GetRandomDouble(g: Grid, draws: seq<Fp>) returns (r: Option<int>, used: nat)
    requires forall i :: 0 <= i < |draws| ==> g.Holds(draws[i])
    ensures used <= |draws|
    ensures r.Some? ==> 0 < used && draws[used - 1] == Finite(r.value) && g.InRange(r.value)
    ensures r.Some? ==> forall i :: 0 <= i < used - 1 ==> Rejected(draws[i])
    ensures r.None? ==> used == |draws| && forall i :: 0 <= i < |draws| ==> Rejected(draws[i])
  {
    used := 0;
    while used < |draws|
      invariant used <= |draws|
      invariant forall i :: 0 <= i < used ==> Rejected(draws[i])
    {
      var x := draws[used];
      used := used + 1;
      if !Rejected(x) {
        return Some(x.index), used;
      }
    }
    return None, used;
  }
}
