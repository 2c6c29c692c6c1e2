/**
 * Gas limit policy of the notary: the node's estimate with a 50% margin,
 * truncated to an integer, or a fixed 50000 when estimation raises.
 */
module Gas {
  import opened Wrappers

  const FallbackGas: nat := 50000

  /** `int(g * 1.5)` for a non-negative estimate: the floor of one and a half times `g`. */
  function WithMargin(g: nat): (r: nat)
    ensures 2 * r <= 3 * g < 2 * r + 2
  {
    g * 3 / 2
  }

  /** The resolved limit, given the outcome of `estimate_gas` (its error is `str(e)`). */
  function GasLimit(estimate: Result<nat, string>): (r: nat)
    ensures estimate.Failure? ==> r == FallbackGas
    ensures estimate.Success? ==> 2 * r <= 3 * estimate.value < 2 * r + 2
  {
    match estimate
    case Success(g) => WithMargin(g)
    case Failure(_) => FallbackGas
  }

  /** A successful estimate is never under-provisioned, and the margin at most doubles it. */
  lemma LimitCoversEstimate(estimate: Result<nat, string>)
    requires estimate.Success?
    ensures estimate.value <= GasLimit(estimate) <= 2 * estimate.value
  {
  }

  /** A larger successful estimate never gives a smaller limit. */
  lemma LimitMonotonic(g1: nat, g2: nat)
    requires g1 <= g2
    ensures GasLimit(Success(g1)) <= GasLimit(Success(g2))
  {
  }
}
