/** Loop shape of the escape-time kernel (`iterations_at_point`).

    The double-precision recurrence and the magnitude test `x*x + y*y <= 4`
    are not modelled: the point type is a type parameter `P`, `step(z, z0)` is
    one application of the recurrence started from `z0`, and `bounded(z)` is
    the magnitude test. What is verified is the counter: the loop returns the
    first step whose point fails the test, or `max` if none does.
 */
module Escape {

  /** The point reached after `n` applications of the recurrence. */
  function Orbit<P>(step: (P, P) -> P, z0: P, n: nat): P
  {
    if n == 0 then z0 else step(Orbit(step, z0, n - 1), z0)
  }

  /** The first step in `[k, max)` whose point fails the magnitude test, or
      `max` when every one of them passes (`k` itself when `k >= max`). */
  function EscapeFrom<P>(step: (P, P) -> P, bounded: P -> bool, z0: P, k: nat, max: int): int
    decreases max - k
  {
    if k >= max || !bounded(Orbit(step, z0, k)) then k
    else EscapeFrom(step, bounded, z0, k + 1, max)
  }

  /** The iteration count of the point `z0` with the cap `max`. */
  function EscapeTime<P>(step: (P, P) -> P, bounded: P -> bool, z0: P, max: int): int
  {
    EscapeFrom(step, bounded, z0, 0, max)
  }

  /** `EscapeTime` is the first escaping step, or `max`: it lies in `[0, max]`
      (0 when `max <= 0`), every earlier point passes the test, and the point
      it stops at fails it unless the cap was reached. */
  lemma {:induction false} EscapeFromIsFirst<P>(step: (P, P) -> P, bounded: P -> bool, z0: P,
                                                k: nat, max: int)
    requires k <= max || k == 0
    requires forall n: nat :: n < k ==> bounded(Orbit(step, z0, n))
    ensures var r := EscapeFrom(step, bounded, z0, k, max);
      k <= r && (max >= k ==> r <= max) &&
      (forall n: nat :: n < r ==> bounded(Orbit(step, z0, n))) &&
      (r < max ==> !bounded(Orbit(step, z0, r)))
    decreases max - k
  {
    if k < max && bounded(Orbit(step, z0, k)) {
      EscapeFromIsFirst(step, bounded, z0, k + 1, max);
    }
  }

  lemma EscapeTimeIsFirst<P>(step: (P, P) -> P, bounded: P -> bool, z0: P, max: int)
    ensures var r := EscapeTime(step, bounded, z0, max);
      0 <= r && (max >= 0 ==> r <= max) && (max <= 0 ==> r == 0) &&
      (forall n: nat :: n < r ==> bounded(Orbit(step, z0, n))) &&
      (r < max ==> !bounded(Orbit(step, z0, r)))
  {
    EscapeFromIsFirst(step, bounded, z0, 0, max);
  }

  /** `iterations_at_point`: iterate while the point passes the magnitude test
      and the count is below `max`. */
  method IterationsAtPoint<P>(z0: P, max: int, step: (P, P) -> P, bounded: P -> bool)
    returns (iter: int)
    ensures 0 <= iter
    ensures max >= 0 ==> iter <= max
    ensures max <= 0 ==> iter == 0
    ensures forall n: nat :: n < iter ==> bounded(Orbit(step, z0, n))
    ensures iter < max ==> !bounded(Orbit(step, z0, iter))
    ensures iter == EscapeTime(step, bounded, z0, max)
  {
    var z := z0;
    iter := 0;
    while bounded(z) && iter < max
      invariant 0 <= iter && (max >= 0 ==> iter <= max)
      invariant z == Orbit(step, z0, iter)
      invariant forall n: nat :: n < iter ==> bounded(Orbit(step, z0, n))
      invariant EscapeFrom(step, bounded, z0, iter, max) == EscapeTime(step, bounded, z0, max)
      decreases max - iter
    {
      z := step(z, z0);
      iter := iter + 1;
    }
  }
}
