/**
 * The simulation state sequence, over an abstract one-frame step.
 *
 * The demo advances its Lorenz state with one explicit Euler step per frame
 * in single- and double-precision floating point. That arithmetic is not
 * modelled: `step` stands for it, and only the order in which the states
 * are produced matters here.
 */
module Euler {

  /** The state after `n` steps from `s`. */
  function Iterate<T>(step: T -> T, s: T, n: nat): T
  {
    if n == 0 then s else step(Iterate(step, s, n - 1))
  }

  /** The states produced by the first `n` frames starting from `s`, oldest first. */
  function Orbit<T>(step: T -> T, s: T, n: nat): (r: seq<T>)
    ensures |r| == n
  {
    if n == 0 then [] else [step(s)] + Orbit(step, step(s), n - 1)
  }

  /** Stepping first and iterating `n` times is iterating `n + 1` times. */
  lemma {:induction false} IterateShift<T>(step: T -> T, s: T, n: nat)
    ensures Iterate(step, step(s), n) == Iterate(step, s, n + 1)
  {
    if n > 0 {
      IterateShift(step, s, n - 1);
    }
  }

  /** Frame `k` (counting from 0) produces the state after `k + 1` steps. */
  lemma {:induction false} OrbitAt<T>(step: T -> T, s: T, n: nat, k: nat)
    requires k < n
    ensures Orbit(step, s, n)[k] == Iterate(step, s, k + 1)
  {
    if k > 0 {
      OrbitAt(step, step(s), n - 1, k - 1);
      IterateShift(step, s, k);
    }
  }

  /** One more frame appends the next state at the end of the sequence. */
  lemma OrbitExtend<T>(step: T -> T, s: T, n: nat)
    ensures Orbit(step, s, n + 1) == Orbit(step, s, n) + [Iterate(step, s, n + 1)]
  {
    var longer, shorter := Orbit(step, s, n + 1), Orbit(step, s, n);
    forall k | 0 <= k < n + 1
      ensures longer[k] == (shorter + [Iterate(step, s, n + 1)])[k]
    {
      OrbitAt(step, s, n + 1, k);
      if k < n {
        OrbitAt(step, s, n, k);
      }
    }
  }
}
