/** Value types shared by every component of the model. */
module Basics {

  datatype Option<+T> = None | Some(value: T)

  datatype Result<+T, +E> = Ok(value: T) | Err(error: E)

  /** The time from `start` to `now`, or none if the clock is behind. */
  function Since(now: nat, start: nat): nat {
    if now >= start then now - start else 0
  }

  lemma SubsetSize<T>(a: set<T>, b: set<T>)
    requires a <= b
    ensures |b - a| == |b| - |a| && |a| <= |b|
    ensures |a| == |b| ==> a == b
  {
    assert b == a + (b - a);
  }
}
