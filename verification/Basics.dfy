/** Types shared by the models. */
module Basics {

  datatype Option<T> = None | Some(value: T)

  type byte = x: int | 0 <= x < 256

  // Channel and key statuses.
  const ENABLED := 1
  const MANUALLY_DISABLED := 2
  const AUTO_DISABLED := 3

  ghost predicate NoRepeats<T>(q: seq<T>) {
    forall i, j :: 0 <= i < j < |q| ==> q[i] != q[j]
  }
}
