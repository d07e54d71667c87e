/** Small definitions shared by the gallery and the mouse trail. */
module Basics {

  /** A value that may be missing, like an absent HTML attribute. */
  datatype Option<T> = None | Some(value: T)

  function Min(a: nat, b: nat): (m: nat)
    ensures m <= a && m <= b
    ensures m == a || m == b
  {
    if a <= b then a else b
  }
}
