/** Failure-carrying values used in place of NULL pointers and -1 sentinels. */
module Wrappers {

  datatype Option<+T> = None | Some(value: T)

  datatype Result<+R, +E> = Success(value: R) | Failure(error: E)

  function Min(a: nat, b: nat): nat
  {
    if a <= b then a else b
  }
}
