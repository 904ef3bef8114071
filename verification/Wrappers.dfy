/** Shared vocabulary: an optional value, the errno numbers the code returns negated, and the
    smaller of two numbers. */
module Wrappers {

  datatype Option<+T> = None | Some(value: T)

  const ENXIO := 6
  const EINVAL := 22
  const ENOSYS := 38
  const ENODATA := 61
  const ECONNRESET := 104
  const ETIMEDOUT := 110

  function Min(a: nat, b: nat): nat {
    if a <= b then a else b
  }
}
