/** Optional values: a Python value that may be `None`. */
module Wrappers {

  datatype Option<T> = None | Some(value: T)

  function Min(a: nat, b: nat): (r: nat)
    ensures r <= a && r <= b && (r == a || r == b)
  {
    if a <= b then a else b
  }
}
