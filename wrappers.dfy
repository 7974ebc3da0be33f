/** Small generic wrappers shared by the other modules. */
module Wrappers {

  datatype Option<T> = None | Some(value: T)

  function Min(a: int, b: int): int
  {
    if a <= b then a else b
  }

  function Max(a: int, b: int): int
  {
    if a >= b then a else b
  }
}
