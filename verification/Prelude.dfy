/** The two wrapper types that every model here returns its outcomes in, and the larger and smaller of two numbers. */
module Prelude {
  datatype Option<+T> = None | Some(value: T)

  datatype Result<+T, +E> = Ok(value: T) | Err(error: E)

  function Max(a: nat, b: nat): (m: nat)
  {
    if a < b then b else a
  }

  function Min(a: nat, b: nat): (m: nat)
  {
    if a < b then a else b
  }
}
