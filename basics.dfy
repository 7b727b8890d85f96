/** Small shared vocabulary: optional values and identifiers. */
module Basics {

  datatype Option<+T> = None | Some(value: T)

  /** A user or message identifier as the handlers see it: the string form of
      a MongoDB ObjectId (JSON bodies, route parameters and token payloads all
      carry strings, and the handlers compare them as strings). */
  type Id = string

  function Min(a: int, b: int): int { if a <= b then a else b }

  function Abs(x: int): nat { if x < 0 then -x else x }
}
