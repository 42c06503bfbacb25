/** An optional value, for Python's `None` defaults. */
module Wrappers {

  datatype Option<T> = None | Some(value: T)
}

/** Real-number helpers shared by both halves of the model. */
module RealArith {

  function Abs(x: real): (r: real)
    ensures r >= 0.0 && (r == x || r == -x)
  {
    if x < 0.0 then -x else x
  }
}
