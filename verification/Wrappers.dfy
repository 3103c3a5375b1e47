/**
 Optional values and fallible results.

 An absent value stands for `undefined`, and an error result for a thrown error, so that
 a function that fails in the source is total here.

 The smaller and the larger of two integers are as usual.

 Pick chooses some element of a set; code that iterates over a map in an order that does
 not matter to its result uses it.
 */
module Wrappers {
  datatype Option<+T> = None | Some(value: T) {
    function GetOr(default: T): T {
      match this
      case Some(v) => v
      case None => default
    }
  }

  datatype Result<+T, +E> = Ok(value: T) | Err(error: E)

  function Min(a: int, b: int): int {
    if a <= b then a else b
  }

  function Max(a: int, b: int): int {
    if a <= b then b else a
  }

  method Pick<T>(s: set<T>) returns (x: T)
    requires s != {}
    ensures x in s
  {
    x :| x in s;
  }
}
