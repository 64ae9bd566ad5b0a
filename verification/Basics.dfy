/** Result types shared by all modules. */
module Basics {

  datatype Option<+T> = None | Some(value: T)

  /** The outcome of an operation that throws in the source: its value, or the error thrown. */
  datatype Result<+T, +E> = Ok(value: T) | Err(error: E) {
    predicate IsFailure() { Err? }

    function PropagateFailure<U>(): Result<U, E>
      requires Err?
    {
      Err(error)
    }

    function Extract(): T
      requires Ok?
    {
      value
    }
  }

  /** A value of the engine: undefined, or a fixed-point number held as an integer scaled by 10^6. */
  type Value = Option<int>

  const SCALE := 1_000_000

  /** Drops the last element of a non-empty sequence. */
  function ButLast<T>(s: seq<T>): seq<T>
    requires s != []
  {
    s[..|s| - 1]
  }

  function Last<T>(s: seq<T>): T
    requires s != []
  {
    s[|s| - 1]
  }

  function Max(a: int, b: int): int { if a < b then b else a }

  function Min(a: int, b: int): int { if a < b then a else b }
}
