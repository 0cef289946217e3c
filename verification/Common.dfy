/** Result and error types shared by every component (vektordb's `Error` and `Result`). */
module Common {

  datatype Option<+T> = None | Some(value: T)

  datatype Error =
    | Io
    | Corrupt
    | DimensionMismatch(expected: nat, got: nat)
    | IdOutOfRange(id: nat)
    | InvalidArgument

  datatype Result<+T> = Ok(value: T) | Err(error: Error) {
    predicate IsFailure() { Err? }

    function PropagateFailure<U>(): Result<U>
      requires Err?
    {
      Err(error)
    }

    function Extract(): T
      requires Ok?
    {
      value
    }
  }

  function Min(a: int, b: int): int { if a <= b then a else b }

  function Max(a: int, b: int): int { if a <= b then b else a }
}
