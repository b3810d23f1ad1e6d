/** Failure-compatible result types shared by every module of the model. */
module Wrappers {

  datatype Option<+T> = None | Some(value: T)

  /** The outcome of an operation that either produces a value or fails. */
  datatype Result<+T, +E> = Ok(value: T) | Err(error: E) {
    predicate IsFailure() { Err? }

    function PropagateFailure<U>(): Result<U, E>
      requires Err?
    {
      Err(error)
    }

    function Extract(): T
      requires Ok?
    {
      value
    }
  }
}

/**
 * The .NET exceptions the modelled code can raise. A method of the model
 * that "throws" returns one of these in the error half of a `Result`.
 */
module Exceptions {

  datatype Exception =
      /** ArgumentException raised by a VariableNode whose name the mapping lacks. */
    | MissingVariable(name: string)
      /** ArgumentException raised by Dictionary.Add on a key already present. */
    | DuplicateKey(key: string)
      /** KeyNotFoundException of a Dictionary lookup of an absent key. */
    | KeyNotFound(key: string)
      /** ArgumentException raised when a result name has no recorded-order entry. */
    | MissingOrderEntry(key: string)
      /** ArgumentException raised for a batch of more than 255 rows. */
    | TooManyResults
      /** NotImplementedException of BinomialVariable.Evaluate. */
    | NotImplemented
      /** ArgumentOutOfRangeException of Random.Next when min > max. */
    | MinGreaterThanMax
      /** OverflowException: a negative array length or a failed Convert. */
    | Overflow
      /** IndexOutOfRangeException. */
    | IndexOutOfRange
      /** DivideByZeroException of integer division. */
    | DivideByZero
}
