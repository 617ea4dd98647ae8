/** Optional values and results that carry one of the Java exceptions the
    modelled code throws. Both support Dafny's `:-` early-return operator. */
module Wrappers {

  /** A value that may be absent; stands for a nullable reference. */
  datatype Option<+T> = None | Some(value: T) {

    predicate IsFailure() {
      None?
    }

    function PropagateFailure<U>(): Option<U>
      requires None?
    {
      None
    }

    function Extract(): T
      requires Some?
    {
      value
    }

    /** The value, or `default` when absent (Kotlin's `?:`). */
    function GetOr(default: T): T {
      if Some? then value else default
    }
  }

  /** The exceptions raised by the modelled code, each with its message. */
  datatype Exception =
    | IllegalState(message: string)
    | IllegalArgument(message: string)
    | UnsupportedOperation(message: string)
    | NullPointer(message: string)
    | IndexOutOfBounds
    | BufferUnderflow
    | NegativeArraySize
    | NumberFormat
    | CorruptedJournal(message: string)
    | Journal(message: string)
    | FileNotFound(message: string)
    | Runtime(message: string)
    | Recoverable(message: string)
    | RocksDb(ioError: bool, status: Option<string>)

  /** A computation that either returns a value or throws. */
  datatype Result<+T> = Ok(value: T) | Throws(error: Exception) {

    predicate IsFailure() {
      Throws?
    }

    function PropagateFailure<U>(): Result<U>
      requires Throws?
    {
      Throws(error)
    }

    function Extract(): T
      requires Ok?
    {
      value
    }
  }
}
