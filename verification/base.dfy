/** Failure-carrying wrappers shared by every module of the model.

    Java reports a violated precondition by throwing; the model returns
    `Err(t)` with the `Throwable` that the source would have thrown. */
module Base {

  /** A value that may be absent; stands for a nullable Java reference. */
  datatype Option<+T> = None | Some(value: T) {
    predicate IsFailure() {
      None?
    }

    function PropagateFailure<U>(): Option<U>
      requires None?
    {
      None
    }

    function Extract(): T
      requires Some?
    {
      value
    }

    function GetOr(default: T): T {
      match this
      case Some(v) => v
      case None => default
    }
  }

  /** The throwables the core can raise or relay.  The first six are Java
      `RuntimeException`s; `SqlFailure` and `Interrupted` are checked
      exceptions; `VmError` stands for any `java.lang.Error`. */
  datatype Throwable =
    | NullPointer
    | IllegalArgument
    | IndexOutOfBounds
    | IllegalMonitorState
    | IllegalState(cause: Option<Throwable>)
    | ClassCast
    | SqlFailure(message: string)
    | Interrupted
    | VmError(name: string)
  {
    /** Unchecked exceptions, which a caller may rethrow without wrapping. */
    predicate IsRuntime() {
      NullPointer? || IllegalArgument? || IndexOutOfBounds? || IllegalMonitorState? || IllegalState? || ClassCast?
    }
  }

  /** Either a normal return value or the throwable raised instead. */
  datatype Result<+T> = Ok(value: T) | Err(error: Throwable) {
    predicate IsFailure() {
      Err?
    }

    function PropagateFailure<U>(): Result<U>
      requires Err?
    {
      Err(error)
    }

    function Extract(): T
      requires Ok?
    {
      value
    }
  }

  /** A check that either passes or raises. */
  datatype Outcome = Pass | Fail(error: Throwable) {
    predicate IsFailure() {
      Fail?
    }

    function PropagateFailure<U>(): Result<U>
      requires Fail?
    {
      Err(error)
    }
  }
}
