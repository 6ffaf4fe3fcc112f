/** Option stands for a nullable value; Result, usable with `:-`, for a
    computation that either returns or throws. */
module Wrappers {

  datatype Option<+T> = None | Some(value: T) {

    /** The value, or `default` for `None` (C#'s `??`). */
    function GetOr(default: T): T {
      match this
      case Some(v) => v
      case None => default
    }
  }

  datatype Result<+T, +E> = Success(value: T) | Failure(error: E) {

    predicate IsFailure() {
      Failure?
    }

    function PropagateFailure<U>(): Result<U, E>
      requires Failure?
    {
      Failure(error)
    }

    function Extract(): T
      requires Success?
    {
      value
    }
  }
}

/** The .NET exceptions the modelled code can throw. A thrown exception
    aborts the operation; the model returns it as a `Failure`. */
module Exceptions {

  datatype Exception =
    | ArgumentException(message: string)
    | ArgumentOutOfRangeException
    | IndexOutOfRangeException
    | DivideByZeroException
    | OverflowException
    | NullReferenceException
    | ArgumentNullException

  const WrongDimensionality := "position has wrong dimensionality"
  const AlreadyOccupied := "position is already occupied"
}
