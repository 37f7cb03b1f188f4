/** Failure-compatible and optional values shared by the whole model.
- Option<T>: a Python value that may be None (an attribute that is absent,
  a function that falls off its end).
- Slot<T>: one key of a Python dict, either absent or holding a value; used
  where "the key is left unchanged" is part of the behaviour.
- Result<T, E>: an operation that may raise instead of returning.
 */
module Wrappers {

  datatype Option<+T> = None | Some(value: T) {

    /** The value held, or `default` when None */
    function GetOr(default: T): T {
      match this
      case Some(v) => v
      case None => default
    }
  }

  datatype Slot<+T> = Absent | Present(value: T) {

    /** Python's `d.get(key, default)` */
    function GetOr(default: T): T {
      match this
      case Present(v) => v
      case Absent => default
    }
  }

  datatype Result<+T, +E> = Success(value: T) | Failure(error: E)
}
