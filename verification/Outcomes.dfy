/** Optional values, results that stand for a returned value or a thrown error, and
    what a caller that may crash knows of the outside world. */
module Outcomes {
  datatype Option<+T> = None | Some(value: T)

  datatype Result<+T, +E> = Success(value: T) | Failure(error: E)

  /** A read of the outside world that may fail. */
  datatype Read<+T> = ReadFailed | ReadOk(value: T)

  /** Whether the last reconciliation has cleared the caller for one external action. */
  datatype Caller = Idle | Cleared
}
