/** Failure-carrying values shared by the modules of this model. */
module Wrappers {

  /** A value that may be missing (a C# null or a failed TryGet). */
  datatype Option<+T> = None | Some(value: T)
  {
    function GetOr(default: T): T
    {
      match this
      case Some(v) => v
      case None => default
    }
  }

  /** Either a value or the exception that replaced it. */
  datatype Result<+T, +E> = Success(value: T) | Failure(error: E)
}
