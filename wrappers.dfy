/** Option and Result, the model's stand-ins for C++ "no value" returns and thrown exceptions. */
module Wrappers {

  datatype Option<+T> = None | Some(value: T) {
    /** The value, or `default` if there is none. */
    function GetOr(default: T): (r: T)
    {
      if Some? then value else default
    }
  }

  datatype Result<+R, +E> = Success(value: R) | Failure(error: E)
}
