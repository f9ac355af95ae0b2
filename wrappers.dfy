/** Option and Result values for the optional fields, missing keys and
    raised exceptions of the modelled Python and C code. */
module Wrappers {
  datatype Option<T> = None | Some(value: T)
  {
    function GetOr(default: T): T
    {
      match this
      case None => default
      case Some(v) => v
    }
  }

  datatype Result<T, E> = Ok(value: T) | Err(error: E)
}
