/** Failure-carrying wrappers shared by every module of the model. */
module Common {

  datatype Option<T> = None | Some(value: T)

  datatype Result<T, E> = Ok(value: T) | Err(error: E)

  /** JavaScript's `x || ''` on an optional string: a missing value becomes the empty string. */
  function OrEmpty(o: Option<string>): string
  {
    match o
    case Some(s) => s
    case None => ""
  }
}
