/** Option and Result types shared by every module of the model. */
module Wrappers {

  /** A value that may be absent: JavaScript's `undefined` next to a defined value. */
  datatype Option<T> = None | Some(value: T)
  {
    /** The value, or `default` when it is absent (the `??` operator). */
    function GetOr(default: T): T
    {
      if Some? then value else default
    }
  }

  /** The outcome of an operation that can throw: `Err` carries the message thrown. */
  datatype Result<T> = Ok(value: T) | Err(error: string)
}
