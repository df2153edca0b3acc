/** The optional value and the success-or-refusal value used by every other module. */
module Wrappers {

  datatype Option<+T> = None | Some(value: T)
  {
    /** JavaScript's `??`. */
    function GetOr(fallback: T): T {
      if Some? then value else fallback
    }
  }

  /** A TypeScript call that either answers or throws. */
  datatype Result<+T, +E> = Ok(value: T) | Err(error: E)
}
