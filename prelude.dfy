/** The optional value used across the model, after the `Option` type of the
    program's own prelude package. */
module Prelude {

  datatype Option<+T> = None | Some(value: T)
  {
    /** The wrapped value, or `d` when there is none. */
    function GetOr(d: T): T
    {
      match this
      case Some(v) => v
      case None => d
    }
  }
}
