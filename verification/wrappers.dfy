/** Failure-compatible wrappers shared by every module of the model.

    Python signals absence with `None` and failure with exceptions; the model
    returns `Option` for the former and `Result` carrying a `PyError` for the
    latter, so every error path of the source is a value the contracts can name.
 */
module Wrappers {

  datatype Option<+T> = None | Some(value: T) {

    /** Returns the value in Some or a default value if None */
    function GetOr(default: T): T {
      match this
      case Some(v) => v
      case None => default
    }
  }

  datatype Result<+R, +E> = Ok(value: R) | Err(error: E)

  /** The Python exceptions the modelled code can raise. */
  datatype PyError =
    | IndexError          // list index out of range, or pop from an empty list
    | AttributeError      // call of a method the class does not define
    | UnboundLocalError   // read of a local that no loop iteration assigned
    | ValueError          // a negative width in a string format specifier
}
