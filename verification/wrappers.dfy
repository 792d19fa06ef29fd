/** Stand-ins for Java's nullable references and thrown exceptions. */
module Wrappers {

  /** A nullable reference: None is Java's null. */
  datatype Option<+T> = None | Some(value: T) {
    /** `x != null ? x : default` */
    function GetOr(default: T): T {
      if Some? then value else default
    }
  }

  /** The exceptions the modelled code throws, by kind and message. */
  datatype Failure =
    | NullPointer(message: string)       // Objects.requireNonNull(x, message) on null
    | NullDereference                    // a method called on a null reference
    | IllegalArgument(message: string)   // new IllegalArgumentException(message)
    | Runtime(message: string)           // new RuntimeException(message)
    | MessageSourceError(code: string)   // an exception of the message source, propagated unchanged

  /** A returned value, or the exception that ended the call. */
  datatype Result<+T> = Ok(value: T) | Err(failure: Failure)
}
