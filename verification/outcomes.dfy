/** Failure-carrying values shared by every module of the model. */
module Outcomes {

  /** Python's `None` or a value. */
  datatype Option<T> = None | Some(value: T) {

    /** The value, or `default` when there is none (`x if x is not None else default`). */
    function GetOr(default: T): T {
      match this
      case Some(v) => v
      case None => default
    }
  }

  /** The ways an operation of the wrapper ends without a value. */
  datatype Error =
    | ResourceNotFound(filename: string)  // OSError: no search directory holds the file
    | LoadFailed(filename: string)        // sys.exit: SDL could not decode the file
    | InvalidMappingKey(action: string)   // ValueError: not one of the eight controller actions
    | MissingAttribute(name: string)      // AttributeError: the object has no attribute `name`

  datatype Result<T> = Ok(value: T) | Err(error: Error)
}
