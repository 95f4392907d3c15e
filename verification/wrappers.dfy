/** Failure-carrying values used across the model. A Python call that raises
    (IndexError, ValueError, TypeError, ...) is modelled as `None` or `Err`. */
module Wrappers {

  datatype Option<+T> = None | Some(value: T)

  /** The exceptions the modelled Python code can raise. */
  datatype PyError = IndexError | ValueError | ZeroDivisionError | TypeError | NotImplementedError

  datatype Result<+T> = Ok(value: T) | Err(error: PyError)

  /** An action as a caller passes it to an environment: an integer index,
      or the action's name. */
  datatype ActionRef = ByIndex(index: int) | ByName(name: string)
}
