/** Result shapes shared by the whole model. */
module Common {

  datatype Option<+T> = None | Some(value: T)

  /** The Python exceptions the modelled code can raise. */
  datatype PyError = ValueError | IndexError | TypeError

  /** What a Python call does: return a value, or raise an exception that propagates to the caller. */
  datatype Outcome<+T> = Returned(value: T) | Raised(error: PyError)
}
