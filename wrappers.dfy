/** Small result types shared by the modules of the model. */
module Wrappers {

  /** A Python value that may be `None`. */
  datatype Option<+T> = None | Some(value: T)

  /** What a call into code outside the model produced: a value, or an
      exception carrying the text that `str(e)` gives. */
  datatype Outcome<+T> = Returned(value: T) | Raised(message: string)
}
