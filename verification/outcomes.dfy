/** Small failure-carrying wrappers shared by the whole model. */
module Outcomes {

  /** Python's `None`-or-value. */
  datatype Option<+T> = None | Some(value: T)

  /** The result of a source operation that can end in a Python exception
      (an attribute read on `None`, or unpacking `None`). What the object
      graph looks like after such an exception is described per operation. */
  datatype Result<+T> = Ok(value: T) | Raised
}
