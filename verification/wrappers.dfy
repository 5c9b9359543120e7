/** The optional-value datatype the rest of the model uses for Python's `None`. */
module Wrappers {

  /** `None` stands for Python's `None` (or for "no value produced"). */
  datatype Option<+T> = None | Some(value: T)
}
