/** The optional value shared by the modules of this model. */
module Wrappers {

  /** `None` stands for Python's `None` and, in a pandas column, for a missing (NaN) cell. */
  datatype Option<+T> = None | Some(value: T)
}
