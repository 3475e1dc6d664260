/** The optional-value datatype used across the model (a missing ledger day,
    a face that matched nobody, a file name without an extension). */
module Wrappers {
  datatype Option<+T> = None | Some(value: T)
}
