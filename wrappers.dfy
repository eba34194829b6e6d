/** The optional value used where the Python code can raise instead of returning. */
module Wrappers {
  datatype Option<+T> = None | Some(value: T)
}
