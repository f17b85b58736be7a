/** The Option datatype the model uses for "a row may be missing" and "a field may be null". */
module Wrappers {

  datatype Option<+T> = None | Some(value: T)
}
