/** The optional value shared by both pipelines: a parse that may fail, a field that may be unset. */
module Wrappers {

  datatype Option<+T> = None | Some(value: T)
}
