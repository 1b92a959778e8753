/** A nullable value: the C runtime's "null or a function pointer". */
module Wrappers {

  datatype Option<+T> = None | Some(value: T)
}
