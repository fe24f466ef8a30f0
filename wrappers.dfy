/** The absent-or-present value a nullable Java reference stands for. */
module Wrappers {

  datatype Option<+T> = None | Some(value: T)
}
