/** An optional value: the exit code of a process that may end without one, the process a variable may hold. */
module Wrappers {

  datatype Option<+T> = None | Some(value: T)
}
