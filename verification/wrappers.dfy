/** The Some/None datatype used wherever the Go code has a value that may be
    absent (a nil pointer, a failed read, a flag lookup that errored). */
module Wrappers {

  datatype Option<+T> = None | Some(value: T)
}
