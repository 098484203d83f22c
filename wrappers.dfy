/** The optional value that `BinaryHeap::pop` returns. */
module Wrappers {

  datatype Option<+T> = None | Some(value: T)
}
