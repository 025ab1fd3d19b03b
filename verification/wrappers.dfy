/** The optional value used wherever the worker sees `undefined` or a thrown error. */
module Wrappers {

  /** `None` stands for JavaScript's `undefined` or for a computation that threw. */
  datatype Option<+T> = None | Some(value: T)
}
