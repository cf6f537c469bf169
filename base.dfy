/** Shared value wrappers used by every module of the model. */
module Base {

  /** A value that may be absent: JavaScript's `undefined`/`null` for an optional result. */
  datatype Option<+T> = None | Some(value: T)
}
