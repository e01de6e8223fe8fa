/** The optional value the hooks receive for a document that may be missing. */
module Wrappers {

  /** `None` stands for JavaScript's `undefined` or `null` document. */
  datatype Option<+T> = None | Some(value: T)
}
