/** The optional value every clause renderer returns: None is the "no fragment" result
    (JavaScript's `undefined`), Some(f) is a fragment of SQL text. */
module Wrappers {

  datatype Option<+T> = None | Some(value: T)
}
