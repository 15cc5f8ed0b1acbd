/** The optional value used wherever the source returns a value or nothing:
    `None` in Python, `null` in TypeScript. */
module Wrappers {

  datatype Option<+T> = None | Some(value: T)
}
