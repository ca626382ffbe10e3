/** The usual optional-value wrapper: `None` stands for JavaScript's
    `undefined` / `null` wherever the source tests a value for presence. */
module Wrappers {
  datatype Option<+T> = None | Some(value: T)
}
