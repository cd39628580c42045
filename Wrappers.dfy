/** The optional result of a lookup: `None` stands for JavaScript's
    `undefined` (or `null`), `Some(v)` for a present value `v`. */
module Wrappers {

  datatype Option<+T> = None | Some(value: T)

}
