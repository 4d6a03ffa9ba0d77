/** Python's optional value: `None` or a present value. */
module Wrappers {

  datatype Option<+T> = None | Some(value: T)
}
