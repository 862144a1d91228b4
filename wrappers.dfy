/** The usual Some/None datatype; `None` stands for JavaScript `null` where a value may be absent. */
module Wrappers {
  datatype Option<+T> = None | Some(value: T)
}
