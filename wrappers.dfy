/** An optional value, for attributes that an HTML element may or may not carry. */
module Wrappers {

  datatype Option<+T> = None | Some(value: T)

}
