/** The Java `null`-or-value idiom, as a datatype. */
module Wrappers {

  datatype Option<+T> = None | Some(value: T)

}
