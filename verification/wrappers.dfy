/** The optional value the regex matchers return when a pattern does not match. */
module Wrappers {

  datatype Option<+T> = None | Some(value: T)
}
