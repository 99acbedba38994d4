/** Ruby's nil, for values the database client hands back as a string or nil. */
module Wrappers {

  datatype Option<+T> = None | Some(value: T)
}
