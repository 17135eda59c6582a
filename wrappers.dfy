// The optional value used by the searches and the parser.
module Wrappers {

  datatype Option<T> = None | Some(value: T)
}
