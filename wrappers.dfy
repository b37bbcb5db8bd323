/** The optional value returned by the dependency tree's queries. */
module Wrappers {

  datatype Option<+T> = None | Some(value: T)
}
