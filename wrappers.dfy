/** The source's NULL results: a node or payload that may be absent. */
module Wrappers {

  datatype Option<+T> = None | Some(value: T)
}
