/** Optional values: a Go slice that may be nil, a slot index that may be absent. */
module Wrappers {

  datatype Option<+T> = None | Some(value: T)
}
