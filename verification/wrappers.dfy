/** Optional values: a request-body field that may be absent, a provider reply part that may be null. */
module Wrappers {

  datatype Option<+T> = None | Some(value: T)
}
