/** Optional values: a TypeScript `T | undefined` field or parameter. */
module Wrappers {

  datatype Option<+T> = None | Some(value: T)
}
