/** Optional values, standing in for Swift optionals (`String?`, `Error?`, `Data?`). */
module Wrappers {

  datatype Option<+T> = None | Some(value: T)
}
