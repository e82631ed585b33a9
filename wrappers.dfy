/** Optional values: Swift's `T?` as returned by `firstIndex(of:)` and by the drag-target resolver. */
module Wrappers {

  datatype Option<+T> = None | Some(value: T)
}
