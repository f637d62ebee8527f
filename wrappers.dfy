/** Optional values, for the operations of the planner that can fail or that
    may have nothing to return. */
module Wrappers {

  datatype Option<+T> = None | Some(value: T)
}
