/** Optional values, for Go's nil pointers, missing map entries and NotFound lookups, and the outcomes
    of calls that change something outside. */
module Wrappers {

  datatype Option<+T> = None | Some(value: T)

  /** DoneButFailed reports an error although it took effect. */
  datatype Outcome = Done | Failed | DoneButFailed {
    predicate Happened() {
      this != Failed
    }
  }
}
