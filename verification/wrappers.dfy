/** Optional values and outcomes of operations that can fail. */
module Wrappers {

  datatype Option<T> = None | Some(value: T)

  /** The end of a transform: it finished, or it threw with a message. */
  datatype Outcome = Pass | Fail(error: string)
}
