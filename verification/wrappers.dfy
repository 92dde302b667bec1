/** Optional values: a probe or an extraction step that may fail. */
module Wrappers {

  datatype Option<+T> = None | Some(value: T)
}
