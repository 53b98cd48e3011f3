/** Optional values: a missing registry value, a rule that did not match, a skipped entry. */
module Wrappers {

  datatype Option<+T> = None | Some(value: T)
}
