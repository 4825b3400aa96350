/** Optional values: PHP's NULL, JavaScript's null, or a missing array key. */
module Wrappers {

  datatype Option<+T> = None | Some(value: T)
}
