/** Optional values: `None` stands for a Java `null` reference. */
module Wrappers {

  datatype Option<+T> = None | Some(value: T)
}
