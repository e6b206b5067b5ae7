/** Optional values: the model's stand-in for a nullable pointer or a lookup miss. */
module Wrappers {

  datatype Option<+T> = None | Some(value: T)

}
