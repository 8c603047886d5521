/** Optional values: Java's `Optional<T>` and the nullable references of the entities. */
module Wrappers {

  datatype Option<+T> = None | Some(value: T)

}
