/** Optional values, standing in for cells that pandas reads as NaN. */
module Wrappers {

  datatype Option<T> = None | Some(value: T)

  /** Python truthiness of an optional string: `None` and `""` are false, every other string is true. */
  predicate Truthy(o: Option<string>) {
    o.Some? && o.value != ""
  }
}
