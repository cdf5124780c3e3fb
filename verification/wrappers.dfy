/** Optional values: a JavaScript `undefined`/`null` versus a value that is present. */
module Wrappers {

  datatype Option<+T> = None | Some(value: T)

  /** A value that is present and is not the empty string (JavaScript's truthy string). */
  predicate Filled(v: Option<string>) {
    v.Some? && v.value != ""
  }
}
