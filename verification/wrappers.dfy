/** The optional value that JavaScript expresses with `undefined` (a `find`
    that hits nothing, a `fetch` that failed). */
module Wrappers {
  datatype Option<+T> = None | Some(value: T)
}
