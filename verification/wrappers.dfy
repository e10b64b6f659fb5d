/** The optional value used where the source reads a field that may be missing. */
module Wrappers {

  datatype Option<+T> = None | Some(value: T)

  /** Python's `d.get(key, missing)` once the lookup is done: the value that
      was found, or `missing`. */
  function Get<T>(o: Option<T>, missing: T): T {
    match o
    case Some(v) => v
    case None => missing
  }
}
