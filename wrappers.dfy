/** Optional values and error-or-value results, used for the permissive
    (`None`-returning) and strict (raising) variants of each operation. */
module Wrappers {

  /** A value that may be absent; `None` is Python's `None`. */
  datatype Option<+T> = None | Some(value: T)

  /** A value, or the error the strict operation raises instead. */
  datatype Result<+T, +E> = Ok(value: T) | Err(error: E) {

    /** Forgets the error kind, keeping only whether a value was produced. */
    function ToOption(): (o: Option<T>)
      ensures o.Some? <==> Ok?
      ensures o.Some? ==> o.value == value
    {
      match this
      case Ok(v) => Some(v)
      case Err(_) => None
    }
  }
}
