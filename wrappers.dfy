/** Optional values and the outcome of a Python call that may raise. */
module Wrappers {

  datatype Option<+T> = None | Some(value: T)

  /** The outcome of a call in the source: it either returns a value or an
      exception escapes to the caller (the source does not catch it). */
  datatype Call<+T> = Returned(value: T) | Raised
}
