/** Optional values. `None` is how the model writes pandas' NaN: a cell that
    did not coerce, a growth rate with no previous row, a mean over nothing. */
module Wrappers {
  datatype Option<+T> = None | Some(value: T)
}
