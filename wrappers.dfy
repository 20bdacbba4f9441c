/** The optional value used for "may be absent" in the tracker: a missing
    transaction, an empty amount field, a value JavaScript's Number() turns into NaN. */
module Wrappers {
  datatype Option<+T> = None | Some(value: T)
}
