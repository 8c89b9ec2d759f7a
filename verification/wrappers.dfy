/** The optional-value type used for "no data loaded" and for widget choices left at their default. */
module Wrappers {

  datatype Option<+T> = None | Some(value: T)
}
