/** Small value wrappers shared by the whole model. */
module Wrappers {

  /** A nullable column or a JavaScript value that may be null/undefined. */
  datatype Option<+T> = None | Some(value: T)

  /** A column value in an INSERT: either left out (the column default applies) or given. */
  datatype Omittable<+T> = Omitted | Given(value: T)
}
