/** The optional value shared by the other modules. */
module Wrappers {

  /** An optional value: `None` stands for "nothing there" (an empty form
      field, a character that does not occur in a string). */
  datatype Option<+T> = None | Some(value: T)
}
