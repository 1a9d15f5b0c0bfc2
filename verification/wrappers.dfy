/** The nullable reference of the source, as a value. */
module Wrappers {

  /** `None` stands for a C# `null` reference. */
  datatype Option<+T> = None | Some(value: T)
}
