/** Option type shared by the modules of this model. */
module Wrappers {

  /** `None` stands for Go's "not present" / nil / failed-parse cases. */
  datatype Option<+T> = None | Some(value: T)
}
