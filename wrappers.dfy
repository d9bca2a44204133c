/** The optional-value datatype used for the drag gesture's last cell and for event reports. */
module Wrappers {
  datatype Option<+T> = None | Some(value: T)
}
