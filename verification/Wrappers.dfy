/** The one optional-value type every module uses for "the source raises or returns None". */
module Wrappers {
  datatype Option<+T> = None | Some(value: T)
}
