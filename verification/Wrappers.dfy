/** The one optional value the modules share: the source's std::optional, or a lookup that may miss. */
module Wrappers {
  datatype Option<+T> = None | Some(value: T)
}
