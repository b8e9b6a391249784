/** An optional value: stands for a nullable reference or a failed `TryParse`. */
module Wrappers {

  datatype Option<+T> = None | Some(value: T)
}
