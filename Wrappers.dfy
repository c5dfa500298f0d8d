/** An optional value, standing for the nullable values and the
    TryGetValue/HasValue tests of the system. */
module Wrappers {

  datatype Option<+T> = None | Some(value: T)
}
