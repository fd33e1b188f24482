/** The optional value the TypeScript code expresses as `T | undefined`. */
module Wrappers {
  datatype Option<+T> = None | Some(value: T)
}
