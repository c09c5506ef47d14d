/** The optional value used wherever the C# code may hold `null`. */
module Wrappers {

  datatype Option<+T> = None | Some(value: T)
}
