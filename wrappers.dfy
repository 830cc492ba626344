/** The optional value the C# code expresses with a null reference. */
module Wrappers {

  datatype Option<+T> = None | Some(value: T)

}
