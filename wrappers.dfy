/** The optional value that stands for Java's `null` returns and for inputs a parser rejects. */
module Wrappers {

  datatype Option<+T> = None | Some(value: T)
}
