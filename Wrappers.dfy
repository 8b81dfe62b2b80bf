/** The optional value that stands for Java's nullable references and for
    operations that either produce a value or fail. */
module Wrappers {

  datatype Option<+T> = None | Some(value: T)
}
