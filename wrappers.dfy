/** The usual optional-value datatype: `None` stands for Java's null or for a thrown exception. */
module Wrappers {

  datatype Option<+T> = None | Some(value: T)
}
