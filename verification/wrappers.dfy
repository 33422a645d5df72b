/** The optional value shared by the Rust and the Java parts of the model. */
module Wrappers {

  /** Rust's `Option`, and the outcome of a Java parse that either yields a
      value or throws `NumberFormatException`. */
  datatype Option<+T> = None | Some(value: T)
}
