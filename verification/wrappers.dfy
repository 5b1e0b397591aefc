/** Java's nullable references and uncaught exceptions, as values. */
module Wrappers {

  /** A Java reference that may be null: `None` stands for `null`. */
  datatype Option<+T> = None | Some(value: T)

  /** The way a Java call ends: it returns a value, or an unchecked exception
      escapes it (nothing in the caller catches it, so the screen goes down). */
  datatype Outcome<+T> = Returned(value: T) | Crashed
}
