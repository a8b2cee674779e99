/** Option and Outcome wrappers shared by the whole model. */
module Wrappers {

  /** A value that may be absent (a C# `null` reference or a missing dictionary entry). */
  datatype Option<+T> = None | Some(value: T)

  /**
   * The result of an operation that may raise a .NET exception which is not caught
   * inside the modelled code.  `Fault` stands for "an exception escapes to the caller".
   */
  datatype Outcome<+T> = Ok(value: T) | Fault
}
