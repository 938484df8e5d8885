/** Failure-compatible values shared by every part of the model: an optional
    value for the source's nulls, a result for the source's exceptions, the
    exceptions themselves, and the lines a command writes to the console. */
module Outcomes {

  /** A value or nothing; stands for a reference that may be null. */
  datatype Option<+T> = None | Some(value: T)

  /** The exceptions the modelled code raises or lets escape. */
  datatype Error =
    | Argument(text: string)          // System.ArgumentException built with this message
    | ArgumentNull(param: string)     // System.ArgumentNullException for this parameter
    | DirectoryNotFound(path: string) // System.IO.DirectoryNotFoundException for this path
  {
    /** The exception's Message, as a catch block prints it. */
    function Message(): string {
      match this
      case Argument(t) => t
      case ArgumentNull(p) => "Value cannot be null.\r\nParameter name: " + p
      case DirectoryNotFound(p) => "Could not find a part of the path '" + p + "'."
    }
  }

  /** Normal completion with a value, or an exception that escaped. */
  datatype Result<+T> = Ok(value: T) | Fail(error: Error)

  /** One line of console output: a literal line, or the command's usage text. */
  datatype Line = Text(s: string) | Usage
}
