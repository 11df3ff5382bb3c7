/** Option and Result, the stand-ins for Java's null and thrown exceptions. */
module Wrappers {

  /** A value that may be absent (Java's null). */
  datatype Option<+T> = None | Some(value: T)

  /** A computation that either returns a value or raises an error. */
  datatype Result<+T, +E> = Success(value: T) | Failure(error: E)
}

/** The exceptions the content-negotiation core can raise. */
module Exceptions {

  datatype Error =
    | MimeTypeParse     // javax.activation.MimeTypeParseException
    | NumberFormat      // java.lang.NumberFormatException from Float.parseFloat
    | NullPointer       // java.lang.NullPointerException
    | IllegalArgument   // java.lang.IllegalArgumentException
    | Runtime           // the RuntimeException MimeUtils.mimeType wraps a parse error in
}
