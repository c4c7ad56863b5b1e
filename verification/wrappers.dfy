/** Failure-compatible wrappers shared by every module of the model:
    `Option` stands in for Java's nullable references, `Result` for a
    return value that may instead be an exception or a Rust `Err`. */
module Wrappers {

  datatype Option<+T> = None | Some(value: T)

  datatype Result<+T, +E> = Ok(value: T) | Err(error: E) {

    predicate IsFailure() {
      Err?
    }

    function PropagateFailure<U>(): Result<U, E>
      requires Err?
    {
      Err(error)
    }

    function Extract(): T
      requires Ok?
    {
      value
    }
  }
}

/** The exceptions (Java) and error kinds (Rust `std::io::ErrorKind`) the
    modelled code raises or returns. */
module Failures {

  datatype Failure =
    | IOException            // java.io.IOException, e.g. writing to a closed socket
    | ProtocolException      // java.net.ProtocolException, a subclass of IOException
    | NegativeArraySize      // java.lang.NegativeArraySizeException, a RuntimeException
    | IllegalArgument(message: string)  // java.lang.IllegalArgumentException
    | NumberFormat           // java.lang.NumberFormatException, a subclass of IllegalArgumentException
    | IllegalState           // java.lang.IllegalStateException
    | UnsupportedOperation   // java.lang.UnsupportedOperationException
    | NullPointer            // java.lang.NullPointerException
    | OtrException           // net.java.otr4j.api.OtrException, raised by the OTR engine
    | UnexpectedEof          // Rust ErrorKind::UnexpectedEof
    | InvalidInput           // Rust ErrorKind::InvalidInput
    | InvalidData            // Rust ErrorKind::InvalidData, e.g. a line that is not UTF-8
    | BrokenPipe             // Rust ErrorKind::BrokenPipe, writing to a closed connection

  /** Whether a `catch (IOException e)` clause catches the failure. */
  predicate IsIOException(f: Failure) {
    f.IOException? || f.ProtocolException?
  }
}
