/** The Java exceptions that cross the layers of the service, as values. */
module Exceptions {
  import opened Wrappers

  /** A thrown exception: its class, as far as the handlers distinguish classes, and its message
      (getMessage(), which may be null). */
  datatype Exception =
    | EntityNotFound(message: Option<string>)   // jakarta.persistence.EntityNotFoundException
    | OtherRuntime(message: Option<string>)     // any other RuntimeException
    | Checked(message: Option<string>)          // an Exception that is not a RuntimeException
  {
    /** Whether a `catch (RuntimeException e)` clause catches it. */
    predicate IsRuntime() {
      !Checked?
    }
  }
}
