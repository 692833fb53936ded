/** Values shared by the Java back end: optional values, Java strings that
    may be null, the exceptions the services throw, and the two ways a Java
    call ends (a value or a thrown exception). */
module Lang {

  datatype Option<+T> = None | Some(value: T)

  /** A Java `String` reference: `None` stands for `null`. */
  type JString = Option<string>

  /** HTTP status codes used by the services and the exception handler. */
  const BadRequest := 400
  const NotFound := 404
  const Conflict := 409
  const InternalServerError := 500

  /** The exceptions the modelled Java code throws or receives. */
  datatype Exception =
    | IllegalArgument(message: string)
      /** Spring's ResponseStatusException: an HTTP status and a reason. */
    | ResponseStatus(status: int, reason: string)
      /** Any other unchecked exception; `None` is a null message (a NullPointerException has one). */
    | Runtime(detail: JString)
      /** A checked exception such as an IOException. */
    | Checked(detail: JString)
      /** Spring's MethodArgumentNotValidException with its field errors, in order. */
    | ArgumentNotValid(errors: seq<FieldError>)

  datatype FieldError = FieldError(field: string, message: string)

  /** A Java method that returns a value or throws. */
  datatype Result<+T> = Ok(value: T) | Err(error: Exception)

  /** A Java `void` method that returns normally or throws. */
  datatype Outcome = Pass | Fail(error: Exception)

  /** A `NullPointerException`, as thrown by a call on a null receiver. */
  const NullPointer := Runtime(None)
}
