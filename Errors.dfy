/** The exceptions the core throws or lets escape, by kind. The messages they carry are not modelled
    here; where a handler echoes a message it receives it as a parameter. */
module Errors {

  datatype ErrorKind =
    | BookNotFound            // BookNotFoundException
    | UserNotFound            // UserNotFoundException
    | BookIdMismatch          // BookIdMismatchException
    | UserIdMismatch          // UserIdMismatchException
    | BookAlreadyOwned        // BookAlreadyOwnedException
    | NotNullViolation        // javax.validation.ConstraintViolationException: a @NotNull column
                              // left null when the store writes the row
    | ConstraintViolation     // org.hibernate.exception.ConstraintViolationException
    | DataIntegrityViolation  // a unique column (Book.isbn) clashes with a stored row
    | InvalidBody             // a @Valid request body with a @NotNull field left null
    | NullPointer             // NullPointerException (checkNotNull, or a call on a null field)
    | IllegalArgument         // IllegalArgumentException (checkArgument, or a null id given to the store)
    | IndexOutOfBounds        // IndexOutOfBoundsException (get(0) on an empty list)
}
