/** Result types shared by the services, and the failures they raise. */
module Wrappers {

  /** A value that may be absent: TypeORM's `undefined`/`null` result of a lookup. */
  datatype Option<+T> = None | Some(value: T)

  /** The ways an operation of the services can fail. */
  datatype Error =
    /** The database rejects a row whose value in a unique column is already taken. */
    | UniqueViolation(column: string)
    /** An `Error` thrown by a service after its own existence check. */
    | NotFound(message: string)
    /** A `TypeError` from assigning a field of the `null` that a lookup returned. */
    | NullReference
    /** An `HttpException` with status 401, raised by the login route. */
    | Unauthorized(message: string)

  /** The outcome of an operation that returns a value or throws. */
  datatype Result<+T> = Ok(value: T) | Err(error: Error)

  /** The outcome of an operation that returns nothing or throws. */
  datatype Outcome = Pass | Fail(error: Error)
}
