/**
 * What the server handlers hand back to their HTTP routes: a value, an
 * `Error` object they return (a message of their own, or a Prisma error
 * wrapped), or a Prisma error they let propagate as an exception.
 */
module Outcomes {
  import opened PrismaDb

  /** The payload of a returned `Error`. */
  datatype Failure =
    | Text(message: string)   // Error("...")
    | Wrapped(cause: DbError) // Error(error) around a caught Prisma error

  datatype Outcome<T> =
    | Ok(value: T)
    | Err(failure: Failure)
    | Raised(cause: DbError)
}
