/** Shared vocabulary of the inventory service: identifiers, the optional
    value used for the source's nullable fields, the three domain errors and
    everything else an operation can fail with, and the result wrappers. */
module Common {

  /** A database identifier (a GUID in the source), kept abstract as a number. */
  type Guid = nat

  /** The range of a C# `int`, the type of an item's Count. */
  const Int32Min: int := -0x8000_0000
  const Int32Max: int := 0x7FFF_FFFF
  type Int32 = x: int | Int32Min <= x <= Int32Max

  /** A nullable value (`Guid?`, `string?`). */
  datatype Option<T> = None | Some(value: T)

  /** What an operation throws. The first three are the domain errors of the
      application layer (NotFoundError, AccessDeniedError and
      ProvidedDataIsInvalidError); `Unhandled` stands for every other
      exception, such as the database refusing a commit or the identity
      provider failing. Each carries its exception message. */
  datatype Error =
    | NotFound(message: string)
    | AccessDenied(message: string)
    | InvalidInput(message: string)
    | Unhandled(message: string)
  {
    /** The three kinds the application layer declares itself. */
    predicate IsDomainError() {
      !Unhandled?
    }
  }

  /** The value of an operation that returns something, or what it threw. */
  datatype Result<T> = Ok(value: T) | Err(error: Error)

  /** The outcome of an operation that returns nothing (`Task`). */
  datatype Outcome = Done | Fail(error: Error)

  /** The message of the exception a database commit throws when a row breaks
      a declared constraint. The real text goes on with a pointer to the inner
      exception; this is a placeholder, since the handler replaces every
      unhandled message with its fixed title. */
  const DbUpdateFailedMessage: string := "An error occurred while saving the entity changes."
}
