/** Shared vocabulary of the school backend: identifiers, timestamps, users,
    the typed failures that stand for the services' RuntimeExceptions, and
    the Option/Result wrappers used for nullable fields and error returns. */
module Common {

  type UserId = nat
  type ClassId = nat
  type NotificationId = nat

  /** `LocalDateTime` values, as an ordered integer clock. */
  type Timestamp = int

  datatype Option<+T> = None | Some(value: T) {
    function GetOr(default: T): T {
      match this
      case Some(v) => v
      case None => default
    }
  }

  /** The failures the services raise. The source throws a RuntimeException
      with a message in every case; the kind is what the message says. */
  datatype Error =
    | NotFound             // a referenced user, class, enrollment or notification does not exist
    | Forbidden            // the caller is not the owner, or not a teacher
    | InvalidArgument      // a structurally invalid request (empty class list, page size < 1)
    | Conflict             // a duplicate class code or a duplicate enrollment
    | ConstraintViolation  // a column constraint of the database rejects the write

  datatype Result<+T> = Ok(value: T) | Err(error: Error)

  datatype Role = Teacher | Student

  /** The user record the services look up by id (read-only here). */
  datatype User = User(id: UserId, fullName: string, role: Role)
}
