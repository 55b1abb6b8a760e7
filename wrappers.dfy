/** Failure-carrying values shared by the modules of this model. */
module Wrappers {

  datatype Option<+T> = None | Some(value: T) {
    /** The value, or `default` when there is none. */
    function GetOr(default: T): T {
      match this
      case Some(v) => v
      case None => default
    }
  }

  datatype Result<+R, +E> = Success(value: R) | Failure(error: E)
}

/** HTTP status codes the handlers answer with. */
module Http {

  const OkStatus: int := 200
  const CreatedStatus: int := 201
  const NoContentStatus: int := 204
  const BadRequestStatus: int := 400
  const NotFoundStatus: int := 404
  const ConflictStatus: int := 409
  const InternalErrorStatus: int := 500

  /** What a handler leaves in oak's `response`: its status and its body. */
  datatype Response<B> = Response(status: int, body: B)
}

/** The typed outcomes that stand in for SQLite's statement results and thrown errors. */
module Storage {

  /** The kind of error a statement throws; the handlers tell these apart by the
      error message ("UNIQUE constraint failed", "FOREIGN KEY constraint failed"). */
  datatype DbError = UniqueViolation | ForeignKeyViolation | OtherFailure

  /** What the environment does to a statement that the table's constraints accept:
      nothing, make `stmt.value` return no row, or make it throw. */
  datatype Fault = NoFault | ReturnsNothing | Throws

  /** The result of `stmt.value(...)` on an `INSERT ... RETURNING` statement. */
  datatype InsertResult<T> = Returned(row: T) | NothingReturned | Threw(error: DbError)

  /** The result of `stmt.run(...)`: it completed, or it threw. */
  datatype RunResult = Ran | RunThrew(runError: DbError)
}
