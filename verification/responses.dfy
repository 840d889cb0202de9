/** What a handler answers, and what it may raise instead. */
module Responses {
  import opened Outcomes
  import opened Rows

  /**
   * An exception raised while a handler runs: an integrity-constraint
   * violation reported by the database (`sqlite3.IntegrityError`) or any
   * other exception, each with the text `str(err)` gives.
   */
  datatype DbError = IntegrityError(message: string) | OtherError(message: string)

  /** The JSON bodies the service produces. */
  datatype Body =
    | Status(status: string)              // {"status": <status>}
    | BulkCreated(count: nat)             // {"status": "bulk_created", "count": <count>}
    | StudentFound(row: Student)          // the student row as a JSON object
    | StudentNotFound                     // {"error": "student not found"}
    | StudentRows(students: set<Student>) // the student listing
    | CourseRows(courses: set<Course>)    // the course listing
    | JoinedRows(rows: set<JoinedRow>)    // the enrollment listing
    | SqliteError(message: string)        // {"status": "error", "sqlite_error": <message>}
    | ExceptionError(message: string)     // {"status": "error", "message": <message>}

  /** An HTTP status code and a JSON body. */
  datatype Response = Response(code: int, body: Body)

  /** What a handler does: answer, or raise. */
  type Outcome = Result<Response, DbError>
}
