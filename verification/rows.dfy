/**
 * The rows of the three tables of the service: `student`, `course` and
 * `student_course` (an enrollment of a student in a course, with a mark).
 */
module Rows {

  /**
   * A cell value as it arrives in a JSON request body and is bound to a
   * statement parameter: SQL NULL (JSON null or an absent optional field),
   * text, or an integer.
   */
  datatype Value = Null | Text(text: string) | Num(n: int)

  /** The range of SQLite's INTEGER, the widest integer a statement parameter can carry. */
  const MinInteger: int := -0x8000_0000_0000_0000
  const MaxInteger: int := 0x7FFF_FFFF_FFFF_FFFF

  /**
   * The value can be bound to a statement parameter: binding an integer
   * outside the 64-bit range raises `OverflowError` before the statement runs.
   */
  predicate Bindable(v: Value)
  {
    v.Num? ==> MinInteger <= v.n <= MaxInteger
  }

  /** A `student` row; `id` is the client-supplied primary key. */
  datatype Student = Student(id: Value, name: Value, lastname: Value, birthday: Value)

  /** A `course` row; `id` is the engine-assigned integer primary key. */
  datatype Course = Course(id: int, name: Value, credits: Value)

  /** A `student_course` row: foreign keys into `student` and `course`, and a nullable mark. */
  datatype Enrollment = Enrollment(id: int, studentId: Value, courseId: Value, mark: Value)

  /** One row of the enrollment listing: the enrollment joined with the student's and the course's names. */
  datatype JoinedRow = JoinedRow(
    id: int,
    studentId: Value,
    studentName: Value,
    courseId: Value,
    courseName: Value,
    mark: Value)
}
