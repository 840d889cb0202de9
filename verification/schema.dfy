/**
 * The integrity rules the database enforces on the three tables, and the
 * messages it reports when one is broken. Which columns are declared
 * NOT NULL is a property of the database file's schema, so it is a
 * parameter (`notNull`) here.
 */
module Schema {
  import opened Outcomes
  import opened Rows
  import opened Responses
  import ErrorTranslation

  /** The columns a request can write. */
  datatype Column =
    | StudentId | StudentName | StudentLastname | StudentBirthday
    | CourseName | CourseCredits
    | EnrollmentStudentId | EnrollmentCourseId | EnrollmentMark

  /** `table.column`, as the engine names a column in its messages. */
  function ColumnName(c: Column): (s: string)
    ensures 'Q' !in s
  {
    match c
    case StudentId => "student.id"
    case StudentName => "student.name"
    case StudentLastname => "student.lastname"
    case StudentBirthday => "student.birthday"
    case CourseName => "course.name"
    case CourseCredits => "course.credits"
    case EnrollmentStudentId => "student_course.student_id"
    case EnrollmentCourseId => "student_course.course_id"
    case EnrollmentMark => "student_course.mark"
  }

  /** The engine's message for a second student with the same id. */
  function UniqueStudentIdFailed(): string
  {
    ErrorTranslation.UniqueText + (": " + ColumnName(StudentId))
  }

  /** The engine's message for a broken foreign key. */
  function ForeignKeyFailed(): string
  {
    ErrorTranslation.ForeignKeyText
  }

  /** The engine's message for a NULL written to a NOT NULL column. */
  function NotNullFailed(c: Column): string
  {
    ErrorTranslation.NotNullText + (": " + ColumnName(c))
  }

  /** A duplicate student id reaches the wrapper as 409 Conflict. */
  lemma UniqueFailureIsConflict()
    ensures ErrorTranslation.DbOperation(Err(IntegrityError(UniqueStudentIdFailed()))) ==
      Response(409, SqliteError(UniqueStudentIdFailed()))
  {
    ErrorTranslation.UniqueMessageClassified(": " + ColumnName(StudentId));
  }

  /** A broken foreign key reaches the wrapper as 400 Bad Request. */
  lemma ForeignKeyFailureIsBadRequest()
    ensures ErrorTranslation.DbOperation(Err(IntegrityError(ForeignKeyFailed()))) ==
      Response(400, SqliteError(ForeignKeyFailed()))
  {
    ErrorTranslation.ForeignKeyMessageClassified([]);
    assert ForeignKeyFailed() == ErrorTranslation.ForeignKeyText + [];
  }

  /** A NULL in a NOT NULL column reaches the wrapper as 400 Bad Request. */
  lemma NotNullFailureIsBadRequest(c: Column)
    ensures ErrorTranslation.DbOperation(Err(IntegrityError(NotNullFailed(c)))) ==
      Response(400, SqliteError(NotNullFailed(c)))
  {
    ErrorTranslation.NotNullMessageClassified(": " + ColumnName(c));
  }

  /** A cell a statement writes: its column and the value bound to it. */
  type Cell = (Column, Value)

  /** The cell does not put NULL into a NOT NULL column. */
  predicate Admits(notNull: set<Column>, cell: Cell)
  {
    cell.1 != Null || cell.0 !in notNull
  }

  predicate AdmitsAll(notNull: set<Column>, cells: seq<Cell>)
  {
    forall k :: 0 <= k < |cells| ==> Admits(notNull, cells[k])
  }

  /** Every value the statement binds fits a statement parameter. */
  predicate BindsAll(cells: seq<Cell>)
  {
    forall k :: 0 <= k < |cells| ==> Bindable(cells[k].1)
  }

  /** The first cell, in column order, that puts NULL into a NOT NULL column. */
  function FirstNullViolation(notNull: set<Column>, cells: seq<Cell>): (r: Option<Column>)
    ensures r.None? <==> AdmitsAll(notNull, cells)
    ensures r.Some? ==> exists k ::
      && 0 <= k < |cells|
      && cells[k] == (r.value, Null)
      && r.value in notNull
      && AdmitsAll(notNull, cells[..k])
  {
    if cells == [] then None
    else if !Admits(notNull, cells[0]) then Some(cells[0].0)
    else
      var rest := FirstNullViolation(notNull, cells[1..]);
      if rest.Some? then
        assert forall k :: 0 <= k < |cells| - 1 ==> cells[1..][..k] == cells[1..k + 1];
        rest
      else rest
  }

  /** The first offending cell is the one FirstNullViolation reports. */
  lemma {:induction false} FirstNullViolationAt(notNull: set<Column>, cells: seq<Cell>, k: nat)
    requires k < |cells| && cells[k].1 == Null && cells[k].0 in notNull
    requires AdmitsAll(notNull, cells[..k])
    ensures FirstNullViolation(notNull, cells) == Some(cells[k].0)
  {
    if k > 0 {
      assert Admits(notNull, cells[..k][0]);
      assert cells[1..][..k - 1] == cells[1..k];
      assert forall j :: 0 <= j < k - 1 ==> cells[1..k][j] == cells[..k][j + 1];
      FirstNullViolationAt(notNull, cells[1..], k - 1);
    }
  }

  function StudentCells(s: Student): seq<Cell>
  {
    [(StudentId, s.id), (StudentName, s.name), (StudentLastname, s.lastname), (StudentBirthday, s.birthday)]
  }

  /** A student row of text values binds and satisfies every NOT NULL declaration. */
  lemma TextStudentAdmitted(notNull: set<Column>, s: Student)
    requires s.id.Text? && s.name.Text? && s.lastname.Text? && s.birthday.Text?
    ensures BindsAll(StudentCells(s)) && AdmitsAll(notNull, StudentCells(s))
  {
  }

  function CourseCells(c: Course): seq<Cell>
  {
    [(CourseName, c.name), (CourseCredits, c.credits)]
  }

  function EnrollmentCells(e: Enrollment): seq<Cell>
  {
    [(EnrollmentStudentId, e.studentId), (EnrollmentCourseId, e.courseId), (EnrollmentMark, e.mark)]
  }

  /** The enrollment's student exists, unless its student_id is NULL (which no foreign key checks). */
  predicate StudentKeyHolds(e: Enrollment, students: map<Value, Student>)
  {
    e.studentId == Null || e.studentId in students
  }

  /** The enrollment's course exists, unless its course_id is NULL. */
  predicate CourseKeyHolds(e: Enrollment, courses: map<int, Course>)
  {
    e.courseId == Null || (e.courseId.Num? && e.courseId.n in courses)
  }

  /** Some enrollment refers to the student with id `key`. */
  predicate StudentReferenced(key: Value, enrollments: map<int, Enrollment>)
  {
    exists k :: k in enrollments && enrollments[k].studentId == key
  }

  /** Some enrollment refers to the course with id `id`. */
  predicate CourseReferenced(id: int, enrollments: map<int, Enrollment>)
  {
    exists k :: k in enrollments && enrollments[k].courseId == Num(id)
  }

  /**
   * What the database guarantees of its committed state: each row is
   * stored under its own id, no NOT NULL column holds NULL, and every
   * enrollment's foreign keys resolve.
   */
  predicate Consistent(
    notNull: set<Column>,
    students: map<Value, Student>,
    courses: map<int, Course>,
    enrollments: map<int, Enrollment>)
  {
    && (forall k :: k in students ==> students[k].id == k && AdmitsAll(notNull, StudentCells(students[k])))
    && (forall k :: k in courses ==> courses[k].id == k && AdmitsAll(notNull, CourseCells(courses[k])))
    && (forall k :: k in enrollments ==>
          && enrollments[k].id == k
          && AdmitsAll(notNull, EnrollmentCells(enrollments[k]))
          && StudentKeyHolds(enrollments[k], students)
          && CourseKeyHolds(enrollments[k], courses))
  }
}
