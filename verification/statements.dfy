/**
 * What each parameterized SQL statement the handlers issue does to the
 * tables, with the constraint checks the database applies to it (foreign
 * keys are enforced on every connection). A statement either yields the
 * new contents of the table it writes or raises an integrity error and
 * changes nothing. NOT NULL is checked before UNIQUE and before foreign
 * keys.
 */
module Statements {
  import opened Outcomes
  import opened Rows
  import opened Responses
  import opened Schema

  type Students = map<Value, Student>
  type Courses = map<int, Course>
  type Enrollments = map<int, Enrollment>

  /** The text of the `OverflowError` raised when an integer parameter does not fit SQLite's INTEGER. */
  const IntTooLargeText: string := "Python int too large to convert to SQLite INTEGER"

  /** `INSERT INTO student (id, name, lastname, birthday) VALUES (?, ?, ?, ?)` */
  function InsertStudent(notNull: set<Column>, students: Students, row: Student): (r: Result<Students, DbError>)
    ensures r.Ok? <==> BindsAll(StudentCells(row)) && AdmitsAll(notNull, StudentCells(row)) && row.id !in students
    ensures r.Ok? ==> r.value.Keys == students.Keys + {row.id} && r.value[row.id] == row
    ensures r.Ok? ==> forall k :: k in students ==> r.value[k] == students[k]
    ensures !BindsAll(StudentCells(row)) ==> r == Err(OtherError(IntTooLargeText))
    ensures BindsAll(StudentCells(row)) && AdmitsAll(notNull, StudentCells(row)) && row.id in students ==>
      r == Err(IntegrityError(UniqueStudentIdFailed()))
    ensures BindsAll(StudentCells(row)) && !AdmitsAll(notNull, StudentCells(row)) ==>
      exists c :: c in notNull && r == Err(IntegrityError(NotNullFailed(c)))
  {
    if !BindsAll(StudentCells(row)) then Err(OtherError(IntTooLargeText))
    else
      match FirstNullViolation(notNull, StudentCells(row))
      case Some(c) => Err(IntegrityError(NotNullFailed(c)))
      case None =>
        if row.id in students then Err(IntegrityError(UniqueStudentIdFailed()))
        else Ok(students[row.id := row])
  }

  /** A row that binds, without a forbidden NULL, is refused only for a taken id. */
  lemma InsertAdmittedStudent(notNull: set<Column>, students: Students, row: Student)
    requires BindsAll(StudentCells(row)) && AdmitsAll(notNull, StudentCells(row))
    ensures InsertStudent(notNull, students, row) ==
      if row.id in students then Err(IntegrityError(UniqueStudentIdFailed())) else Ok(students[row.id := row])
  {
  }

  /** `UPDATE student SET name=?, lastname=?, birthday=? WHERE id=?` */
  function UpdateStudent(notNull: set<Column>, students: Students, key: Value, name: Value, lastname: Value, birthday: Value)
    : (r: Result<Students, DbError>)
    ensures !BindsAll(StudentCells(Student(key, name, lastname, birthday))) ==> r == Err(OtherError(IntTooLargeText))
    ensures BindsAll(StudentCells(Student(key, name, lastname, birthday))) && key !in students ==> r == Ok(students)
    ensures BindsAll(StudentCells(Student(key, name, lastname, birthday))) && key in students ==>
      (r.Ok? <==> AdmitsAll(notNull, StudentCells(Student(key, name, lastname, birthday))))
    ensures r.Ok? ==> r.value.Keys == students.Keys
    ensures r.Ok? && key in students ==> r.value[key] == Student(key, name, lastname, birthday)
    ensures r.Ok? ==> forall k :: k in students && k != key ==> r.value[k] == students[k]
    ensures r.Err? && BindsAll(StudentCells(Student(key, name, lastname, birthday))) ==>
      exists c :: c in notNull && r == Err(IntegrityError(NotNullFailed(c)))
  {
    var row := Student(key, name, lastname, birthday);
    if !BindsAll(StudentCells(row)) then Err(OtherError(IntTooLargeText))
    else if key !in students then Ok(students)
    else
      match FirstNullViolation(notNull, StudentCells(row))
      case Some(c) => Err(IntegrityError(NotNullFailed(c)))
      case None => Ok(students[key := row])
  }

  /** `DELETE FROM student WHERE id = ?`: refused while an enrollment refers to the student. */
  function DeleteStudent(students: Students, enrollments: Enrollments, key: Value): (r: Result<Students, DbError>)
    ensures !Bindable(key) ==> r == Err(OtherError(IntTooLargeText))
    ensures Bindable(key) ==> (r.Err? <==> key in students && StudentReferenced(key, enrollments))
    ensures Bindable(key) && r.Err? ==> r.error == IntegrityError(ForeignKeyFailed())
    ensures r.Ok? ==> r.value == students - {key}
  {
    if !Bindable(key) then Err(OtherError(IntTooLargeText))
    else if key in students && StudentReferenced(key, enrollments) then Err(IntegrityError(ForeignKeyFailed()))
    else Ok(students - {key})
  }

  /** `DELETE FROM student`: refused while any enrollment refers to a student. */
  function DeleteAllStudents(students: Students, enrollments: Enrollments): (r: Result<Students, DbError>)
    ensures r.Ok? <==> forall k :: k in enrollments ==> enrollments[k].studentId !in students
    ensures r.Ok? ==> r.value == map[]
    ensures r.Err? ==> r.error == IntegrityError(ForeignKeyFailed())
  {
    if exists k :: k in enrollments && enrollments[k].studentId in students then Err(IntegrityError(ForeignKeyFailed()))
    else Ok(map[])
  }

  /** `INSERT INTO course (name, credits) VALUES (?, ?)`, stored under the engine's fresh id. */
  function InsertCourse(notNull: set<Column>, courses: Courses, id: int, name: Value, credits: Value)
    : (r: Result<Courses, DbError>)
    requires id !in courses
    ensures r.Ok? <==> BindsAll(CourseCells(Course(id, name, credits))) && AdmitsAll(notNull, CourseCells(Course(id, name, credits)))
    ensures r.Ok? ==> r.value.Keys == courses.Keys + {id} && r.value[id] == Course(id, name, credits)
    ensures r.Ok? ==> forall k :: k in courses ==> r.value[k] == courses[k]
    ensures !BindsAll(CourseCells(Course(id, name, credits))) ==> r == Err(OtherError(IntTooLargeText))
    ensures r.Err? && BindsAll(CourseCells(Course(id, name, credits))) ==>
      exists c :: c in notNull && r == Err(IntegrityError(NotNullFailed(c)))
  {
    var row := Course(id, name, credits);
    if !BindsAll(CourseCells(row)) then Err(OtherError(IntTooLargeText))
    else
      match FirstNullViolation(notNull, CourseCells(row))
      case Some(c) => Err(IntegrityError(NotNullFailed(c)))
      case None => Ok(courses[id := row])
  }

  /** `UPDATE course SET name=?, credits=? WHERE id=?` */
  function UpdateCourse(notNull: set<Column>, courses: Courses, id: int, name: Value, credits: Value)
    : (r: Result<Courses, DbError>)
    ensures !(BindsAll(CourseCells(Course(id, name, credits))) && Bindable(Num(id))) ==> r == Err(OtherError(IntTooLargeText))
    ensures BindsAll(CourseCells(Course(id, name, credits))) && Bindable(Num(id)) ==>
      && (id !in courses ==> r == Ok(courses))
      && (id in courses ==> (r.Ok? <==> AdmitsAll(notNull, CourseCells(Course(id, name, credits)))))
      && (r.Err? ==> exists c :: c in notNull && r == Err(IntegrityError(NotNullFailed(c))))
    ensures r.Ok? ==> r.value.Keys == courses.Keys
    ensures r.Ok? && id in courses ==> r.value[id] == Course(id, name, credits)
    ensures r.Ok? ==> forall k :: k in courses && k != id ==> r.value[k] == courses[k]
  {
    var row := Course(id, name, credits);
    if !(BindsAll(CourseCells(row)) && Bindable(Num(id))) then Err(OtherError(IntTooLargeText))
    else if id !in courses then Ok(courses)
    else
      match FirstNullViolation(notNull, CourseCells(row))
      case Some(c) => Err(IntegrityError(NotNullFailed(c)))
      case None => Ok(courses[id := row])
  }

  /** `DELETE FROM course WHERE id = ?`: refused while an enrollment refers to the course. */
  function DeleteCourse(courses: Courses, enrollments: Enrollments, id: int): (r: Result<Courses, DbError>)
    ensures !Bindable(Num(id)) ==> r == Err(OtherError(IntTooLargeText))
    ensures Bindable(Num(id)) ==> (r.Err? <==> id in courses && CourseReferenced(id, enrollments))
    ensures Bindable(Num(id)) && r.Err? ==> r.error == IntegrityError(ForeignKeyFailed())
    ensures r.Ok? ==> r.value == courses - {id}
  {
    if !Bindable(Num(id)) then Err(OtherError(IntTooLargeText))
    else if id in courses && CourseReferenced(id, enrollments) then Err(IntegrityError(ForeignKeyFailed()))
    else Ok(courses - {id})
  }

  /** `DELETE FROM course`: refused while any enrollment refers to a course. */
  function DeleteAllCourses(courses: Courses, enrollments: Enrollments): (r: Result<Courses, DbError>)
    ensures r.Ok? <==> forall k :: k in enrollments ==> !CourseKeyResolves(enrollments[k], courses)
    ensures r.Ok? ==> r.value == map[]
    ensures r.Err? ==> r.error == IntegrityError(ForeignKeyFailed())
  {
    if exists k :: k in enrollments && CourseKeyResolves(enrollments[k], courses) then Err(IntegrityError(ForeignKeyFailed()))
    else Ok(map[])
  }

  /** The enrollment's course_id names an existing course. */
  predicate CourseKeyResolves(e: Enrollment, courses: Courses)
  {
    e.courseId.Num? && e.courseId.n in courses
  }

  /** Both foreign keys of the enrollment hold. */
  predicate KeysHold(e: Enrollment, students: Students, courses: Courses)
  {
    StudentKeyHolds(e, students) && CourseKeyHolds(e, courses)
  }

  /** `INSERT INTO student_course (student_id, course_id, mark) VALUES (?, ?, ?)`, under the engine's fresh id. */
  function InsertEnrollment(notNull: set<Column>, students: Students, courses: Courses, enrollments: Enrollments, row: Enrollment)
    : (r: Result<Enrollments, DbError>)
    requires row.id !in enrollments
    ensures r.Ok? <==> BindsAll(EnrollmentCells(row)) && AdmitsAll(notNull, EnrollmentCells(row)) && KeysHold(row, students, courses)
    ensures r.Ok? ==> r.value.Keys == enrollments.Keys + {row.id} && r.value[row.id] == row
    ensures r.Ok? ==> forall k :: k in enrollments ==> r.value[k] == enrollments[k]
    ensures !BindsAll(EnrollmentCells(row)) ==> r == Err(OtherError(IntTooLargeText))
    ensures BindsAll(EnrollmentCells(row)) && AdmitsAll(notNull, EnrollmentCells(row)) && !KeysHold(row, students, courses) ==>
      r == Err(IntegrityError(ForeignKeyFailed()))
    ensures BindsAll(EnrollmentCells(row)) && !AdmitsAll(notNull, EnrollmentCells(row)) ==>
      exists c :: c in notNull && r == Err(IntegrityError(NotNullFailed(c)))
  {
    if !BindsAll(EnrollmentCells(row)) then Err(OtherError(IntTooLargeText))
    else
      match FirstNullViolation(notNull, EnrollmentCells(row))
      case Some(c) => Err(IntegrityError(NotNullFailed(c)))
      case None =>
        if !KeysHold(row, students, courses) then Err(IntegrityError(ForeignKeyFailed()))
        else Ok(enrollments[row.id := row])
  }

  /** `UPDATE student_course SET student_id=?, course_id=?, mark=? WHERE id=?` */
  function UpdateEnrollment(
    notNull: set<Column>, students: Students, courses: Courses, enrollments: Enrollments,
    id: int, studentId: Value, courseId: Value, mark: Value)
    : (r: Result<Enrollments, DbError>)
    ensures var row := Enrollment(id, studentId, courseId, mark);
      !(BindsAll(EnrollmentCells(row)) && Bindable(Num(id))) ==> r == Err(OtherError(IntTooLargeText))
    ensures var row := Enrollment(id, studentId, courseId, mark);
      BindsAll(EnrollmentCells(row)) && Bindable(Num(id)) ==>
        && (id !in enrollments ==> r == Ok(enrollments))
        && (id in enrollments ==> (r.Ok? <==> AdmitsAll(notNull, EnrollmentCells(row)) && KeysHold(row, students, courses)))
        && (r.Err? ==>
              r == Err(IntegrityError(ForeignKeyFailed())) || exists c :: c in notNull && r == Err(IntegrityError(NotNullFailed(c))))
    ensures r.Ok? ==> r.value.Keys == enrollments.Keys
    ensures r.Ok? && id in enrollments ==> r.value[id] == Enrollment(id, studentId, courseId, mark)
    ensures r.Ok? ==> forall k :: k in enrollments && k != id ==> r.value[k] == enrollments[k]
  {
    var row := Enrollment(id, studentId, courseId, mark);
    if !(BindsAll(EnrollmentCells(row)) && Bindable(Num(id))) then Err(OtherError(IntTooLargeText))
    else if id !in enrollments then Ok(enrollments)
    else
      match FirstNullViolation(notNull, EnrollmentCells(row))
      case Some(c) => Err(IntegrityError(NotNullFailed(c)))
      case None =>
        if !KeysHold(row, students, courses) then Err(IntegrityError(ForeignKeyFailed()))
        else Ok(enrollments[id := row])
  }

  /** `DELETE FROM student_course WHERE id=?`: nothing refers to an enrollment, so only the bind can fail. */
  function DeleteEnrollment(enrollments: Enrollments, id: int): (r: Result<Enrollments, DbError>)
    ensures r.Ok? <==> Bindable(Num(id))
    ensures r.Ok? ==> r.value == enrollments - {id}
    ensures r.Err? ==> r.error == OtherError(IntTooLargeText)
  {
    if !Bindable(Num(id)) then Err(OtherError(IntTooLargeText)) else Ok(enrollments - {id})
  }

  /**
   * Clearing the tables parent-first fails as soon as one enrollment refers
   * to an existing student: the wipe must clear `student_course` first.
   */
  lemma ParentFirstWipeFails(
    notNull: set<Column>, students: Students, courses: Courses, enrollments: Enrollments, k: int)
    requires Consistent(notNull, students, courses, enrollments)
    requires k in enrollments && enrollments[k].studentId != Null
    ensures DeleteAllStudents(students, enrollments) == Err(IntegrityError(ForeignKeyFailed()))
  {
    assert StudentKeyHolds(enrollments[k], students);
  }

  /** Inserting a student nobody refers to and deleting it again restores the table. */
  lemma InsertThenDeleteStudent(notNull: set<Column>, students: Students, enrollments: Enrollments, row: Student)
    requires InsertStudent(notNull, students, row).Ok?
    requires !StudentReferenced(row.id, enrollments)
    ensures DeleteStudent(InsertStudent(notNull, students, row).value, enrollments, row.id) == Ok(students)
  {
    var inserted := InsertStudent(notNull, students, row).value;
    assert inserted - {row.id} == students;
  }

  /** Repeating a student update that succeeded changes nothing more. */
  lemma UpdateStudentIdempotent(notNull: set<Column>, students: Students, key: Value, name: Value, lastname: Value, birthday: Value)
    requires UpdateStudent(notNull, students, key, name, lastname, birthday).Ok?
    ensures var once := UpdateStudent(notNull, students, key, name, lastname, birthday).value;
      UpdateStudent(notNull, once, key, name, lastname, birthday) == Ok(once)
  {
    var once := UpdateStudent(notNull, students, key, name, lastname, birthday).value;
    if key in students {
      assert once[key := Student(key, name, lastname, birthday)] == once;
    }
  }

  /** A student delete that succeeds leaves no enrollment pointing at a missing student. */
  lemma DeleteStudentKeepsConsistent(
    notNull: set<Column>, students: Students, courses: Courses, enrollments: Enrollments, key: Value)
    requires Consistent(notNull, students, courses, enrollments)
    requires DeleteStudent(students, enrollments, key).Ok?
    ensures Consistent(notNull, DeleteStudent(students, enrollments, key).value, courses, enrollments)
  {
    var after := DeleteStudent(students, enrollments, key).value;
    forall k | k in enrollments
      ensures StudentKeyHolds(enrollments[k], after)
    {
      assert StudentKeyHolds(enrollments[k], students);
      if key in students {
        assert !StudentReferenced(key, enrollments);
        assert enrollments[k].studentId != key;
      }
    }
  }

  /** A course delete that succeeds leaves no enrollment pointing at a missing course. */
  lemma DeleteCourseKeepsConsistent(
    notNull: set<Column>, students: Students, courses: Courses, enrollments: Enrollments, id: int)
    requires Consistent(notNull, students, courses, enrollments)
    requires DeleteCourse(courses, enrollments, id).Ok?
    ensures Consistent(notNull, students, DeleteCourse(courses, enrollments, id).value, enrollments)
  {
    var after := DeleteCourse(courses, enrollments, id).value;
    forall k | k in enrollments
      ensures CourseKeyHolds(enrollments[k], after)
    {
      assert CourseKeyHolds(enrollments[k], courses);
      if id in courses {
        assert !CourseReferenced(id, enrollments);
        assert enrollments[k].courseId != Num(id);
      }
    }
  }

  /** An enrollment insert that succeeds keeps every stored enrollment's references valid. */
  lemma InsertEnrollmentKeepsConsistent(
    notNull: set<Column>, students: Students, courses: Courses, enrollments: Enrollments, row: Enrollment)
    requires Consistent(notNull, students, courses, enrollments)
    requires row.id !in enrollments
    requires InsertEnrollment(notNull, students, courses, enrollments, row).Ok?
    ensures Consistent(notNull, students, courses, InsertEnrollment(notNull, students, courses, enrollments, row).value)
  {
  }
}
