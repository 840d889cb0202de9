/**
 * The service's handlers as operations on the three tables. Each handler
 * reads its request fields (a missing one raises `KeyError`), issues its
 * statement(s), and commits; a raised error is returned as `Err` and
 * nothing is committed, so the tables keep their previous contents.
 */
module Store {
  import opened Outcomes
  import opened Rows
  import opened Responses
  import opened Requests
  import opened Schema
  import opened Statements
  import Seed

  /** The student id that turns `DELETE /students/<id>` into a wipe of all three tables. */
  const WipeSentinel: string := "666"

  const StudentKeys: seq<string> := ["id", "name", "lastname", "birthday"]
  const StudentUpdateKeys: seq<string> := ["name", "lastname", "birthday"]
  const CourseKeys: seq<string> := ["name", "credits"]
  const EnrollmentKeys: seq<string> := ["student_id", "course_id"]
  const EnrollmentUpdateKeys: seq<string> := ["student_id", "course_id", "mark"]

  function Created(): Response { Response(201, Status("created")) }
  function Updated(): Response { Response(200, Status("updated")) }
  function Deleted(): Response { Response(200, Status("deleted")) }

  /**
   * The handler answered `success` and committed what its statement
   * produced, or raised the statement's error and committed nothing.
   */
  predicate Committed<M(==)>(statement: Result<M, DbError>, success: Response, before: M, after: M, r: Outcome)
  {
    && (statement.Ok? ==> r == Ok(success) && after == statement.value)
    && (statement.Err? ==> r == Err(statement.error) && after == before)
  }

  /** One of the fifteen seed ids is already taken. */
  predicate SeedCollides(students: Students)
  {
    exists j :: 0 <= j < Seed.SeedCount && Text(Seed.SeedId(j)) in students
  }

  /**
   * One iteration of the seed loop: inserting the i-th seed row into the
   * staged table fails exactly when its id was already taken before the
   * loop, and otherwise stages one more seed row.
   */
  lemma SeedStep(notNull: set<Column>, students: Students, staged: Students, i: nat)
    requires i < Seed.SeedCount
    requires staged == students + Seed.SeedRows(i)
    ensures InsertStudent(notNull, staged, Seed.SeedStudent(i)).Err? <==> Text(Seed.SeedId(i)) in students
    ensures InsertStudent(notNull, staged, Seed.SeedStudent(i)).Err? ==>
      InsertStudent(notNull, staged, Seed.SeedStudent(i)).error == IntegrityError(UniqueStudentIdFailed())
    ensures InsertStudent(notNull, staged, Seed.SeedStudent(i)).Ok? ==>
      InsertStudent(notNull, staged, Seed.SeedStudent(i)).value == students + Seed.SeedRows(i + 1)
  {
    var row := Seed.SeedStudent(i);
    TextStudentAdmitted(notNull, row);
    InsertAdmittedStudent(notNull, staged, row);
    Seed.SeedRowsContents(i);
    assert row.id in staged <==> row.id in students;
    StageOneMore(students, staged, i);
  }

  /** None of the first n seed ids is taken. */
  predicate SeedFreeBelow(students: Students, n: nat)
  {
    forall j :: 0 <= j < n ==> Text(Seed.SeedId(j)) !in students
  }

  /** The loop's check of the i-th seed id extends what is known to be free. */
  lemma SeedFreeOneMore(students: Students, i: nat)
    requires SeedFreeBelow(students, i)
    requires Text(Seed.SeedId(i)) !in students
    ensures SeedFreeBelow(students, i + 1)
  {
  }

  /** Staging the i-th seed row extends the staged table by one seed row. */
  lemma StageOneMore(students: Students, staged: Students, i: nat)
    requires i < Seed.SeedCount
    requires staged == students + Seed.SeedRows(i)
    ensures staged[Text(Seed.SeedId(i)) := Seed.SeedStudent(i)] == students + Seed.SeedRows(i + 1)
  {
  }

  /**
   * Committing the first n seed rows, none of whose ids was taken, adds n
   * rows and keeps the tables consistent (seed rows hold no NULL and
   * nothing refers to them yet).
   */
  lemma SeedCommit(notNull: set<Column>, students: Students, courses: Courses, enrollments: Enrollments, n: nat)
    requires Consistent(notNull, students, courses, enrollments)
    requires n <= Seed.SeedCount
    requires SeedFreeBelow(students, n)
    ensures Consistent(notNull, students + Seed.SeedRows(n), courses, enrollments)
  {
    var seeded := Seed.SeedRows(n);
    Seed.SeedRowsContents(n);
    var after := students + seeded;
    forall k | k in seeded
      ensures AdmitsAll(notNull, StudentCells(seeded[k]))
    {
      assert Seed.NoNullColumn(seeded[k]);
      TextStudentAdmitted(notNull, seeded[k]);
    }
    forall k | k in enrollments
      ensures StudentKeyHolds(enrollments[k], after)
    {
      assert StudentKeyHolds(enrollments[k], students);
    }
  }

  /** Committing the first n seed rows, none of whose ids was taken, adds exactly n rows. */
  lemma SeedGrowsTable(students: Students, n: nat)
    requires n <= Seed.SeedCount
    requires SeedFreeBelow(students, n)
    ensures |students + Seed.SeedRows(n)| == |students| + n
  {
    var seeded := Seed.SeedRows(n);
    Seed.SeedRowsContents(n);
    Seed.SeedRowsAvoid(students, n);
    assert (students + seeded).Keys == students.Keys + seeded.Keys;
  }

  /** The student row of a join, when the enrollment's student_id matches one. */
  predicate JoinsStudent(e: Enrollment, students: Students)
  {
    e.studentId != Null && e.studentId in students
  }

  /** The course row of a join, when the enrollment's course_id matches one. */
  predicate JoinsCourse(e: Enrollment, courses: Courses)
  {
    CourseKeyResolves(e, courses)
  }

  /** The listing's row for an enrollment that joins: the enrollment with its student's and course's names. */
  function JoinRow(e: Enrollment, students: Students, courses: Courses): (row: JoinedRow)
    requires JoinsStudent(e, students) && JoinsCourse(e, courses)
  {
    JoinedRow(e.id, e.studentId, students[e.studentId].name, e.courseId, courses[e.courseId.n].name, e.mark)
  }

  /**
   * `SELECT ... FROM student_course sc JOIN student s ON sc.student_id = s.id
   * JOIN course c ON sc.course_id = c.id`: one row per enrollment whose
   * student and course both exist.
   */
  function Joined(students: Students, courses: Courses, enrollments: Enrollments): (rows: set<JoinedRow>)
    ensures forall k :: k in enrollments && JoinsStudent(enrollments[k], students) && JoinsCourse(enrollments[k], courses) ==>
      JoinRow(enrollments[k], students, courses) in rows
    ensures forall row :: row in rows ==>
      exists k ::
        && k in enrollments
        && JoinsStudent(enrollments[k], students) && JoinsCourse(enrollments[k], courses)
        && row == JoinRow(enrollments[k], students, courses)
  {
    set k | k in enrollments && JoinsStudent(enrollments[k], students) && JoinsCourse(enrollments[k], courses)
      :: JoinRow(enrollments[k], students, courses)
  }

  /**
   * With the foreign keys enforced, the inner join loses exactly the
   * enrollments with a NULL student_id or course_id, and every listed row
   * carries its enrollment's own id and the names of the rows it refers to.
   */
  lemma ListingDropsOnlyNullKeys(notNull: set<Column>, students: Students, courses: Courses, enrollments: Enrollments)
    requires Consistent(notNull, students, courses, enrollments)
    ensures forall k :: k in enrollments ==>
      ((JoinsStudent(enrollments[k], students) && JoinsCourse(enrollments[k], courses)) <==>
       (enrollments[k].studentId != Null && enrollments[k].courseId != Null))
    ensures forall row :: row in Joined(students, courses, enrollments) ==>
      && row.id in enrollments
      && row.studentId == enrollments[row.id].studentId && row.studentId in students
      && row.studentName == students[row.studentId].name
      && row.courseId == enrollments[row.id].courseId && row.courseId.Num? && row.courseId.n in courses
      && row.courseName == courses[row.courseId.n].name
      && row.mark == enrollments[row.id].mark
  {
    forall k | k in enrollments
      ensures (JoinsStudent(enrollments[k], students) && JoinsCourse(enrollments[k], courses)) <==>
        (enrollments[k].studentId != Null && enrollments[k].courseId != Null)
    {
      assert StudentKeyHolds(enrollments[k], students) && CourseKeyHolds(enrollments[k], courses);
    }
  }

  /**
   * The loop of the seed branch: the fifteen inserts run against a staged
   * copy of the table, since their rows become visible only at the commit.
   * The first insert whose id is taken stops the loop with the engine's
   * UNIQUE error.
   */
  method StageSeedRows(notNull: set<Column>, students: Students) returns (staged: Result<Students, DbError>)
    ensures staged.Err? <==> SeedCollides(students)
    ensures staged.Err? ==> staged.error == IntegrityError(UniqueStudentIdFailed())
    ensures staged.Ok? ==> staged.value == students + Seed.SeedRows(Seed.SeedCount) && SeedFreeBelow(students, Seed.SeedCount)
  {
    var rows := students;
    for i := 0 to Seed.SeedCount
      invariant rows == students + Seed.SeedRows(i)
      invariant SeedFreeBelow(students, i)
    {
      SeedStep(notNull, students, rows, i);
      var inserted := InsertStudent(notNull, rows, Seed.SeedStudent(i));
      if inserted.Err? {
        staged := Err(inserted.error);
        return;
      }
      SeedFreeOneMore(students, i);
      rows := inserted.value;
    }
    staged := Ok(rows);
  }

  class Database {
    /** The columns the schema declares NOT NULL. */
    const notNull: set<Column>
    var students: Students
    var courses: Courses
    var enrollments: Enrollments

    ghost predicate Valid()
      reads this
    {
      Consistent(notNull, students, courses, enrollments)
    }

    constructor (notNull: set<Column>)
      ensures Valid() && this.notNull == notNull
      ensures students == map[] && courses == map[] && enrollments == map[]
    {
      this.notNull := notNull;
      students, courses, enrollments := map[], map[], map[];
    }

    /** `_get_students`: every student row, each once. */
    method GetStudents() returns (r: Outcome)
      requires Valid()
      ensures r.Ok? && r.value.code == 200 && r.value.body.StudentRows?
      ensures forall s :: s in r.value.body.students <==> s.id in students && students[s.id] == s
    {
      var rows := set k | k in students :: students[k];
      forall s | s in rows
        ensures s.id in students && students[s.id] == s
      {
        var k :| k in students && students[k] == s;
      }
      r := Ok(Response(200, StudentRows(rows)));
    }

    /** `_get_courses`: every course row, each once. */
    method GetCourses() returns (r: Outcome)
      requires Valid()
      ensures r.Ok? && r.value.code == 200 && r.value.body.CourseRows?
      ensures forall c :: c in r.value.body.courses <==> c.id in courses && courses[c.id] == c
    {
      var rows := set k | k in courses :: courses[k];
      forall c | c in rows
        ensures c.id in courses && courses[c.id] == c
      {
        var k :| k in courses && courses[k] == c;
      }
      r := Ok(Response(200, CourseRows(rows)));
    }

    /** `_get_student`: the row with the path's id, or 404. */
    method GetStudent(id: string) returns (r: Outcome)
      requires Valid()
      ensures r.Ok?
      ensures r.value.code == 200 <==> Text(id) in students
      ensures r.value.code == 200 ==> r.value.body == StudentFound(students[Text(id)]) && r.value.body.row.id == Text(id)
      ensures r.value.code != 200 ==> r.value == Response(404, StudentNotFound)
    {
      if Text(id) in students {
        r := Ok(Response(200, StudentFound(students[Text(id)])));
      } else {
        r := Ok(Response(404, StudentNotFound));
      }
    }

    /**
     * `_add_student`: the marker id seeds fifteen demo students and ignores
     * every other field; any other id inserts one student from the body.
     */
    method AddStudent(body: JsonBody) returns (r: Outcome)
      requires Valid()
      modifies this
      ensures Valid()
      ensures courses == old(courses) && enrollments == old(enrollments)
      ensures r.Err? ==> students == old(students)
      ensures "id" !in body ==> r == Err(OtherError(KeyErrorText("id")))
      ensures "id" in body && body["id"] == Text(Seed.SeedMarker) ==>
        && (r.Err? <==> SeedCollides(old(students)))
        && (r.Err? ==> r.error == IntegrityError(UniqueStudentIdFailed()))
        && (r.Ok? ==>
              && r.value == Response(201, BulkCreated(Seed.SeedCount))
              && students == old(students) + Seed.SeedRows(Seed.SeedCount))
      ensures "id" in body && body["id"] != Text(Seed.SeedMarker) ==>
        var fields := Fields(body, StudentKeys);
        && (fields.Err? ==> r == Err(fields.error))
        && (fields.Ok? ==>
              var row := Student(fields.value[0], fields.value[1], fields.value[2], fields.value[3]);
              Committed(InsertStudent(notNull, old(students), row), Created(), old(students), students, r))
    {
      if "id" !in body {
        r := Err(OtherError(KeyErrorText("id")));
        return;
      }
      if body["id"] == Text(Seed.SeedMarker) {
        r := SeedStudents();
      } else {
        r := InsertOneStudent(body);
      }
    }

    /** The seed branch of `_add_student`: fifteen inserts, then one commit. */
    method SeedStudents() returns (r: Outcome)
      requires Valid()
      modifies this
      ensures Valid()
      ensures courses == old(courses) && enrollments == old(enrollments)
      ensures r.Err? <==> SeedCollides(old(students))
      ensures r.Err? ==> r.error == IntegrityError(UniqueStudentIdFailed()) && students == old(students)
      ensures r.Ok? ==>
        && r.value == Response(201, BulkCreated(Seed.SeedCount))
        && students == old(students) + Seed.SeedRows(Seed.SeedCount)
    {
      var staged := StageSeedRows(notNull, students);
      if staged.Err? {
        r := Err(staged.error);
        return;
      }
      ghost var before := students;
      students := staged.value;
      SeedCommit(notNull, before, courses, enrollments, Seed.SeedCount);
      r := Ok(Response(201, BulkCreated(Seed.SeedCount)));
    }

    /** The normal branch of `_add_student`: one row built from the body. */
    method InsertOneStudent(body: JsonBody) returns (r: Outcome)
      requires Valid()
      modifies this
      ensures Valid()
      ensures courses == old(courses) && enrollments == old(enrollments)
      ensures var fields := Fields(body, StudentKeys);
        && (fields.Err? ==> r == Err(fields.error) && students == old(students))
        && (fields.Ok? ==>
              var row := Student(fields.value[0], fields.value[1], fields.value[2], fields.value[3]);
              Committed(InsertStudent(notNull, old(students), row), Created(), old(students), students, r))
    {
      var fields := Fields(body, StudentKeys);
      if fields.Err? {
        r := Err(fields.error);
        return;
      }
      var row := Student(fields.value[0], fields.value[1], fields.value[2], fields.value[3]);
      var inserted := InsertStudent(notNull, students, row);
      if inserted.Err? {
        r := Err(inserted.error);
        return;
      }
      students := inserted.value;
      r := Ok(Created());
    }

    /**
     * `_update_student`: rewrites name, lastname and birthday of the student
     * with the path's id; an id no row has changes nothing and still
     * answers "updated".
     */
    method UpdateStudent(id: string, body: JsonBody) returns (r: Outcome)
      requires Valid()
      modifies this
      ensures Valid()
      ensures courses == old(courses) && enrollments == old(enrollments)
      ensures var fields := Fields(body, StudentUpdateKeys);
        && (fields.Err? ==> r == Err(fields.error) && students == old(students))
        && (fields.Ok? ==>
              var updated := Statements.UpdateStudent(notNull, old(students), Text(id), fields.value[0], fields.value[1], fields.value[2]);
              Committed(updated, Updated(), old(students), students, r))
    {
      var fields := Fields(body, StudentUpdateKeys);
      if fields.Err? {
        r := Err(fields.error);
        return;
      }
      var updated := Statements.UpdateStudent(notNull, students, Text(id), fields.value[0], fields.value[1], fields.value[2]);
      if updated.Err? {
        r := Err(updated.error);
        return;
      }
      students := updated.value;
      r := Ok(Updated());
    }

    /**
     * `_delete_student`: deletes the student with the path's id, except that
     * the id "666" empties all three tables, enrollments first.
     */
    method DeleteStudent(id: string) returns (r: Outcome)
      requires Valid()
      modifies this
      ensures Valid()
      ensures id != WipeSentinel ==>
        && courses == old(courses) && enrollments == old(enrollments)
        && Committed(Statements.DeleteStudent(old(students), old(enrollments), Text(id)), Deleted(), old(students), students, r)
      ensures id == WipeSentinel ==>
        r == Ok(Deleted()) && students == map[] && courses == map[] && enrollments == map[]
    {
      if id != WipeSentinel {
        var deleted := Statements.DeleteStudent(students, enrollments, Text(id));
        if deleted.Err? {
          r := Err(deleted.error);
          return;
        }
        students := deleted.value;
      } else {
        // With student_course emptied first, nothing refers to a student or
        // a course any more, so neither of the two later deletes can fail.
        var noEnrollments: Enrollments := map[];
        var noStudents := DeleteAllStudents(students, noEnrollments);
        var noCourses := DeleteAllCourses(courses, noEnrollments);
        assert noStudents.Ok? && noCourses.Ok?;
        enrollments, students, courses := noEnrollments, noStudents.value, noCourses.value;
      }
      r := Ok(Deleted());
    }

    /** `_add_course`: inserts a course under the id the engine assigns. */
    method AddCourse(body: JsonBody, freshId: int) returns (r: Outcome)
      requires Valid()
      requires freshId !in courses
      modifies this
      ensures Valid()
      ensures students == old(students) && enrollments == old(enrollments)
      ensures var fields := Fields(body, CourseKeys);
        && (fields.Err? ==> r == Err(fields.error) && courses == old(courses))
        && (fields.Ok? ==>
              var inserted := InsertCourse(notNull, old(courses), freshId, fields.value[0], fields.value[1]);
              Committed(inserted, Created(), old(courses), courses, r))
    {
      var fields := Fields(body, CourseKeys);
      if fields.Err? {
        r := Err(fields.error);
        return;
      }
      var inserted := InsertCourse(notNull, courses, freshId, fields.value[0], fields.value[1]);
      if inserted.Err? {
        r := Err(inserted.error);
        return;
      }
      courses := inserted.value;
      r := Ok(Created());
    }

    /** `_update_course`: rewrites name and credits of the course with the path's id. */
    method UpdateCourse(id: int, body: JsonBody) returns (r: Outcome)
      requires Valid()
      modifies this
      ensures Valid()
      ensures students == old(students) && enrollments == old(enrollments)
      ensures var fields := Fields(body, CourseKeys);
        && (fields.Err? ==> r == Err(fields.error) && courses == old(courses))
        && (fields.Ok? ==>
              var updated := Statements.UpdateCourse(notNull, old(courses), id, fields.value[0], fields.value[1]);
              Committed(updated, Updated(), old(courses), courses, r))
    {
      var fields := Fields(body, CourseKeys);
      if fields.Err? {
        r := Err(fields.error);
        return;
      }
      var updated := Statements.UpdateCourse(notNull, courses, id, fields.value[0], fields.value[1]);
      if updated.Err? {
        r := Err(updated.error);
        return;
      }
      courses := updated.value;
      r := Ok(Updated());
    }

    /** `_delete_course`: deletes the course with the path's id. */
    method DeleteCourse(id: int) returns (r: Outcome)
      requires Valid()
      modifies this
      ensures Valid()
      ensures students == old(students) && enrollments == old(enrollments)
      ensures Committed(Statements.DeleteCourse(old(courses), old(enrollments), id), Deleted(), old(courses), courses, r)
    {
      var deleted := Statements.DeleteCourse(courses, enrollments, id);
      if deleted.Err? {
        r := Err(deleted.error);
        return;
      }
      courses := deleted.value;
      r := Ok(Deleted());
    }

    /**
     * `_add_student_course`: inserts an enrollment under the id the engine
     * assigns; `mark` is optional and NULL when absent.
     */
    method AddStudentCourse(body: JsonBody, freshId: int) returns (r: Outcome)
      requires Valid()
      requires freshId !in enrollments
      modifies this
      ensures Valid()
      ensures students == old(students) && courses == old(courses)
      ensures var fields := Fields(body, EnrollmentKeys);
        && (fields.Err? ==> r == Err(fields.error) && enrollments == old(enrollments))
        && (fields.Ok? ==>
              var row := Enrollment(freshId, fields.value[0], fields.value[1], Get(body, "mark"));
              Committed(InsertEnrollment(notNull, students, courses, old(enrollments), row), Created(), old(enrollments), enrollments, r))
    {
      var fields := Fields(body, EnrollmentKeys);
      if fields.Err? {
        r := Err(fields.error);
        return;
      }
      var row := Enrollment(freshId, fields.value[0], fields.value[1], Get(body, "mark"));
      var inserted := InsertEnrollment(notNull, students, courses, enrollments, row);
      if inserted.Err? {
        r := Err(inserted.error);
        return;
      }
      enrollments := inserted.value;
      r := Ok(Created());
    }

    /** `_update_student_course`: rewrites student_id, course_id and mark (all three required). */
    method UpdateStudentCourse(id: int, body: JsonBody) returns (r: Outcome)
      requires Valid()
      modifies this
      ensures Valid()
      ensures students == old(students) && courses == old(courses)
      ensures var fields := Fields(body, EnrollmentUpdateKeys);
        && (fields.Err? ==> r == Err(fields.error) && enrollments == old(enrollments))
        && (fields.Ok? ==>
              var updated := UpdateEnrollment(notNull, students, courses, old(enrollments), id, fields.value[0], fields.value[1], fields.value[2]);
              Committed(updated, Updated(), old(enrollments), enrollments, r))
    {
      var fields := Fields(body, EnrollmentUpdateKeys);
      if fields.Err? {
        r := Err(fields.error);
        return;
      }
      var updated := UpdateEnrollment(notNull, students, courses, enrollments, id, fields.value[0], fields.value[1], fields.value[2]);
      if updated.Err? {
        r := Err(updated.error);
        return;
      }
      enrollments := updated.value;
      r := Ok(Updated());
    }

    /**
     * `_delete_student_course`: deletes the enrollment with the path's id, if
     * any; nothing refers to an enrollment, so only an id too wide to bind fails.
     */
    method DeleteStudentCourse(id: int) returns (r: Outcome)
      requires Valid()
      modifies this
      ensures Valid()
      ensures students == old(students) && courses == old(courses)
      ensures Committed(DeleteEnrollment(old(enrollments), id), Deleted(), old(enrollments), enrollments, r)
    {
      var deleted := DeleteEnrollment(enrollments, id);
      if deleted.Err? {
        r := Err(deleted.error);
        return;
      }
      enrollments := deleted.value;
      r := Ok(Deleted());
    }

    /** `_get_student_courses`: the joined listing. */
    method GetStudentCourses() returns (r: Outcome)
      ensures r.Ok? && r.value.code == 200 && r.value.body.JoinedRows?
      ensures r.value.body.rows == Joined(students, courses, enrollments)
    {
      r := Ok(Response(200, JoinedRows(Joined(students, courses, enrollments))));
    }
  }
}
