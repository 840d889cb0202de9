/**
 * Request sequences against a fresh database, stated as what each handler
 * returns or raises; the lemmas of module Schema say how `db_operation`
 * answers each raised integrity error.
 */
module Scenarios {
  import opened Outcomes
  import opened Rows
  import opened Responses
  import opened Requests
  import opened Schema
  import opened Store
  import Statements
  import Seed

  /** A student body with all four fields present. */
  function StudentBody(id: Value, name: Value, lastname: Value, birthday: Value): JsonBody
  {
    map["id" := id, "name" := name, "lastname" := lastname, "birthday" := birthday]
  }

  /** Reading the four student fields out of a full body succeeds, in order. */
  lemma StudentBodyFields(id: Value, name: Value, lastname: Value, birthday: Value)
    ensures Fields(StudentBody(id, name, lastname, birthday), StudentKeys) == Ok([id, name, lastname, birthday])
  {
    var body := StudentBody(id, name, lastname, birthday);
    assert forall k :: 0 <= k < |StudentKeys| ==> StudentKeys[k] in body;
    assert Fields(body, StudentKeys).Ok?;
    var values := Fields(body, StudentKeys).value;
    assert |values| == 4;
    assert values[0] == body["id"] && values[1] == body["name"];
    assert values[2] == body["lastname"] && values[3] == body["birthday"];
    assert values == [id, name, lastname, birthday];
  }

  /** POST a full student body whose id is free: 201, and the table gains exactly that row. */
  method PostStudent(db: Database, id: string, name: string, lastname: string, birthday: string) returns (answer: Outcome)
    requires db.Valid() && id != Seed.SeedMarker && Text(id) !in db.students
    modifies db
    ensures db.Valid()
    ensures db.students == old(db.students)[Text(id) := Student(Text(id), Text(name), Text(lastname), Text(birthday))]
    ensures db.courses == old(db.courses) && db.enrollments == old(db.enrollments)
    ensures answer == Ok(Response(201, Status("created")))
  {
    var row := Student(Text(id), Text(name), Text(lastname), Text(birthday));
    TextStudentAdmitted(db.notNull, row);
    Statements.InsertAdmittedStudent(db.notNull, db.students, row);
    StudentBodyFields(row.id, row.name, row.lastname, row.birthday);
    answer := db.AddStudent(StudentBody(row.id, row.name, row.lastname, row.birthday));
  }

  /** POST a student, then GET it back by its id. */
  method CreateThenRead(notNull: set<Column>, id: string, name: string, lastname: string, birthday: string)
    returns (created: Outcome, read: Outcome)
    requires id != Seed.SeedMarker
    ensures created == Ok(Response(201, Status("created")))
    ensures read == Ok(Response(200, StudentFound(Student(Text(id), Text(name), Text(lastname), Text(birthday)))))
  {
    var db := new Database(notNull);
    created := PostStudent(db, id, name, lastname, birthday);
    read := db.GetStudent(id);
  }

  /** POSTing the same id twice: the second insert raises the UNIQUE error (answered 409). */
  method DuplicateIdConflicts(notNull: set<Column>, id: string, name: string, lastname: string, birthday: string)
    returns (second: Outcome)
    requires id != Seed.SeedMarker
    ensures second == Err(IntegrityError(UniqueStudentIdFailed()))
  {
    var db := new Database(notNull);
    TextStudentAdmitted(notNull, Student(Text(id), Text(name), Text(lastname), Text(birthday)));
    StudentBodyFields(Text(id), Text(name), Text(lastname), Text(birthday));
    var first := db.AddStudent(StudentBody(Text(id), Text(name), Text(lastname), Text(birthday)));
    second := db.AddStudent(StudentBody(Text(id), Text(name), Text(lastname), Text(birthday)));
  }

  /**
   * The seed marker creates fifteen students, the i-th readable under its
   * own seed id; seeding again collides on the first of them and raises the
   * UNIQUE error (answered 409).
   */
  method SeedTwice(notNull: set<Column>, i: nat) returns (first: Outcome, read: Outcome, second: Outcome)
    requires i < Seed.SeedCount
    ensures first == Ok(Response(201, BulkCreated(15)))
    ensures read == Ok(Response(200, StudentFound(Seed.SeedStudent(i))))
    ensures second == Err(IntegrityError(UniqueStudentIdFailed()))
  {
    var db := new Database(notNull);
    var marker: JsonBody := map["id" := Text(Seed.SeedMarker)];
    first := db.AddStudent(marker);
    Seed.SeedRowsLookup(Seed.SeedCount);
    read := db.GetStudent(Seed.SeedId(i));
    assert Text(Seed.SeedId(0)) in db.students;
    second := db.AddStudent(marker);
  }

  /** A body without "name" raises `KeyError('name')` (answered 500, with the quoted key as message). */
  method MissingFieldIsKeyError(notNull: set<Column>, id: string) returns (answer: Outcome)
    requires id != Seed.SeedMarker
    ensures answer == Err(OtherError("'name'"))
  {
    var db := new Database(notNull);
    var body: JsonBody := map["id" := Text(id), "lastname" := Text("Doe")];
    FirstMissingKey(body, StudentKeys, 1);
    assert KeyErrorText(StudentKeys[1]) == "'name'";
    answer := db.AddStudent(body);
  }

  /** A JSON null for a name the schema declares NOT NULL raises the NOT NULL error (answered 400). */
  method NullNameIsRefused(notNull: set<Column>, id: string) returns (answer: Outcome)
    requires id != Seed.SeedMarker
    requires StudentName in notNull
    ensures answer == Err(IntegrityError(NotNullFailed(StudentName)))
  {
    var db := new Database(notNull);
    var row := Student(Text(id), Null, Text("Doe"), Text("2000-01-01"));
    StudentBodyFields(row.id, row.name, row.lastname, row.birthday);
    assert AdmitsAll(notNull, StudentCells(row)[..1]);
    FirstNullViolationAt(notNull, StudentCells(row), 1);
    answer := db.AddStudent(StudentBody(row.id, row.name, row.lastname, row.birthday));
  }

  /** Reading the two course fields out of a full body succeeds, in order. */
  lemma CourseBodyFields(name: Value, credits: Value)
    ensures Fields(map["name" := name, "credits" := credits], CourseKeys) == Ok([name, credits])
  {
    var body := map["name" := name, "credits" := credits];
    assert forall k :: 0 <= k < |CourseKeys| ==> CourseKeys[k] in body;
    assert Fields(body, CourseKeys).Ok?;
    var values := Fields(body, CourseKeys).value;
    assert |values| == 2 && values[0] == name && values[1] == credits;
    assert values == [name, credits];
  }

  /** Reading the two required enrollment fields succeeds, in order; the absent mark reads as NULL. */
  lemma EnrollmentBodyFields(studentId: Value, courseId: Value)
    ensures Fields(map["student_id" := studentId, "course_id" := courseId], EnrollmentKeys) == Ok([studentId, courseId])
    ensures Get(map["student_id" := studentId, "course_id" := courseId], "mark") == Null
  {
    var body := map["student_id" := studentId, "course_id" := courseId];
    assert forall k :: 0 <= k < |EnrollmentKeys| ==> EnrollmentKeys[k] in body;
    assert Fields(body, EnrollmentKeys).Ok?;
    var values := Fields(body, EnrollmentKeys).value;
    assert |values| == 2 && values[0] == studentId && values[1] == courseId;
    assert values == [studentId, courseId];
  }

  /** POST a course with a name and credits that fit an INTEGER: 201, stored under the id the engine assigns. */
  method PostCourse(db: Database, name: string, credits: int, freshId: int) returns (answer: Outcome)
    requires db.Valid() && freshId !in db.courses
    requires MinInteger <= credits <= MaxInteger
    modifies db
    ensures db.Valid()
    ensures db.courses == old(db.courses)[freshId := Course(freshId, Text(name), Num(credits))]
    ensures db.students == old(db.students) && db.enrollments == old(db.enrollments)
    ensures answer == Ok(Response(201, Status("created")))
  {
    var row := Course(freshId, Text(name), Num(credits));
    assert BindsAll(CourseCells(row));
    assert AdmitsAll(db.notNull, CourseCells(row)) by {
      assert forall i :: 0 <= i < |CourseCells(row)| ==> CourseCells(row)[i].1 != Null;
    }
    CourseBodyFields(Text(name), Num(credits));
    answer := db.AddCourse(map["name" := Text(name), "credits" := Num(credits)], freshId);
  }

  /**
   * A credits value one past SQLite's INTEGER range cannot be bound: the
   * insert raises `OverflowError` (answered 500) and no course is stored.
   */
  method OversizedCreditsRefused(notNull: set<Column>) returns (answer: Outcome, listed: Outcome)
    ensures answer == Err(OtherError(Statements.IntTooLargeText))
    ensures listed == Ok(Response(200, CourseRows({})))
  {
    var db := new Database(notNull);
    var credits := Num(MaxInteger + 1);
    CourseBodyFields(Text("Math"), credits);
    assert !Bindable(CourseCells(Course(1, Text("Math"), credits))[1].1);
    answer := db.AddCourse(map["name" := Text("Math"), "credits" := credits], 1);
    listed := db.GetCourses();
    assert listed.value.body.courses == {};
  }

  /**
   * POST an enrollment of an existing student in an existing course,
   * without a mark: 201, stored with a NULL mark under the id the engine
   * assigns (so the mark column must accept NULL).
   */
  method PostEnrollment(db: Database, studentId: string, courseId: int, freshId: int) returns (answer: Outcome)
    requires db.Valid() && freshId !in db.enrollments
    requires Text(studentId) in db.students && courseId in db.courses && EnrollmentMark !in db.notNull
    requires MinInteger <= courseId <= MaxInteger
    modifies db
    ensures db.Valid()
    ensures db.enrollments == old(db.enrollments)[freshId := Enrollment(freshId, Text(studentId), Num(courseId), Null)]
    ensures db.students == old(db.students) && db.courses == old(db.courses)
    ensures answer == Ok(Response(201, Status("created")))
  {
    var row := Enrollment(freshId, Text(studentId), Num(courseId), Null);
    assert BindsAll(EnrollmentCells(row));
    assert AdmitsAll(db.notNull, EnrollmentCells(row)) by {
      assert forall i :: 0 <= i < |EnrollmentCells(row)| ==> Admits(db.notNull, EnrollmentCells(row)[i]);
    }
    EnrollmentBodyFields(Text(studentId), Num(courseId));
    answer := db.AddStudentCourse(map["student_id" := Text(studentId), "course_id" := Num(courseId)], freshId);
  }

  /** The student, course and enrollment the two enrollment scenarios start from. */
  function Ana(): Student { Student(Text("7"), Text("Ana"), Text("Lopez"), Text("2001-02-03")) }
  function Math(): Course { Course(1, Text("Math"), Num(3)) }
  function AnaInMath(): Enrollment { Enrollment(1, Text("7"), Num(1), Null) }

  /** A student, a course (given id 1) and an enrollment of the one in the other (given id 1). */
  method Enroll(notNull: set<Column>) returns (db: Database)
    requires EnrollmentMark !in notNull
    ensures fresh(db) && db.Valid() && db.notNull == notNull
    ensures db.students == map[Text("7") := Ana()]
    ensures db.courses == map[1 := Math()]
    ensures db.enrollments == map[1 := AnaInMath()]
  {
    db := new Database(notNull);
    var answer := PostStudent(db, "7", "Ana", "Lopez", "2001-02-03");
    answer := PostCourse(db, "Math", 3, 1);
    answer := PostEnrollment(db, "7", 1, 1);
  }

  /** The listing joins the enrollment with its student's and course's names, and the absent mark as NULL. */
  method EnrollThenList(notNull: set<Column>) returns (listed: Outcome)
    requires EnrollmentMark !in notNull
    ensures listed == Ok(Response(200, JoinedRows({JoinedRow(1, Text("7"), Text("Ana"), Num(1), Text("Math"), Null)})))
  {
    var db := Enroll(notNull);
    listed := db.GetStudentCourses();
    var rows := listed.value.body.rows;
    var e := db.enrollments[1];
    assert JoinsStudent(e, db.students) && JoinsCourse(e, db.courses);
    var row := JoinRow(e, db.students, db.courses);
    assert row == JoinedRow(1, Text("7"), Text("Ana"), Num(1), Text("Math"), Null);
    assert row in rows;
    assert forall x :: x in rows ==> x == row;
    assert rows == {row};
  }

  /** Deleting an enrolled student raises the foreign-key error (answered 400), and nothing changes. */
  method EnrollThenDelete(notNull: set<Column>) returns (refused: Outcome)
    requires EnrollmentMark !in notNull
    ensures refused == Err(IntegrityError(ForeignKeyFailed()))
  {
    var db := Enroll(notNull);
    assert db.enrollments[1].studentId == Text("7");
    refused := db.DeleteStudent("7");
  }

  /**
   * The "666" wipe succeeds even with an enrollment in place, and empties
   * every table: the student then reads as 404 and the listing is empty.
   */
  method EnrollThenWipe(notNull: set<Column>) returns (wiped: Outcome, read: Outcome, relisted: Outcome)
    requires EnrollmentMark !in notNull
    ensures wiped == Ok(Response(200, Status("deleted")))
    ensures read == Ok(Response(404, StudentNotFound))
    ensures relisted == Ok(Response(200, JoinedRows({})))
  {
    var db := Enroll(notNull);
    wiped := db.DeleteStudent(WipeSentinel);
    read := db.GetStudent("7");
    relisted := db.GetStudentCourses();
    assert relisted.value.body.rows == {};
  }
}
