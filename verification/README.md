# Student–course registry: a Dafny model

The service is a small Flask application over one SQLite file with three
tables: `student` (text id, name, lastname, birthday), `course` (integer id
assigned by the engine, name, credits) and `student_course` (an enrollment:
integer id, `student_id`, `course_id`, `mark`). Every route runs its handler
inside `db_operation`, which turns a raised `sqlite3.IntegrityError` into a
JSON error whose status code depends on which constraint the message names,
and any other exception into a 500.

The model has these parts:

- `Rows` and `Responses`: the rows of the three tables, with SQLite values
  that are `Null`, text or integers. Also the response bodies the handlers
  build: `{"status": ...}`, `{"status": "bulk_created", "count": 15}`, a
  student row, `{"error": "student not found"}`, the three listings, and
  the two error shapes `{"status": "error", "sqlite_error": msg}` and
  `{"status": "error", "message": msg}`.
- `ErrorTranslation`: `db_operation` as a function from a handler outcome
  (`Ok(response)` or `Err(raised error)`) to the response sent. It has a
  proof that its left-to-right substring scan decides substring occurrence.
- `Requests`: reading `data[key]` (a missing key raises `KeyError`, whose
  text is the quoted key) and `data.get(key)`.
- `Schema`: the integrity rules the engine enforces. These are NOT NULL
  columns, the unique student id and the two foreign keys of
  `student_course`, enforced because every connection turns
  `foreign_keys` on. The module also holds the messages the engine reports.
- `Statements`: each SQL statement the handlers issue, as a function from
  the tables to the new table or the error it raises. Binding an integer
  outside SQLite's 64-bit INTEGER range raises `OverflowError` before the
  statement runs; otherwise the statement may raise an integrity error.
- `Seed`: the fifteen demo students that the marker id `"11223344"`
  creates.
- `Store`: the handlers, as methods of class `Database`. Its three fields
  hold the tables as maps keyed by id. Each method reads its fields, runs
  its statements and commits. A raised error commits nothing, so the
  tables keep their contents. `Valid()` says that every stored row sits
  under its own id, that no NOT NULL column holds NULL and that every
  foreign key resolves. Every handler preserves it.
- `Scenarios`: request sequences against a fresh database and what each
  handler returns or raises.

Behaviour the model records as the code has it:

- an update of a missing id changes nothing and still answers "updated";
- the student id `"666"` empties all three tables, enrollments first;
- the seed birthdays are `f"200{i:02d}-01-01"`, so their years have five
  digits (`20000` to `20014`);
- deleting a student or a course that an enrollment refers to raises the
  foreign-key error (400);
- the enrollment listing is an inner join, so it leaves out every
  enrollment whose `student_id` or `course_id` is NULL;
- a body or path integer outside the 64-bit range is refused when it is
  bound, with an `OverflowError` that `db_operation` answers with 500.

## Model

| member | source | states |
|---|---|---|
| ErrorTranslation.Contains | app.py:27-31 | Python's `sub in s` on strings, as a left-to-right scan for a prefix match; what it decides is proved in ContainsIff |
| ErrorTranslation.ContainsIff | app.py:27-31 | Python's `sub in s`, as a left-to-right scan, holds exactly when `sub` occurs in `s` at some index |
| ErrorTranslation.ClassifyIntegrity | app.py:27-34 | a message naming the UNIQUE text is a conflict; otherwise one naming the FOREIGN KEY or NOT NULL text is a bad request; otherwise internal; each class exactly characterised by occurrences |
| ErrorTranslation.StatusCode | app.py:28-34 | the status of each class: 409 for a conflict, 400 for a bad request, 500 otherwise |
| ErrorTranslation.DbOperation | app.py:20-42 | a returned response passes through unchanged; an integrity error becomes a `sqlite_error` body echoing the message, with 409 iff it names UNIQUE, 400 iff it names FOREIGN KEY or NOT NULL but not UNIQUE, and 500 iff it names none of the three; any other exception becomes a `message` body with 500 |
| ErrorTranslation.UniqueTakesPrecedence | app.py:27-30 | a message naming both UNIQUE and FOREIGN KEY is answered 409, because the UNIQUE test comes first |
| ErrorTranslation.UniqueMessageClassified | app.py:27-28 | any message that starts with the UNIQUE text is classified as a conflict |
| ErrorTranslation.ForeignKeyMessageClassified | app.py:29-30 | a message starting with the FOREIGN KEY text, whose detail has no 'Q', is a bad request (it cannot contain the UNIQUE text) |
| ErrorTranslation.NotNullMessageClassified | app.py:31-32 | a message starting with the NOT NULL text, whose detail has no 'Q', is a bad request |
| Requests.KeyErrorText | app.py:117 | the text of the `KeyError` a missing key raises, `str(KeyError(key))`: the key in single quotes |
| Requests.Field | app.py:117 | `data[key]` yields the body's value when the key is present and otherwise raises `KeyError` with the quoted key |
| Requests.Get | app.py:267 | `data.get("mark")` yields the value when present and NULL when absent |
| Requests.Fields | app.py:136 | the tuple of `data[...]` reads succeeds iff every key is present, then holds the values in key order; otherwise it raises the error of the first missing key |
| Requests.FirstMissingKey | app.py:117 | when all keys before the k-th are present and the k-th is missing, the reads raise exactly the k-th key's `KeyError` |
| Rows.Bindable | app.py:115-118 | a value can be bound to a statement parameter unless it is an integer outside SQLite's 64-bit INTEGER range |
| Schema.UniqueFailureIsConflict | app.py:27-28 | a duplicate student id reaches the client as 409 with the engine's message |
| Schema.ForeignKeyFailureIsBadRequest | app.py:29-30 | a broken foreign key reaches the client as 400 with the engine's message |
| Schema.NotNullFailureIsBadRequest | app.py:31-32 | a NULL in any NOT NULL column reaches the client as 400 with the engine's message |
| Schema.BindsAll | app.py:116 | every value a statement binds fits a parameter |
| Schema.FirstNullViolation | app.py:116 | no violation iff every written cell respects NOT NULL; a reported column is NOT NULL, holds NULL, and every earlier cell is admitted |
| Schema.FirstNullViolationAt | app.py:116 | the first NULL in a NOT NULL column, in column order, is the one reported |
| Schema.Consistent | app.py:14 | the committed state: each row under its own id, no NULL in a NOT NULL column, every non-NULL foreign key of an enrollment naming an existing student and course (foreign keys are on for every connection) |
| Seed.Decimal | app.py:100 | `str(i)`: a non-empty string of decimal digits whose first digit is 0 only for 0 |
| Seed.DecimalRoundTrip | app.py:100 | reading back the digits `str(i)` writes gives `i` |
| Seed.Pad2 | app.py:107 | `f"{i:02d}"`: a digit string denoting i, exactly two characters long for every i below 100 |
| Seed.SeedId | app.py:100 | the i-th seed id, the marker followed by `str(i)`; its shape is proved in SeedIdDenotesIndex |
| Seed.SeedBirthday | app.py:107 | the i-th birthday, `"200"` + the padded index + `"-01-01"`; its year is proved in SeedBirthdayYear |
| Seed.SeedStudent | app.py:101-108 | the i-th seed row (the i-th first name, the i-th last name followed by " Dummy", the i-th birthday) is keyed by its seed id and has no NULL column |
| Seed.SeedRows | app.py:99-109 | the first n seed rows keyed by id, each stored under its own id and without NULL |
| Seed.SeedIdInjective | app.py:100 | two seed ids are equal only for equal indexes |
| Seed.SeedIdsDistinct | app.py:100 | all seed ids, for every pair of indexes, are distinct |
| Seed.SeedIdDenotesIndex | app.py:100 | the i-th seed id is the marker followed by the decimal digits of i |
| Seed.SeedRowsAbsent | app.py:99-109 | no seed id of index n or above is among the first n seed rows |
| Seed.SeedRowsLookup | app.py:99-109 | the first n seed rows hold the i-th seed row under the i-th seed id, for every i below n |
| Seed.SeedRowsSize | app.py:99-109 | the first n seed rows are n distinct rows |
| Seed.SeedRowsContents | app.py:99-109 | the first n seed rows are exactly the rows of indexes below n, each under its own id, none with a NULL |
| Seed.SeedRowsAvoid | app.py:99-109 | a table that holds none of the first n seed ids shares no key with the first n seed rows |
| Seed.SeedBirthdayYear | app.py:107 | the i-th seed birthday is eleven characters long, ends in "-01-01", and its year is the five-digit number 20000 + i |
| Statements.InsertStudent | app.py:115-118 | the insert succeeds iff every value binds, no NOT NULL column gets NULL and the id is free, and then adds exactly that row; an integer too wide to bind raises `OverflowError` first; a taken id raises the UNIQUE error; a NULL raises the NOT NULL error of a NOT NULL column |
| Statements.UpdateStudent | app.py:134-137 | an integer too wide to bind raises `OverflowError`; a missing id changes nothing; otherwise the row gets the three new columns unless one puts NULL into a NOT NULL column; other rows and the key set are untouched |
| Statements.DeleteStudent | app.py:153 | an unbindable key raises `OverflowError`; otherwise deleting fails with the foreign-key error iff the student exists and an enrollment refers to it; otherwise the row is removed |
| Statements.DeleteAllStudents | app.py:156 | emptying `student` succeeds iff no enrollment refers to a student, else raises the foreign-key error |
| Statements.InsertCourse | app.py:187-190 | the insert succeeds iff name and credits bind and no NOT NULL column gets NULL, and then adds exactly the new row under the fresh id |
| Statements.UpdateCourse | app.py:205-208 | a name, credits or path id too wide to bind raises `OverflowError`; otherwise a missing id changes nothing; otherwise name and credits are replaced unless one is a forbidden NULL; other rows untouched |
| Statements.DeleteCourse | app.py:222 | a path id too wide to bind raises `OverflowError`; otherwise deleting fails with the foreign-key error iff the course exists and an enrollment refers to it; otherwise the row is removed |
| Statements.DeleteAllCourses | app.py:157 | emptying `course` succeeds iff no enrollment refers to a course, else raises the foreign-key error |
| Statements.InsertEnrollment | app.py:265-268 | the insert succeeds iff every value binds, NOT NULL holds and both foreign keys resolve (NULL keys are not checked); NOT NULL is reported before the foreign-key error |
| Statements.UpdateEnrollment | app.py:283-286 | a value or path id too wide to bind raises `OverflowError`; otherwise a missing id changes nothing; otherwise the row is replaced iff NOT NULL holds and both foreign keys resolve, else a NOT NULL or foreign-key error |
| Statements.DeleteEnrollment | app.py:300 | the delete succeeds iff the path id binds, and then removes the enrollment with that id, if any |
| Statements.ParentFirstWipeFails | app.py:155-157 | with an enrollment referring to a student, emptying `student` before `student_course` would raise the foreign-key error; this is why the wipe clears enrollments first |
| Statements.InsertThenDeleteStudent | app.py:115-153 | inserting a student nobody refers to and then deleting it restores the table |
| Statements.UpdateStudentIdempotent | app.py:134-137 | repeating a student update that succeeded changes nothing more |
| Statements.DeleteStudentKeepsConsistent | app.py:153 | a student delete that succeeds keeps every foreign key resolving |
| Statements.DeleteCourseKeepsConsistent | app.py:222 | a course delete that succeeds keeps every foreign key resolving |
| Statements.InsertEnrollmentKeepsConsistent | app.py:265-268 | an enrollment insert that succeeds keeps the tables consistent |
| Store.SeedStep | app.py:100-109 | the i-th seed insert fails, with the UNIQUE error, exactly when its id was taken before the loop, and otherwise stages one more seed row |
| Store.SeedCommit | app.py:110 | committing the seed rows onto a consistent table whose seed ids were free keeps it consistent |
| Store.SeedGrowsTable | app.py:110-112 | the commit adds exactly as many rows as were staged |
| Store.StageSeedRows | app.py:99-109 | the loop fails iff one of the fifteen seed ids is taken, with the UNIQUE error; otherwise it yields the table plus all fifteen seed rows |
| Store.JoinRow | app.py:239-244 | the listing row of an enrollment that joins: its id, student_id, the student's name, course_id, the course's name and its mark |
| Store.Joined | app.py:237-249 | every enrollment whose student and course both exist yields its joined row, and every joined row comes from such an enrollment |
| Store.ListingDropsOnlyNullKeys | app.py:246-247 | on a consistent database the join drops exactly the enrollments with a NULL key, and each row carries its enrollment's id, keys and mark and the names of its student and course |
| Store.Database.Valid | app.py:14 | the class invariant: the three tables are Consistent under the declared NOT NULL columns |
| Store.Database.constructor | app.py:12-16 | a new database has three empty tables and is consistent |
| Store.Database.GetStudents | app.py:51-57 | answers 200 with exactly the stored student rows |
| Store.Database.GetCourses | app.py:169-175 | answers 200 with exactly the stored course rows |
| Store.Database.GetStudent | app.py:65-73 | answers 200 with the row whose id is the path's id iff one exists, else 404 with the "student not found" body |
| Store.Database.AddStudent | app.py:81-121 | a body without "id" raises its `KeyError`; the marker id seeds fifteen rows (201, count 15) unless one seed id is taken (UNIQUE error, nothing committed); any other id inserts the body's row (201) or raises the read or insert error and commits nothing; consistency is kept |
| Store.Database.SeedStudents | app.py:86-112 | the seed branch fails iff a seed id was taken, leaving the table as it was; otherwise the table gains exactly the fifteen seed rows and the answer is 201 with count 15 |
| Store.Database.InsertOneStudent | app.py:114-121 | the normal branch commits the insert of the body's row and answers 201, or raises the missing key's or the insert's error and commits nothing |
| Store.Database.UpdateStudent | app.py:130-140 | commits the student update and answers "updated" (even for a missing id), or raises its error and commits nothing |
| Store.Database.DeleteStudent | app.py:148-160 | any id but "666" commits the single delete or raises the foreign-key error; "666" empties all three tables and answers "deleted" |
| Store.Database.AddCourse | app.py:183-193 | commits the course insert under the fresh id and answers 201, or raises and commits nothing |
| Store.Database.UpdateCourse | app.py:201-211 | commits the course update and answers "updated" (even for a missing id), or raises and commits nothing |
| Store.Database.DeleteCourse | app.py:219-225 | commits the course delete and answers "deleted", or raises the foreign-key error and commits nothing |
| Store.Database.AddStudentCourse | app.py:261-271 | needs "student_id" and "course_id"; the mark is optional (NULL); commits the insert and answers 201, or raises and commits nothing |
| Store.Database.UpdateStudentCourse | app.py:279-289 | needs all three fields; commits the enrollment update and answers "updated", or raises and commits nothing |
| Store.Database.DeleteStudentCourse | app.py:297-303 | removes the enrollment with that id, if any, and answers "deleted"; only a path id too wide to bind raises, and then nothing changes |
| Store.Database.GetStudentCourses | app.py:234-252 | answers 200 with exactly the rows of the inner join |
| Scenarios.StudentBodyFields | app.py:117 | reading the four student fields out of a full body yields them in order |
| Scenarios.PostStudent | app.py:114-121 | posting a full student body with a free id answers 201 and adds exactly that row |
| Scenarios.CreateThenRead | app.py:65-121 | a student posted to a fresh database is then read back with 200 and the same row |
| Scenarios.DuplicateIdConflicts | app.py:115-118 | posting the same id twice raises the UNIQUE error on the second post |
| Scenarios.SeedTwice | app.py:86-112 | seeding answers 201 with count 15, the i-th seed row then reads back, and seeding again raises the UNIQUE error |
| Scenarios.MissingFieldIsKeyError | app.py:117 | a body without "name" raises `KeyError` with the text `'name'` |
| Scenarios.NullNameIsRefused | app.py:115-118 | a JSON null for a NOT NULL name raises the NOT NULL error naming `student.name` |
| Scenarios.CourseBodyFields | app.py:189 | reading name and credits out of a full course body yields them in order |
| Scenarios.EnrollmentBodyFields | app.py:267 | reading both ids out of an enrollment body yields them in order, and an absent mark reads as NULL |
| Scenarios.PostCourse | app.py:183-193 | posting a course answers 201 and stores it under the fresh id |
| Scenarios.OversizedCreditsRefused | app.py:183-193 | credits one past the 64-bit range raise `OverflowError` (answered 500) and the course listing stays empty |
| Scenarios.PostEnrollment | app.py:261-271 | enrolling an existing student in an existing course without a mark answers 201 and stores a NULL mark |
| Scenarios.Enroll | app.py:261-271 | a student, a course and an enrollment of one in the other, built through the handlers, give exactly these three rows |
| Scenarios.EnrollThenList | app.py:234-252 | the listing then holds exactly one row, with the student's and course's names and a NULL mark |
| Scenarios.EnrollThenDelete | app.py:152-153 | deleting the enrolled student raises the foreign-key error |
| Scenarios.EnrollThenWipe | app.py:154-157 | the "666" wipe succeeds despite the enrollment; the student then reads as 404 and the listing is empty |

## Left out

- The web layer is not modelled: Flask routing, CORS, `jsonify` serialisation and `app.run`. Each route is its handler method; the route's answer is `ErrorTranslation.DbOperation` applied to the handler's outcome.
- Connections are not modelled: opening, `row_factory`, closing, and the database file. The `PRAGMA foreign_keys = ON` of every connection is modelled as foreign keys always being enforced.
- The table definitions are not in the repository. The model assumes these: the set of NOT NULL columns is a parameter; the student id is unique; `student_course.student_id` and `course_id` refer to `student.id` and `course.id` with no ON DELETE action, so a delete of a referenced row is refused.
- SQLite type affinity and comparison across types are not modelled: a path id is compared with stored ids as text, and a text `course_id` never matches a course. NULL primary keys are not modelled either.
- JSON values other than null, strings and integers are not modelled (floats, booleans, arrays, objects). A request body that is not a JSON object is not modelled.
- The engine's choice of a fresh course or enrollment id is a parameter of `AddCourse` and `AddStudentCourse`. The caller must pass an id not in use.
- The order of listing rows is not modelled: each listing is a set.
- Concurrency between requests is not modelled, and neither is failure of the database file itself.
- Store.Database.GetStudentCourses: states its rows against `Joined`; that the join loses only NULL-keyed enrollments is proved separately, in `ListingDropsOnlyNullKeys`, under consistency.
- Scenarios: the scenario methods state what each handler returns or raises. The status code the client then sees follows from the `Schema` lemmas about `db_operation`; it is not restated per scenario.
