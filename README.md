# Student records and bulk seeding of an attendance system

This project models two pieces of an attendance-management backend and
proves properties of them:

- **The student resource controller.** Five request handlers (list all,
  fetch one by key, create, update, delete) run over the student table of a
  record store. Each handler is a short chain of checks (the key exists, the
  entity validates, the store accepts the save) that ends in one HTTP status
  and body.
- **The bulk seeding of the teacher and student tables** from two lists of
  CSV rows. Every teacher row is saved, and a failed save is swallowed. When
  students are inserted, each teacher then walks the student row objects with
  a counter that restarts per teacher. It overwrites the fields of the rows
  whose 1-based position is below `studentCount` and saves them, each
  pointing at whatever that teacher's save returned.

The model has five modules:

- `Wrappers` (`wrappers.dfy`): `Option` (JavaScript's `undefined` is `None`)
  and `Result`.
- `Store` (`store.dfy`): the record store the code reaches through its ORM.
  - A table is a map from generated keys to rows, plus the key the next
    insert receives.
  - `SaveTo` is insert-or-update. A row that carries a key is stored at that
    key; a row without one gets a fresh key.
  - A save is refused as a whole when the row fails a column constraint
    (`ColumnRejected`) or shares a value of a UNIQUE column with another row
    (`UniqueViolation`). A refused save persists nothing.
  - `Consistent` is the invariant the database keeps.
  - The class `Repository` holds a table in mutable fields. Its methods are
    tied to the pure functions.
- `Entities` (`entities.dfy`): teacher and student columns, every one
  optional. The UNIQUE columns are the usernames and the student enrollment
  number.
- `Students` (`student_controller.dfy`): the class `StudentController`, with
  one method per handler, returning a `Response` (status code and body).
  Validation is an abstract function from a student to its list of failed
  constraints.
- `FakeData` (`insert_fake_data.dfy`): the seeding.
  - It is defined once as a pure reference run, `Seeded`: a fold over the
    teachers, and for each teacher a fold over the student rows.
  - It is implemented as the imperative method `InsertFakeData`. Its nested
    loops update both repositories, the array of student row objects and the
    counter, and are proved equal to the reference run.
  - The properties of the seeding are lemmas about the reference run.

Two quirks of the code are kept:

- Create saves a fresh, empty student. Update re-saves the fetched record
  unchanged. In both, the lines that would copy the request body onto the
  entity are commented out.
- A refused save in create answers 200 with a `fail` envelope. In update it
  answers 409.

The model also shows three consequences:

- The fresh student has no unique value, so create's save can only be
  refused for a column constraint.
- Re-saving a stored record unchanged is never refused. So on a consistent
  store, and with no other request running between update's lookup and its
  save, update never answers 409 and never changes the table
  (`ResaveIsIdentity`).
- The seeding writes each saved student's key back into its row object. When
  the teacher iterations run one after another, as the model runs them, a
  later teacher's save of that object therefore updates the same stored
  student rather than inserting a new one. Once all teachers are done, every
  selected row refers to what the last teacher's save returned
  (`RowsAfterTeachers`).

A reader might expect students to be linked only to teachers whose save
succeeded. The code links them to the save's result even when that result is
`undefined` because the save failed (src/index.ts:71-86). The model follows
the code: a failed save gives `None`, and the students are still saved with
`teacher == None`.

## Model

| member | source | states |
|---|---|---|
| Store.SaveTo | src/controllers/studentController.ts:56-63 | a save succeeds exactly when the row meets the column constraints and clashes with no other row on a unique value; a refused save leaves the table as it was and is a uniqueness violation exactly when the column constraints hold; a successful save stores exactly the row's columns under its own key, or under the next generated key when it has none, and returns the row with that key; no stored key is lost |
| Store.SaveKeepsConsistent | src/controllers/studentController.ts:56-63 | on a consistent table a row without a key is inserted at a key that was free, and every save, accepted or refused, leaves the table consistent |
| Store.DeleteFrom | src/controllers/studentController.ts:123 | exactly the given key is removed, every other row keeps its value, and the key counter is unchanged |
| Store.DeleteKeepsConsistent | src/controllers/studentController.ts:123 | deleting a row keeps the table invariant |
| Store.ResaveIsIdentity | src/controllers/studentController.ts:100-106 | on a consistent table, re-saving a stored row unchanged under its own key succeeds, returns that row and leaves the table exactly as it was |
| Store.Repository.Find | src/controllers/studentController.ts:30 | the lookup finds a row exactly when the key is stored, and then returns that key's columns with the key |
| Store.Repository.FindAgreesWithFindAll | src/controllers/studentController.ts:16-30 | the lookup by key agrees with any listing of the table: a key is found exactly when a listed row carries it, and the found row is that listed row |
| Store.Repository.FindAll | src/controllers/studentController.ts:16 | the returned list holds every stored row exactly once, each with its key and its stored columns |
| Store.Repository.Save | src/controllers/studentController.ts:59 | the repository's new table and the returned result are those of the pure save on the old table; the save is recorded; the invariant is kept |
| Store.Repository.Delete | src/controllers/studentController.ts:123 | the repository's new table is the old one minus the key; the invariant is kept |
| Entities.NewStudent | src/controllers/studentController.ts:41-47 | a freshly constructed student has every column unset and so holds no unique value |
| Students.StudentController.GetAll | src/controllers/studentController.ts:13-20 | always 200 with a success envelope, message 'Data Found', error false and data listing every stored student exactly once; the store is not modified |
| Students.StudentController.GetOneById | src/controllers/studentController.ts:22-35 | 200 exactly when the key is stored, with that key's record in a success envelope; otherwise 404 carrying the lookup error; the store is not modified |
| Students.StudentController.Create | src/controllers/studentController.ts:37-67 | 400 with the error list exactly when the empty student fails validation, and then no save and no change; otherwise exactly one save of the empty student, whatever the body; a refused save gives 200 with a fail envelope carrying the store's error and data false, can only be a column-constraint refusal, and changes nothing; a successful one gives 201 'Student created' and adds exactly the empty student under a key that was free |
| Students.StudentController.Update | src/controllers/studentController.ts:69-109 | an absent key gives 404 'Student not found' and no save; a stored record that fails validation gives 400 with the errors and no save; otherwise exactly one save of the fetched record, unchanged by the body, answering 409 when refused and 204 when accepted; on a consistent store the save is never refused and the table is left as it was |
| Students.StudentController.Destroy | src/controllers/studentController.ts:111-127 | an absent key gives 404 'Student not found' and no change; a stored key gives 204 and removes exactly that key; no save is made |
| Students.StudentController.DestroyThenGet | src/controllers/studentController.ts:111-127 | a delete answers 204 exactly when the key was stored, and a lookup of the same key afterwards answers 404 |
| FakeData.ReseededColumns | src/index.ts:80-86 | a selected row, once overwritten, keeps its key, username, password and roll; its name is 'A-' followed by a numeral denoting the first draw, its enrollment number is the second draw, its teacherid is cleared and its teacher reference is the given one |
| FakeData.SavedTeacher | src/index.ts:71-73 | what a teacher save gives back is undefined exactly when the row fails a column constraint or clashes on a unique value, and otherwise is the row's columns with a key |
| FakeData.Seeded | src/index.ts:52-100 | the whole seeding records one save per teacher row, in list order, keeps the number of student rows, and with student insertion off makes no student save and leaves the student table and row objects as they were |
| FakeData.DecimalStringIsNumeral | src/index.ts:84 | the decimal text of any number is a non-empty string of digits with no leading zero |
| FakeData.DecimalRoundTrip | src/index.ts:84 | reading the decimal text of a number back gives that number, so distinct draws give distinct names |
| FakeData.QuotaClosedForm | src/index.ts:76-79 | in one teacher's walk over the first n rows, the rows selected number n up to a cap of studentCount - 1, and none when studentCount is at most 1 |
| FakeData.PerTeacherBound | src/index.ts:75-79 | one teacher iteration saves at most studentCount - 1 students, and none when student insertion is off |
| FakeData.StudentsUpTo | src/index.ts:77-93 | one teacher's walk over the first j rows keeps the number of rows, leaves the student log no shorter and at most j entries longer, and leaves the teacher table and the teacher log unchanged |
| FakeData.StudentStep | src/index.ts:78-92 | the visit of the row at position j, after the first j, keeps the number of rows, leaves the student log no shorter and at most j + 1 entries longer than at the start of the walk, and leaves the teacher table and the teacher log unchanged |
| FakeData.TeachersUpTo | src/index.ts:70-95 | the first i teacher iterations record exactly i teacher saves, never shorten the student log, and keep the number of student rows |
| FakeData.TeacherStep | src/index.ts:70-94 | one more teacher iteration records exactly one more teacher save, never shortens the student log, and keeps the number of student rows |
| FakeData.TeachersKeepStudentLog | src/index.ts:70-95 | the teacher iterations keep every earlier student save in the log, in place: the log before them is a prefix of the log after |
| FakeData.TeacherStepLog | src/index.ts:70-73 | a teacher iteration keeps the earlier teacher saves, records one save of its own teacher row, and a saved teacher is that row's columns under the key the store chose |
| FakeData.StepLogEntry | src/index.ts:78-91 | visiting a row appends one save exactly when its counter is below studentCount, keeps the earlier log, and that save is of this row in this teacher's iteration, overwritten from the next two draws and pointed at this teacher's save result |
| FakeData.StudentPassAttempts | src/index.ts:77-91 | one teacher's walk keeps the earlier log as a prefix and appends only saves of selected rows it visited, each in that teacher's iteration, with its fields overwritten from the draws at twice its log index and the next one and its reference set to that teacher's save result |
| FakeData.StudentPassRows | src/index.ts:79-92 | one teacher's walk never changes username, password or roll, leaves rows beyond the visited prefix and rows past the cutoff exactly as they were, and points every selected visited row at that teacher's save result |
| FakeData.StudentPassStore | src/index.ts:89-91 | one teacher's walk loses no stored student key, keeps the key of every successful save in the table, and keeps the student table invariant, whatever saves fail |
| FakeData.StudentPassCount | src/index.ts:76-79 | one teacher's walk adds exactly its quota of saves to its own count and none to any other teacher's |
| FakeData.TeacherSavesInOrder | src/index.ts:70-73 | every teacher row gets exactly one save, made in list order, and a failed save does not stop the iterations; a successful save returns the row's columns with a key |
| FakeData.NoStudentSavesWithoutInsert | src/index.ts:75 | with student insertion off, no student save is made, no row object is touched and the student table is unchanged |
| FakeData.RowsAfterTeachers | src/index.ts:79-92 | after the teacher iterations every row keeps username, password and roll; rows past the cutoff are untouched; with insertion on, every selected row refers to what the last teacher's save returned, undefined when it failed |
| FakeData.StudentSavesShaped | src/index.ts:77-91 | every logged student save is of a row at a 1-based position below studentCount, made in one of the teacher iterations run so far; its teacherid is cleared, its name is 'A-' followed by the decimal text of the draw at twice its log index, its enrollment number is the next draw (both in [1, 9999999]), its other columns are as read, and its teacher reference is what that teacher's save returned |
| FakeData.StudentSavesPerTeacher | src/index.ts:76-79 | each teacher's iteration makes exactly the per-teacher quota of student saves, which is at most studentCount - 1; teachers not yet reached make none |
| FakeData.NothingRolledBack | src/index.ts:89-91 | no key of either table is lost, every successful student and teacher save keeps its key in its table, and both table invariants are kept, whatever saves fail |
| FakeData.NoDanglingTeacher | src/index.ts:70-91 | every student save that refers to a teacher refers to one whose key is in the final teacher table |
| FakeData.ReseedAndSave | src/index.ts:80-91 | a selected row object is overwritten to the reseeded row and saved once; the repository's new table is that of the pure save and exactly that row is added to its record of saves; on success the row object takes the generated key |
| FakeData.VisitSelectedRow | src/index.ts:80-91 | the loop body on a selected row leaves the repository, the row objects, the log and the draw cursor as one step of the reference walk does, and the one save it makes is the one added to the log |
| FakeData.VisitRow | src/index.ts:78-92 | one pass of the student loop body leaves the repository, the row objects, the log and the draw cursor as one step of the reference walk does, and the saves the repository records are exactly the ones added to the log |
| FakeData.VisitStudents | src/index.ts:76-93 | one teacher's loop over the student row objects leaves the student repository, the row objects, the save log and the draw cursor as the reference walk over all rows does, and the saves the repository records are exactly the ones added to the log |
| FakeData.InsertFakeData | src/index.ts:52-100 | the seeding leaves both repositories, the student row objects and the logs of every save exactly as the reference run does, and keeps both table invariants; the teacher repository records exactly one save per teacher row, in list order, the student repository exactly the rows of the student log, and none when student insertion is off |

## Left out

- Express routing, middleware, static files, views and the server start are
  HTTP plumbing and are not modelled.
- The database connection, its configuration and the development routes are
  environment and I/O, and are not modelled.
- Loading the two CSV files is file I/O. The rows are inputs: a sequence of
  teacher rows and an array of student row objects.
- `Math.random` is replaced by an input function `rand`: the n-th draw is
  `rand(n)`, an integer in [1, 9999999]. Two draws are consumed per selected
  row, in visiting order.
- The `async` callbacks of both `forEach` loops are started without being
  awaited (src/index.ts:70, 77, 89), so in the program the saves may
  interleave: every teacher save starts before any student save, and the
  student row objects are shared by all teacher iterations. A later teacher
  may overwrite a row object before an earlier save of it has written back a
  key, and its save then inserts again or clashes. The model runs the
  iterations one after the other, in list order, and does not capture that
  interleaving or the sharing of row objects across it.
- The validator is an abstract function from a student to its failed
  constraints. The entity decorators that define it are not part of this
  model.
- The entity classes are not part of this model. The model takes the
  usernames and the student enrollment number as the UNIQUE columns, and
  every column as optional. All other column constraints are one abstract
  predicate of the schema.
- The store generates natural-number keys from a counter, not uuid strings.
  Equality of keys is all the model relies on.
- Students.StudentController: each handler runs alone. The server may run
  other requests between a handler's awaited store calls
  (src/controllers/studentController.ts:16, 30, 59, 77, 102, 118), and the
  model does not capture that interleaving. For instance, a delete of the same
  key between update's lookup and its save would make the save re-insert the
  row, and a save refused after such a change would answer 409. The model
  cannot express either outcome. The contracts of `GetOneById`, `Create`,
  `Update` and `Destroy` hold only for a handler that runs with no other
  request in between.
- Store.SaveTo: a save that fails for a reason other than a constraint
  (lost connection, timeout) is not modelled.
- Store.Repository.Find: a lookup fails only for an absent key. The handlers
  answer 404 for any failure of `findOneOrFail`
  (src/controllers/studentController.ts:32-34, 78-81, 119-121). A failure for
  another reason, such as a lost connection, is not modelled, so the model
  answers 404 only when the key is not stored.
- Store.Repository.Save: the ORM's skipping of unset properties on update is
  not modelled. Every save writes the row's whole column set.
- Students.StudentController.Destroy: the delete call is not awaited, and a
  failure of it (a referencing row, a lost connection) is not modelled. The
  model performs the delete before the response.
- Students.StudentController.GetOneById: the lookup error is modelled by the
  key it failed for, not by the ORM's error object.
- The request body is read into a `Payload` and used by no handler, as in the
  code. The request's key is already a store key.
- Logging of caught errors is output only, and is not modelled.
- `studentCount` is a JavaScript number. It is modelled as an integer, so
  fractional values are not modelled.
- The default arguments (`isStudentInsert = true`, `studentCount = 3`) are
  not modelled separately; every argument is an input of `InsertFakeData`.
- Authentication and the attendance routes are not part of this model.
