/**
 * The two entities the core touches. Every column may be unset (`None`), as
 * on a freshly constructed entity object or a row read from a CSV file.
 */
module Entities {
  import opened Wrappers
  import opened Store

  datatype TeacherFields = TeacherFields(
    username: Option<string>,
    password: Option<string>,
    name: Option<string>,
    email: Option<string>,
    subject: Option<string>)

  type Teacher = Row<TeacherFields>

  /**
   * A student: profile and credential columns, the `teacherid` column a CSV
   * row carries, and the reference to its owning teacher.
   */
  datatype StudentFields = StudentFields(
    username: Option<string>,
    password: Option<string>,
    name: Option<string>,
    enrollmentNo: Option<int>,
    roll: Option<string>,
    teacherId: Option<string>,
    teacher: Option<Teacher>)

  type Student = Row<StudentFields>

  /** A teacher's username is unique across all teachers. */
  function TeacherUnique(f: TeacherFields): set<UniqueValue> {
    if f.username.Some? then {Username(f.username.value)} else {}
  }

  /** A student's username and enrollment number are each unique across all students. */
  function StudentUnique(f: StudentFields): set<UniqueValue> {
    (if f.username.Some? then {Username(f.username.value)} else {})
    + (if f.enrollmentNo.Some? then {EnrollmentNo(f.enrollmentNo.value)} else {})
  }

  /** The columns of `new Student()`: nothing is set. */
  function NewStudent(): (f: StudentFields)
    ensures StudentUnique(f) == {}
  {
    StudentFields(None, None, None, None, None, None, None)
  }
}
