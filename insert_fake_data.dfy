/**
 * Bulk seeding of the teacher and student tables from two lists of CSV rows.
 * Every teacher row is saved, and a failure is swallowed. When students are
 * inserted, each teacher then walks the same list of student row objects with
 * a counter that restarts at 0 for that teacher. Each row whose counter
 * (1-based) is below `studentCount` gets its fields overwritten and is saved
 * against the value the teacher's save returned. A failed student save is
 * logged and skipped; nothing is rolled back.
 *
 * The iterations run here one after the other. The random numbers come from
 * an input supply, the n-th draw being `rand(n)`, two per selected row: first
 * the name suffix, then the enrollment number.
 */
module FakeData {
  import opened Wrappers
  import opened Store
  import opened Entities

  /** One draw of `Math.floor(Math.random() * (10000000 - 1) + 1)`. */
  type Draw = x: int | 1 <= x <= 9999999 witness 1

  // ---------------------------------------------------------------------------
  // The decimal text JavaScript produces for `'A-' + n`

  function DigitChar(d: nat): char
    requires d < 10
  {
    (('0' as int) + d) as char
  }

  predicate IsDigits(s: string) {
    forall i :: 0 <= i < |s| ==> '0' <= s[i] <= '9'
  }

  /** The shortest decimal numeral of `n`. */
  function DecimalString(n: nat): string
    decreases n
  {
    if n < 10 then [DigitChar(n)] else DecimalString(n / 10) + [DigitChar(n % 10)]
  }

  /** The numeral is a non-empty string of digits with no leading zero. */
  lemma {:induction false} DecimalStringIsNumeral(n: nat)
    ensures var s := DecimalString(n); |s| >= 1 && IsDigits(s) && (|s| > 1 ==> s[0] != '0')
    decreases n
  {
    if n >= 10 {
      DecimalStringIsNumeral(n / 10);
    }
  }

  /** The number a numeral denotes. */
  function DecimalValue(s: string): nat
    requires IsDigits(s)
  {
    if |s| == 0 then 0 else DecimalValue(s[..|s| - 1]) * 10 + ((s[|s| - 1] as int) - ('0' as int))
  }

  /** The numeral denotes the number it was made from, so distinct draws give distinct names. */
  lemma {:induction false} DecimalRoundTrip(n: nat)
    ensures IsDigits(DecimalString(n)) && DecimalValue(DecimalString(n)) == n
    decreases n
  {
    DecimalStringIsNumeral(n);
    var s := DecimalString(n);
    if n >= 10 {
      DecimalRoundTrip(n / 10);
      assert s[..|s| - 1] == DecimalString(n / 10);
    }
  }

  // ---------------------------------------------------------------------------
  // The reference run

  /**
   * What the seeding is given: the two tables' constraints, the two
   * parameters of `insertFakeData`, and the supply of random draws.
   */
  datatype Config = Config(
    teacherSchema: Schema<TeacherFields>,
    studentSchema: Schema<StudentFields>,
    isStudentInsert: bool,
    studentCount: int,
    rand: nat -> Draw)

  /** A teacher save: the row, and what the save returned (`None` when it failed). */
  datatype TeacherAttempt = TeacherAttempt(row: Teacher, saved: Option<Teacher>)

  /** A student save: whose iteration, which row, the row as saved, and the outcome. */
  datatype StudentAttempt = StudentAttempt(teacher: nat, position: nat, row: Student, result: Result<Student, SaveError>)

  /** The state of a run: both tables, the student row objects, and the saves made so far. */
  datatype Run = Run(
    teachers: Table<TeacherFields>,
    students: Table<StudentFields>,
    rows: seq<Student>,
    teacherLog: seq<TeacherAttempt>,
    studentLog: seq<StudentAttempt>)

  /** The row at 0-based position `j` is selected: the counter is `j + 1` after its increment. */
  predicate Selected(studentCount: int, j: nat) {
    j + 1 < studentCount
  }

  /** How many of the first `n` rows are selected in one teacher's iteration. */
  function Quota(studentCount: int, n: nat): nat {
    if n == 0 then 0 else Quota(studentCount, n - 1) + (if Selected(studentCount, n - 1) then 1 else 0)
  }

  /** The first `n` rows up to a cap of `studentCount - 1` are selected, none when `studentCount` is at most 1. */
  lemma {:induction false} QuotaClosedForm(studentCount: int, n: nat)
    ensures Quota(studentCount, n)
            == if studentCount <= 1 then 0 else if n < studentCount - 1 then n else studentCount - 1
  {
    if n > 0 {
      QuotaClosedForm(studentCount, n - 1);
    }
  }

  /** How many student saves one teacher's iteration makes over `n` rows. */
  function PerTeacher(c: Config, n: nat): nat {
    if c.isStudentInsert then Quota(c.studentCount, n) else 0
  }

  /** A teacher's iteration saves at most `studentCount - 1` students, and none when insertion is off. */
  lemma PerTeacherBound(c: Config, n: nat)
    ensures PerTeacher(c, n) <= if c.studentCount > 1 then c.studentCount - 1 else 0
    ensures !c.isStudentInsert ==> PerTeacher(c, n) == 0
  {
    QuotaClosedForm(c.studentCount, n);
  }

  /** A selected row after its fields are overwritten: fresh name and enrollment number, the teacher reference set. */
  function Reseeded(stud: Student, n: Draw, m: Draw, t: Option<Teacher>): Student {
    stud.(fields := stud.fields.(name := Some("A-" + DecimalString(n)), enrollmentNo := Some(m),
                                 teacherId := None, teacher := t))
  }

  /**
   * The overwritten row keeps its key and the columns the seeding never
   * writes; its name is 'A-' followed by a numeral denoting the first draw,
   * its enrollment number is the second, its `teacherid` is cleared and its
   * reference is `t`.
   */
  lemma ReseededColumns(stud: Student, n: Draw, m: Draw, t: Option<Teacher>)
    ensures var r := Reseeded(stud, n, m, t);
      && r.id == stud.id && SameIdentity(r.fields, stud.fields)
      && r.fields.enrollmentNo == Some(m) && r.fields.teacherId == None && r.fields.teacher == t
      && var name := r.fields.name;
         && name.Some? && |name.value| >= 3 && name.value[..2] == "A-"
         && IsDigits(name.value[2..]) && DecimalValue(name.value[2..]) == n
  {
    DecimalRoundTrip(n);
    DecimalStringIsNumeral(n);
    assert ("A-" + DecimalString(n))[2..] == DecimalString(n);
  }

  /** The columns a selected row keeps: the ones the seeding never writes. */
  predicate SameIdentity(a: StudentFields, b: StudentFields) {
    a.username == b.username && a.password == b.password && a.roll == b.roll
  }

  /**
   * Teacher `ti`'s iteration over the first `j` rows, from state `s0`: a fold
   * over the rows, split into this function and `StudentStep` so that the
   * step's body is unfolded only where a proof asks for it.
   */
  function StudentsUpTo(c: Config, s0: Run, ti: nat, t: Option<Teacher>, j: nat): (r: Run)
    requires j <= |s0.rows|
    ensures |r.rows| == |s0.rows|
    ensures |s0.studentLog| <= |r.studentLog| <= |s0.studentLog| + j
    ensures r.teachers == s0.teachers && r.teacherLog == s0.teacherLog
    decreases j, 0
  {
    if j == 0 then s0 else StudentStep(c, s0, ti, t, j - 1)
  }

  /** Teacher `ti`'s visit of the row at position `j`, after its first `j` visits. */
  function StudentStep(c: Config, s0: Run, ti: nat, t: Option<Teacher>, j: nat): (r: Run)
    requires j < |s0.rows|
    ensures |r.rows| == |s0.rows|
    ensures |s0.studentLog| <= |r.studentLog| <= |s0.studentLog| + j + 1
    ensures r.teachers == s0.teachers && r.teacherLog == s0.teacherLog
    decreases j, 1
  {
    var s := StudentsUpTo(c, s0, ti, t, j);
    if !Selected(c.studentCount, j) then s
    else
      var draw := 2 * |s.studentLog|;
      var stud := Reseeded(s.rows[j], c.rand(draw), c.rand(draw + 1), t);
      var saved := SaveTo(c.studentSchema, s.students, stud);
      // the store writes the generated key back into the saved object
      var row := if saved.result.Success? then stud.(id := saved.result.value.id) else stud;
      s.(students := saved.table, rows := s.rows[j := row],
         studentLog := s.studentLog + [StudentAttempt(ti, j, stud, saved.result)])
  }

  /** What teacher row `i`'s save returned: the saved teacher, or `None` (undefined) when it failed. */
  function SavedTeacher(c: Config, s: Run, teachers: seq<Teacher>, i: nat): (r: Option<Teacher>)
    requires i < |teachers|
    ensures r.Some? <==> c.teacherSchema.admits(teachers[i].fields)
                         && !Clash(c.teacherSchema, s.teachers, TargetKey(s.teachers, teachers[i]), teachers[i].fields)
    ensures r.Some? ==> r.value.id.Some? && r.value.fields == teachers[i].fields
  {
    var saved := SaveTo(c.teacherSchema, s.teachers, teachers[i]);
    if saved.result.Success? then Some(saved.result.value) else None
  }

  /** The state after teacher row `i`'s save, whatever its outcome. */
  function AfterTeacherSave(c: Config, s: Run, teachers: seq<Teacher>, i: nat): Run
    requires i < |teachers|
  {
    s.(teachers := SaveTo(c.teacherSchema, s.teachers, teachers[i]).table,
       teacherLog := s.teacherLog + [TeacherAttempt(teachers[i], SavedTeacher(c, s, teachers, i))])
  }

  /**
   * The first `i` teacher iterations, from state `s0`: a fold over the
   * teachers, split into this function and `TeacherStep` like `StudentsUpTo`.
   */
  function TeachersUpTo(c: Config, s0: Run, teachers: seq<Teacher>, i: nat): (r: Run)
    requires i <= |teachers|
    ensures |r.rows| == |s0.rows|
    ensures |r.teacherLog| == |s0.teacherLog| + i && |s0.studentLog| <= |r.studentLog|
    decreases i, 0
  {
    if i == 0 then s0 else TeacherStep(c, s0, teachers, i - 1)
  }

  /** Teacher row `i`, after the first `i`: one save, then (if enabled) the iteration over every student row. */
  function TeacherStep(c: Config, s0: Run, teachers: seq<Teacher>, i: nat): (r: Run)
    requires i < |teachers|
    ensures |r.rows| == |s0.rows|
    ensures |r.teacherLog| == |s0.teacherLog| + i + 1 && |s0.studentLog| <= |r.studentLog|
    decreases i, 1
  {
    var s := TeachersUpTo(c, s0, teachers, i);
    var s1 := AfterTeacherSave(c, s, teachers, i);
    if c.isStudentInsert then StudentsUpTo(c, s1, i, SavedTeacher(c, s, teachers, i), |s1.rows|) else s1
  }

  /**
   * The whole of `insertFakeData`, started on two tables and the two lists of
   * rows: one save per teacher row, in list order, and with insertion off no
   * student save and no change to the student side.
   */
  function Seeded(c: Config, teacherTable: Table<TeacherFields>, studentTable: Table<StudentFields>,
                  teachers: seq<Teacher>, rows: seq<Student>): (r: Run)
    ensures |r.rows| == |rows|
    ensures |r.teacherLog| == |teachers| && forall k :: 0 <= k < |teachers| ==> r.teacherLog[k].row == teachers[k]
    ensures !c.isStudentInsert ==> r.students == studentTable && r.rows == rows && r.studentLog == []
  {
    var s0 := Run(teacherTable, studentTable, rows, [], []);
    TeacherSavesInOrder(c, s0, teachers, |teachers|);
    if c.isStudentInsert then TeachersUpTo(c, s0, teachers, |teachers|)
    else
      NoStudentSavesWithoutInsert(c, s0, teachers, |teachers|);
      TeachersUpTo(c, s0, teachers, |teachers|)
  }

  // ---------------------------------------------------------------------------
  // What one teacher's iteration over the student rows does

  /** How many of the logged student saves belong to teacher `ti`'s iteration. */
  function AttemptsBy(log: seq<StudentAttempt>, ti: nat): nat {
    if |log| == 0 then 0
    else AttemptsBy(log[..|log| - 1], ti) + (if log[|log| - 1].teacher == ti then 1 else 0)
  }

  /** The rows the logged saves handed to the student store, in log order. */
  function StudentRows(log: seq<StudentAttempt>): seq<Student> {
    if |log| == 0 then [] else StudentRows(log[..|log| - 1]) + [log[|log| - 1].row]
  }

  /** Logging one more save hands one more row to the store, after the rows it had before. */
  lemma StudentRowsSnoc(base: seq<Student>, log: seq<StudentAttempt>, e: StudentAttempt)
    ensures base + StudentRows(log + [e]) == base + StudentRows(log) + [e.row]
  {
    assert (log + [e])[..|log|] == log;
  }

  /** The key every successful student save in `log` returned is still stored in `t`. */
  ghost predicate Persisted(log: seq<StudentAttempt>, t: Table<StudentFields>) {
    forall a :: 0 <= a < |log| && log[a].result.Success? ==>
      log[a].result.value.id.Some? && log[a].result.value.id.value in t.rows
  }

  /** The key every successful teacher save in `log` returned is still stored in `t`. */
  ghost predicate PersistedTeachers(log: seq<TeacherAttempt>, t: Table<TeacherFields>) {
    forall k :: 0 <= k < |log| && log[k].saved.Some? ==>
      log[k].saved.value.id.Some? && log[k].saved.value.id.value in t.rows
  }

  /**
   * The save at log index `a` belongs to teacher `ti`'s iteration: it is of a
   * selected row, with its fields overwritten from the two draws at twice
   * `a` and its teacher reference set to `t`.
   */
  ghost predicate ShapedAt(c: Config, rows0: seq<Student>, ti: nat, t: Option<Teacher>, a: nat, e: StudentAttempt) {
    && e.teacher == ti
    && e.position < |rows0|
    && Selected(c.studentCount, e.position)
    && e.row.fields == Reseeded(rows0[e.position], c.rand(2 * a), c.rand(2 * a + 1), t).fields
  }

  /** The saves in `log` from index `from` on are shaped as above, each of one of the first `j` rows. */
  ghost predicate ShapedFrom(c: Config, rows0: seq<Student>, ti: nat, t: Option<Teacher>, j: nat, from: nat,
                             log: seq<StudentAttempt>)
  {
    forall a :: from <= a < |log| ==> log[a].position < j && ShapedAt(c, rows0, ti, t, a, log[a])
  }

  /**
   * The visit of row `j` appends to the log one save of the reseeded row,
   * with the next two draws, if the row is selected, and nothing otherwise.
   */
  lemma StepLogEntry(c: Config, s0: Run, ti: nat, t: Option<Teacher>, j: nat)
    requires j < |s0.rows|
    ensures var s := StudentsUpTo(c, s0, ti, t, j);
      var log := StudentsUpTo(c, s0, ti, t, j + 1).studentLog;
      var d := |s.studentLog|;
      && |log| == d + (if Selected(c.studentCount, j) then 1 else 0)
      && log[..d] == s.studentLog
      && (Selected(c.studentCount, j) ==>
            && log[d].teacher == ti && log[d].position == j
            && log[d].row == Reseeded(s.rows[j], c.rand(2 * d), c.rand(2 * d + 1), t))
  {
    assert StudentsUpTo(c, s0, ti, t, j + 1) == StudentStep(c, s0, ti, t, j);
  }

  /**
   * The visit of a selected row `j`: the row reseeded from the next two draws
   * is saved, the row object takes the generated key when the save succeeds,
   * and the save is logged.
   */
  lemma StepSaves(c: Config, s0: Run, ti: nat, t: Option<Teacher>, j: nat)
    requires j < |s0.rows| && Selected(c.studentCount, j)
    ensures var s := StudentsUpTo(c, s0, ti, t, j);
      var stud := Reseeded(s.rows[j], c.rand(2 * |s.studentLog|), c.rand(2 * |s.studentLog| + 1), t);
      var saved := SaveTo(c.studentSchema, s.students, stud);
      var r := StudentsUpTo(c, s0, ti, t, j + 1);
      && r.students == saved.table
      && r.rows == s.rows[j := if saved.result.Success? then stud.(id := saved.result.value.id) else stud]
      && r.studentLog == s.studentLog + [StudentAttempt(ti, j, stud, saved.result)]
  {
    assert StudentsUpTo(c, s0, ti, t, j + 1) == StudentStep(c, s0, ti, t, j);
  }

  /** The visit of an unselected row `j` changes nothing. */
  lemma StepSkips(c: Config, s0: Run, ti: nat, t: Option<Teacher>, j: nat)
    requires j < |s0.rows| && !Selected(c.studentCount, j)
    ensures StudentsUpTo(c, s0, ti, t, j + 1) == StudentsUpTo(c, s0, ti, t, j)
  {
    assert StudentsUpTo(c, s0, ti, t, j + 1) == StudentStep(c, s0, ti, t, j);
  }

  /** The visit of row `j` appends at most one save, shaped as above. */
  lemma StepShaped(c: Config, s0: Run, ti: nat, t: Option<Teacher>, j: nat, from: nat)
    requires j < |s0.rows|
    requires var s := StudentsUpTo(c, s0, ti, t, j);
      && s.rows[j] == s0.rows[j]
      && from <= |s.studentLog| && ShapedFrom(c, s0.rows, ti, t, j, from, s.studentLog)
    ensures ShapedFrom(c, s0.rows, ti, t, j + 1, from, StudentsUpTo(c, s0, ti, t, j + 1).studentLog)
  {
    var s := StudentsUpTo(c, s0, ti, t, j);
    var log := StudentsUpTo(c, s0, ti, t, j + 1).studentLog;
    var d := |s.studentLog|;
    StepLogEntry(c, s0, ti, t, j);
    forall a | from <= a < |log|
      ensures log[a].position < j + 1 && ShapedAt(c, s0.rows, ti, t, a, log[a])
    {
      if a < d {
        assert log[a] == log[..d][a];
      }
    }
  }

  /** Teacher `ti`'s iteration keeps the earlier log as a prefix. */
  lemma {:induction false} StudentPassPrefix(c: Config, s0: Run, ti: nat, t: Option<Teacher>, j: nat)
    requires j <= |s0.rows|
    ensures StudentsUpTo(c, s0, ti, t, j).studentLog[..|s0.studentLog|] == s0.studentLog
    decreases j
  {
    if j > 0 {
      var s := StudentsUpTo(c, s0, ti, t, j - 1);
      var log := StudentsUpTo(c, s0, ti, t, j).studentLog;
      StudentPassPrefix(c, s0, ti, t, j - 1);
      StepLogEntry(c, s0, ti, t, j - 1);
      assert log[..|s0.studentLog|] == log[..|s.studentLog|][..|s0.studentLog|];
    }
  }

  /** Every save teacher `ti`'s iteration appends is shaped as above. */
  lemma {:induction false} StudentPassShaped(c: Config, s0: Run, ti: nat, t: Option<Teacher>, j: nat)
    requires j <= |s0.rows|
    ensures ShapedFrom(c, s0.rows, ti, t, j, |s0.studentLog|, StudentsUpTo(c, s0, ti, t, j).studentLog)
    decreases j
  {
    if j > 0 {
      StudentPassShaped(c, s0, ti, t, j - 1);
      StudentPassUntouched(c, s0, ti, t, j - 1);
      StepShaped(c, s0, ti, t, j - 1, |s0.studentLog|);
    }
  }

  /** The saves of teacher `ti`'s iteration are appended to the log, each shaped as above. */
  lemma StudentPassAttempts(c: Config, s0: Run, ti: nat, t: Option<Teacher>, j: nat)
    requires j <= |s0.rows|
    ensures var r := StudentsUpTo(c, s0, ti, t, j);
      && r.studentLog[..|s0.studentLog|] == s0.studentLog
      && ShapedFrom(c, s0.rows, ti, t, j, |s0.studentLog|, r.studentLog)
  {
    StudentPassPrefix(c, s0, ti, t, j);
    StudentPassShaped(c, s0, ti, t, j);
  }

  /** The visit of row `j` changes only that row, keeps its untouched columns, and points it at `t` if selected. */
  lemma StepRow(c: Config, s0: Run, ti: nat, t: Option<Teacher>, j: nat)
    requires j < |s0.rows|
    ensures var s := StudentsUpTo(c, s0, ti, t, j);
      var r := StudentsUpTo(c, s0, ti, t, j + 1);
      && (forall k :: 0 <= k < |s0.rows| && k != j ==> r.rows[k] == s.rows[k])
      && SameIdentity(r.rows[j].fields, s.rows[j].fields)
      && (Selected(c.studentCount, j) ==> r.rows[j].fields.teacher == t)
      && (!Selected(c.studentCount, j) ==> r.rows[j] == s.rows[j])
  {
    assert StudentsUpTo(c, s0, ti, t, j + 1) == StudentStep(c, s0, ti, t, j);
  }

  /** Teacher `ti`'s iteration never writes a row's username, password or roll. */
  lemma {:induction false} StudentPassIdentity(c: Config, s0: Run, ti: nat, t: Option<Teacher>, j: nat)
    requires j <= |s0.rows|
    ensures var r := StudentsUpTo(c, s0, ti, t, j);
      forall k :: 0 <= k < |s0.rows| ==> SameIdentity(r.rows[k].fields, s0.rows[k].fields)
    decreases j
  {
    if j > 0 {
      StudentPassIdentity(c, s0, ti, t, j - 1);
      StepRow(c, s0, ti, t, j - 1);
    }
  }

  /** Teacher `ti`'s iteration leaves rows past the visited prefix and unselected rows as they were. */
  lemma {:induction false} StudentPassUntouched(c: Config, s0: Run, ti: nat, t: Option<Teacher>, j: nat)
    requires j <= |s0.rows|
    ensures var r := StudentsUpTo(c, s0, ti, t, j);
      forall k :: 0 <= k < |s0.rows| && (j <= k || !Selected(c.studentCount, k)) ==> r.rows[k] == s0.rows[k]
    decreases j
  {
    if j > 0 {
      StudentPassUntouched(c, s0, ti, t, j - 1);
      StepRow(c, s0, ti, t, j - 1);
    }
  }

  /** Teacher `ti`'s iteration points every selected visited row at `t`. */
  lemma {:induction false} StudentPassPointsAt(c: Config, s0: Run, ti: nat, t: Option<Teacher>, j: nat)
    requires j <= |s0.rows|
    ensures var r := StudentsUpTo(c, s0, ti, t, j);
      forall k :: 0 <= k < j && Selected(c.studentCount, k) ==> r.rows[k].fields.teacher == t
    decreases j
  {
    if j > 0 {
      StudentPassPointsAt(c, s0, ti, t, j - 1);
      StepRow(c, s0, ti, t, j - 1);
    }
  }

  /**
   * Teacher `ti`'s iteration keeps every row's untouched columns, leaves rows
   * past the visited prefix and unselected rows exactly as they were, and
   * points every selected visited row at `t`.
   */
  lemma StudentPassRows(c: Config, s0: Run, ti: nat, t: Option<Teacher>, j: nat)
    requires j <= |s0.rows|
    ensures var r := StudentsUpTo(c, s0, ti, t, j);
      && (forall k :: 0 <= k < |s0.rows| ==> SameIdentity(r.rows[k].fields, s0.rows[k].fields))
      && (forall k :: 0 <= k < |s0.rows| && (j <= k || !Selected(c.studentCount, k)) ==> r.rows[k] == s0.rows[k])
      && (forall k :: 0 <= k < j && Selected(c.studentCount, k) ==> r.rows[k].fields.teacher == t)
  {
    StudentPassIdentity(c, s0, ti, t, j);
    StudentPassUntouched(c, s0, ti, t, j);
    StudentPassPointsAt(c, s0, ti, t, j);
  }

  /** The visit of row `j` loses no stored student key. */
  lemma StepKeys(c: Config, s0: Run, ti: nat, t: Option<Teacher>, j: nat)
    requires j < |s0.rows|
    ensures StudentsUpTo(c, s0, ti, t, j).students.rows.Keys <= StudentsUpTo(c, s0, ti, t, j + 1).students.rows.Keys
  {
    assert StudentsUpTo(c, s0, ti, t, j + 1) == StudentStep(c, s0, ti, t, j);
  }

  /** The visit of row `j` keeps the student table free of unique-field clashes. */
  lemma StepConsistent(c: Config, s0: Run, ti: nat, t: Option<Teacher>, j: nat)
    requires j < |s0.rows|
    requires Consistent(c.studentSchema, StudentsUpTo(c, s0, ti, t, j).students)
    ensures Consistent(c.studentSchema, StudentsUpTo(c, s0, ti, t, j + 1).students)
  {
    var s := StudentsUpTo(c, s0, ti, t, j);
    assert StudentsUpTo(c, s0, ti, t, j + 1) == StudentStep(c, s0, ti, t, j);
    if Selected(c.studentCount, j) {
      var d := 2 * |s.studentLog|;
      SaveKeepsConsistent(c.studentSchema, s.students, Reseeded(s.rows[j], c.rand(d), c.rand(d + 1), t));
    }
  }

  /** The visit of row `j` keeps the key of every earlier successful save stored, and its own if it succeeds. */
  lemma StepPersisted(c: Config, s0: Run, ti: nat, t: Option<Teacher>, j: nat)
    requires j < |s0.rows|
    requires var s := StudentsUpTo(c, s0, ti, t, j); Persisted(s.studentLog, s.students)
    ensures var r := StudentsUpTo(c, s0, ti, t, j + 1); Persisted(r.studentLog, r.students)
  {
    var s := StudentsUpTo(c, s0, ti, t, j);
    var r := StudentsUpTo(c, s0, ti, t, j + 1);
    assert r == StudentStep(c, s0, ti, t, j);
    if Selected(c.studentCount, j) {
      forall a | 0 <= a < |r.studentLog| && r.studentLog[a].result.Success?
        ensures r.studentLog[a].result.value.id.Some? && r.studentLog[a].result.value.id.value in r.students.rows
      {
        if a < |s.studentLog| {
          assert r.studentLog[a] == s.studentLog[a];
        }
      }
    }
  }

  /** Teacher `ti`'s iteration loses no stored student key. */
  lemma {:induction false} StudentPassKeys(c: Config, s0: Run, ti: nat, t: Option<Teacher>, j: nat)
    requires j <= |s0.rows|
    ensures s0.students.rows.Keys <= StudentsUpTo(c, s0, ti, t, j).students.rows.Keys
    decreases j
  {
    if j > 0 {
      StudentPassKeys(c, s0, ti, t, j - 1);
      StepKeys(c, s0, ti, t, j - 1);
    }
  }

  /** Teacher `ti`'s iteration keeps the key of every successful save, earlier or its own, stored. */
  lemma {:induction false} StudentPassPersisted(c: Config, s0: Run, ti: nat, t: Option<Teacher>, j: nat)
    requires j <= |s0.rows| && Persisted(s0.studentLog, s0.students)
    ensures var r := StudentsUpTo(c, s0, ti, t, j); Persisted(r.studentLog, r.students)
    decreases j
  {
    if j > 0 {
      StudentPassPersisted(c, s0, ti, t, j - 1);
      StepPersisted(c, s0, ti, t, j - 1);
    }
  }

  /** Teacher `ti`'s iteration keeps the student table invariant. */
  lemma {:induction false} StudentPassConsistent(c: Config, s0: Run, ti: nat, t: Option<Teacher>, j: nat)
    requires j <= |s0.rows| && Consistent(c.studentSchema, s0.students)
    ensures Consistent(c.studentSchema, StudentsUpTo(c, s0, ti, t, j).students)
    decreases j
  {
    if j > 0 {
      StudentPassConsistent(c, s0, ti, t, j - 1);
      StepConsistent(c, s0, ti, t, j - 1);
    }
  }

  /**
   * Teacher `ti`'s iteration only adds to the student table: no key is lost,
   * the key of every successful save stays stored, and the table invariant is kept.
   */
  lemma StudentPassStore(c: Config, s0: Run, ti: nat, t: Option<Teacher>, j: nat)
    requires j <= |s0.rows|
    ensures var r := StudentsUpTo(c, s0, ti, t, j);
      && s0.students.rows.Keys <= r.students.rows.Keys
      && (Persisted(s0.studentLog, s0.students) ==> Persisted(r.studentLog, r.students))
      && (Consistent(c.studentSchema, s0.students) ==> Consistent(c.studentSchema, r.students))
  {
    StudentPassKeys(c, s0, ti, t, j);
    if Persisted(s0.studentLog, s0.students) {
      StudentPassPersisted(c, s0, ti, t, j);
    }
    if Consistent(c.studentSchema, s0.students) {
      StudentPassConsistent(c, s0, ti, t, j);
    }
  }

  /** The visit of row `j` adds one save to teacher `ti`'s count if the row is selected, and none to any other. */
  lemma StepCount(c: Config, s0: Run, ti: nat, t: Option<Teacher>, j: nat, x: nat)
    requires j < |s0.rows|
    ensures AttemptsBy(StudentsUpTo(c, s0, ti, t, j + 1).studentLog, x)
            == AttemptsBy(StudentsUpTo(c, s0, ti, t, j).studentLog, x)
               + (if x == ti && Selected(c.studentCount, j) then 1 else 0)
  {
    StepLogEntry(c, s0, ti, t, j);
  }

  /** Teacher `ti`'s iteration over `j` rows adds `Quota(studentCount, j)` saves to its own count. */
  lemma {:induction false} StudentPassOwnCount(c: Config, s0: Run, ti: nat, t: Option<Teacher>, j: nat)
    requires j <= |s0.rows|
    ensures AttemptsBy(StudentsUpTo(c, s0, ti, t, j).studentLog, ti)
            == AttemptsBy(s0.studentLog, ti) + Quota(c.studentCount, j)
    decreases j
  {
    if j > 0 {
      StudentPassOwnCount(c, s0, ti, t, j - 1);
      StepCount(c, s0, ti, t, j - 1, ti);
    }
  }

  /** Teacher `ti`'s iteration adds nothing to any other teacher's count. */
  lemma {:induction false} StudentPassOtherCount(c: Config, s0: Run, ti: nat, t: Option<Teacher>, j: nat, x: nat)
    requires j <= |s0.rows| && x != ti
    ensures AttemptsBy(StudentsUpTo(c, s0, ti, t, j).studentLog, x) == AttemptsBy(s0.studentLog, x)
    decreases j
  {
    if j > 0 {
      StudentPassOtherCount(c, s0, ti, t, j - 1, x);
      StepCount(c, s0, ti, t, j - 1, x);
    }
  }

  /** Teacher `ti`'s iteration over `j` rows makes `Quota(studentCount, j)` saves, all its own. */
  lemma StudentPassCount(c: Config, s0: Run, ti: nat, t: Option<Teacher>, j: nat, x: nat)
    requires j <= |s0.rows|
    ensures AttemptsBy(StudentsUpTo(c, s0, ti, t, j).studentLog, x)
            == AttemptsBy(s0.studentLog, x) + (if x == ti then Quota(c.studentCount, j) else 0)
  {
    if x == ti {
      StudentPassOwnCount(c, s0, ti, t, j);
    } else {
      StudentPassOtherCount(c, s0, ti, t, j, x);
    }
  }

  // ---------------------------------------------------------------------------
  // What the first `i` teacher iterations do, started with empty logs

  /** Iteration `i` records exactly one save of teacher row `i`; a saved teacher is that row with its key. */
  lemma TeacherStepLog(c: Config, s0: Run, teachers: seq<Teacher>, i: nat)
    requires i < |teachers|
    ensures var s := TeachersUpTo(c, s0, teachers, i);
      var r := TeachersUpTo(c, s0, teachers, i + 1);
      && r.teacherLog[..|s.teacherLog|] == s.teacherLog
      && r.teacherLog[|s.teacherLog|].row == teachers[i]
      && (r.teacherLog[|s.teacherLog|].saved.Some? ==>
            r.teacherLog[|s.teacherLog|].saved.value == Row(Some(TargetKey(s.teachers, teachers[i])), teachers[i].fields))
  {
    assert TeachersUpTo(c, s0, teachers, i + 1) == TeacherStep(c, s0, teachers, i);
  }

  /**
   * Every teacher row gets exactly one save, in order; its failure is
   * recorded and the loop goes on; a saved teacher is the row with a key.
   */
  lemma {:induction false} TeacherSavesInOrder(c: Config, s0: Run, teachers: seq<Teacher>, i: nat)
    requires i <= |teachers| && s0.teacherLog == []
    ensures var r := TeachersUpTo(c, s0, teachers, i);
      && |r.teacherLog| == i
      && forall k :: 0 <= k < i ==>
           && r.teacherLog[k].row == teachers[k]
           && (r.teacherLog[k].saved.Some? ==>
                 r.teacherLog[k].saved.value.id.Some? && r.teacherLog[k].saved.value.fields == teachers[k].fields)
    decreases i
  {
    if i > 0 {
      TeacherSavesInOrder(c, s0, teachers, i - 1);
      var s := TeachersUpTo(c, s0, teachers, i - 1);
      var r := TeachersUpTo(c, s0, teachers, i);
      TeacherStepLog(c, s0, teachers, i - 1);
      forall k | 0 <= k < i - 1
        ensures r.teacherLog[k] == s.teacherLog[k]
      {
        assert r.teacherLog[..i - 1][k] == r.teacherLog[k];
      }
    }
  }

  /** The first `i` teacher iterations keep the earlier student log as a prefix. */
  lemma {:induction false} TeachersKeepStudentLog(c: Config, s0: Run, teachers: seq<Teacher>, i: nat)
    requires i <= |teachers|
    ensures TeachersUpTo(c, s0, teachers, i).studentLog[..|s0.studentLog|] == s0.studentLog
    decreases i
  {
    if i > 0 {
      TeachersKeepStudentLog(c, s0, teachers, i - 1);
      var s := TeachersUpTo(c, s0, teachers, i - 1);
      var log := TeachersUpTo(c, s0, teachers, i).studentLog;
      assert TeachersUpTo(c, s0, teachers, i) == TeacherStep(c, s0, teachers, i - 1);
      if c.isStudentInsert {
        var s1 := AfterTeacherSave(c, s, teachers, i - 1);
        StudentPassPrefix(c, s1, i - 1, SavedTeacher(c, s, teachers, i - 1), |s1.rows|);
        assert log[..|s0.studentLog|] == log[..|s.studentLog|][..|s0.studentLog|];
      }
    }
  }

  /** With `isStudentInsert` false no student save is made and no row is touched. */
  lemma {:induction false} NoStudentSavesWithoutInsert(c: Config, s0: Run, teachers: seq<Teacher>, i: nat)
    requires i <= |teachers| && !c.isStudentInsert
    ensures var r := TeachersUpTo(c, s0, teachers, i);
      r.students == s0.students && r.rows == s0.rows && r.studentLog == s0.studentLog
    decreases i
  {
    if i > 0 {
      NoStudentSavesWithoutInsert(c, s0, teachers, i - 1);
    }
  }

  /**
   * Every row keeps the columns the seeding never writes; a row past the
   * cutoff is never touched; and once the teachers are done every selected
   * row refers to what the last teacher's save returned.
   */
  lemma {:induction false} RowsAfterTeachers(c: Config, s0: Run, teachers: seq<Teacher>, i: nat)
    requires i <= |teachers| && s0.teacherLog == []
    ensures var r := TeachersUpTo(c, s0, teachers, i);
      && (forall k :: 0 <= k < |s0.rows| ==> SameIdentity(r.rows[k].fields, s0.rows[k].fields))
      && (forall k :: 0 <= k < |s0.rows| && !Selected(c.studentCount, k) ==> r.rows[k] == s0.rows[k])
      && (c.isStudentInsert && i > 0 ==>
            forall k :: 0 <= k < |s0.rows| && Selected(c.studentCount, k) ==>
              r.rows[k].fields.teacher == r.teacherLog[i - 1].saved)
    decreases i
  {
    if i > 0 {
      RowsAfterTeachers(c, s0, teachers, i - 1);
      var s := TeachersUpTo(c, s0, teachers, i - 1);
      var r := TeachersUpTo(c, s0, teachers, i);
      assert r == TeacherStep(c, s0, teachers, i - 1);
      if c.isStudentInsert {
        var s1 := AfterTeacherSave(c, s, teachers, i - 1);
        var t := SavedTeacher(c, s, teachers, i - 1);
        StudentPassRows(c, s1, i - 1, t, |s1.rows|);
        assert r.teacherLog[i - 1].saved == t;
      }
    }
  }

  /**
   * Every save in `r`'s student log is of a selected row, in one of the first
   * `i` teacher iterations, with `teacherid` cleared, name `'A-' + n` and
   * enrollment number `m` for the two draws `n` and `m` at twice its log
   * index, the row's other columns as read in `rows0`, and the reference set
   * to what that teacher's save returned.
   */
  ghost predicate SavesShapedBy(c: Config, rows0: seq<Student>, r: Run, i: nat) {
    forall a :: 0 <= a < |r.studentLog| ==>
      && r.studentLog[a].teacher < i && r.studentLog[a].teacher < |r.teacherLog|
      && r.studentLog[a].position < |rows0|
      && Selected(c.studentCount, r.studentLog[a].position)
      && r.studentLog[a].row.fields
         == Reseeded(rows0[r.studentLog[a].position], c.rand(2 * a), c.rand(2 * a + 1),
                     r.teacherLog[r.studentLog[a].teacher].saved).fields
  }

  /** Teacher iteration `i` keeps the student saves shaped, given rows whose untouched columns are as read. */
  lemma TeacherStepShaped(c: Config, s0: Run, teachers: seq<Teacher>, i: nat)
    requires i < |teachers| && s0.teacherLog == []
    requires var s := TeachersUpTo(c, s0, teachers, i);
      && (forall k :: 0 <= k < |s0.rows| ==> SameIdentity(s.rows[k].fields, s0.rows[k].fields))
      && SavesShapedBy(c, s0.rows, s, i)
    ensures SavesShapedBy(c, s0.rows, TeachersUpTo(c, s0, teachers, i + 1), i + 1)
  {
    var s := TeachersUpTo(c, s0, teachers, i);
    var r := TeachersUpTo(c, s0, teachers, i + 1);
    assert r == TeacherStep(c, s0, teachers, i);
    var s1 := AfterTeacherSave(c, s, teachers, i);
    var t := SavedTeacher(c, s, teachers, i);
    assert r.teacherLog == s1.teacherLog;
    if c.isStudentInsert {
      StudentPassAttempts(c, s1, i, t, |s1.rows|);
      forall a | 0 <= a < |r.studentLog|
        ensures r.studentLog[a].teacher < i + 1 && r.studentLog[a].teacher < |r.teacherLog|
        ensures r.studentLog[a].position < |s0.rows| && Selected(c.studentCount, r.studentLog[a].position)
        ensures r.studentLog[a].row.fields
                == Reseeded(s0.rows[r.studentLog[a].position], c.rand(2 * a), c.rand(2 * a + 1),
                            r.teacherLog[r.studentLog[a].teacher].saved).fields
      {
        if a < |s.studentLog| {
          assert r.studentLog[a] == r.studentLog[..|s.studentLog|][a];
          assert r.teacherLog[r.studentLog[a].teacher] == s.teacherLog[r.studentLog[a].teacher];
        } else {
          assert r.teacherLog[r.studentLog[a].teacher].saved == t;
        }
      }
    }
  }

  /** Every student save of the first `i` teacher iterations is shaped as `SavesShapedBy` says. */
  lemma {:induction false} StudentSavesShaped(c: Config, s0: Run, teachers: seq<Teacher>, i: nat)
    requires i <= |teachers| && s0.teacherLog == [] && s0.studentLog == []
    ensures SavesShapedBy(c, s0.rows, TeachersUpTo(c, s0, teachers, i), i)
    decreases i
  {
    if i > 0 {
      StudentSavesShaped(c, s0, teachers, i - 1);
      RowsAfterTeachers(c, s0, teachers, i - 1);
      TeacherStepShaped(c, s0, teachers, i - 1);
    }
  }

  /** The same, for iteration `i` after the first `i` teacher iterations. */
  lemma TeacherIterCount(c: Config, s0: Run, teachers: seq<Teacher>, i: nat, x: nat)
    requires i < |teachers|
    ensures AttemptsBy(TeachersUpTo(c, s0, teachers, i + 1).studentLog, x)
            == AttemptsBy(TeachersUpTo(c, s0, teachers, i).studentLog, x)
               + (if x == i then PerTeacher(c, |s0.rows|) else 0)
  {
    var s := TeachersUpTo(c, s0, teachers, i);
    assert TeachersUpTo(c, s0, teachers, i + 1) == TeacherStep(c, s0, teachers, i);
    var s1 := AfterTeacherSave(c, s, teachers, i);
    if c.isStudentInsert {
      StudentPassCount(c, s1, i, SavedTeacher(c, s, teachers, i), |s1.rows|, x);
    }
  }

  /** A teacher reached among the first `i` iterations made exactly its quota of student saves. */
  lemma {:induction false} SavesOfReachedTeacher(c: Config, s0: Run, teachers: seq<Teacher>, i: nat, x: nat)
    requires x < i <= |teachers| && s0.studentLog == []
    ensures AttemptsBy(TeachersUpTo(c, s0, teachers, i).studentLog, x) == PerTeacher(c, |s0.rows|)
    decreases i
  {
    if x < i - 1 {
      SavesOfReachedTeacher(c, s0, teachers, i - 1, x);
    } else {
      SavesOfUnreachedTeacher(c, s0, teachers, i - 1, x);
    }
    TeacherIterCount(c, s0, teachers, i - 1, x);
  }

  /** A teacher not yet reached in the first `i` iterations has no student save. */
  lemma {:induction false} SavesOfUnreachedTeacher(c: Config, s0: Run, teachers: seq<Teacher>, i: nat, x: nat)
    requires i <= x && i <= |teachers| && s0.studentLog == []
    ensures AttemptsBy(TeachersUpTo(c, s0, teachers, i).studentLog, x) == 0
    decreases i
  {
    if i > 0 {
      SavesOfUnreachedTeacher(c, s0, teachers, i - 1, x);
      TeacherIterCount(c, s0, teachers, i - 1, x);
    }
  }

  /** Each teacher's iteration makes exactly its quota of student saves. */
  lemma StudentSavesPerTeacher(c: Config, s0: Run, teachers: seq<Teacher>, i: nat, x: nat)
    requires i <= |teachers| && s0.studentLog == []
    ensures AttemptsBy(TeachersUpTo(c, s0, teachers, i).studentLog, x) == (if x < i then PerTeacher(c, |s0.rows|) else 0)
  {
    if x < i {
      SavesOfReachedTeacher(c, s0, teachers, i, x);
    } else {
      SavesOfUnreachedTeacher(c, s0, teachers, i, x);
    }
  }

  /** Teacher iteration `i` loses no teacher key, keeps the key of every successful teacher save stored, and keeps the invariant. */
  lemma TeacherStepTeachers(c: Config, s0: Run, teachers: seq<Teacher>, i: nat)
    requires i < |teachers|
    ensures var s := TeachersUpTo(c, s0, teachers, i);
      var r := TeachersUpTo(c, s0, teachers, i + 1);
      && s.teachers.rows.Keys <= r.teachers.rows.Keys
      && (PersistedTeachers(s.teacherLog, s.teachers) ==> PersistedTeachers(r.teacherLog, r.teachers))
      && (Consistent(c.teacherSchema, s.teachers) ==> Consistent(c.teacherSchema, r.teachers))
  {
    var s := TeachersUpTo(c, s0, teachers, i);
    var r := TeachersUpTo(c, s0, teachers, i + 1);
    assert r == TeacherStep(c, s0, teachers, i);
    var s1 := AfterTeacherSave(c, s, teachers, i);
    assert r.teachers == s1.teachers && r.teacherLog == s1.teacherLog;
    if Consistent(c.teacherSchema, s.teachers) {
      SaveKeepsConsistent(c.teacherSchema, s.teachers, teachers[i]);
    }
    if PersistedTeachers(s.teacherLog, s.teachers) {
      forall k | 0 <= k < |s1.teacherLog| && s1.teacherLog[k].saved.Some?
        ensures s1.teacherLog[k].saved.value.id.Some? && s1.teacherLog[k].saved.value.id.value in s1.teachers.rows
      {
        if k < |s.teacherLog| {
          assert s1.teacherLog[k] == s.teacherLog[k];
        }
      }
    }
  }

  /** Teacher iteration `i` loses no student key, keeps the key of every successful student save stored, and keeps the invariant. */
  lemma TeacherStepStudents(c: Config, s0: Run, teachers: seq<Teacher>, i: nat)
    requires i < |teachers|
    ensures var s := TeachersUpTo(c, s0, teachers, i);
      var r := TeachersUpTo(c, s0, teachers, i + 1);
      && s.students.rows.Keys <= r.students.rows.Keys
      && (Persisted(s.studentLog, s.students) ==> Persisted(r.studentLog, r.students))
      && (Consistent(c.studentSchema, s.students) ==> Consistent(c.studentSchema, r.students))
  {
    var s := TeachersUpTo(c, s0, teachers, i);
    assert TeachersUpTo(c, s0, teachers, i + 1) == TeacherStep(c, s0, teachers, i);
    if c.isStudentInsert {
      var s1 := AfterTeacherSave(c, s, teachers, i);
      StudentPassStore(c, s1, i, SavedTeacher(c, s, teachers, i), |s1.rows|);
    }
  }

  /** The first `i` teacher iterations lose no teacher key. */
  lemma {:induction false} TeacherKeysKept(c: Config, s0: Run, teachers: seq<Teacher>, i: nat)
    requires i <= |teachers|
    ensures s0.teachers.rows.Keys <= TeachersUpTo(c, s0, teachers, i).teachers.rows.Keys
    decreases i
  {
    if i > 0 {
      TeacherKeysKept(c, s0, teachers, i - 1);
      TeacherStepTeachers(c, s0, teachers, i - 1);
    }
  }

  /** After the first `i` teacher iterations the key of every successful teacher save is still stored. */
  lemma {:induction false} TeacherSavesKept(c: Config, s0: Run, teachers: seq<Teacher>, i: nat)
    requires i <= |teachers| && s0.teacherLog == []
    ensures var r := TeachersUpTo(c, s0, teachers, i); PersistedTeachers(r.teacherLog, r.teachers)
    decreases i
  {
    if i > 0 {
      TeacherSavesKept(c, s0, teachers, i - 1);
      TeacherStepTeachers(c, s0, teachers, i - 1);
    }
  }

  /** The first `i` teacher iterations keep the teacher table invariant. */
  lemma {:induction false} TeacherTableConsistent(c: Config, s0: Run, teachers: seq<Teacher>, i: nat)
    requires i <= |teachers| && Consistent(c.teacherSchema, s0.teachers)
    ensures Consistent(c.teacherSchema, TeachersUpTo(c, s0, teachers, i).teachers)
    decreases i
  {
    if i > 0 {
      TeacherTableConsistent(c, s0, teachers, i - 1);
      TeacherStepTeachers(c, s0, teachers, i - 1);
    }
  }

  /** The first `i` teacher iterations lose no student key. */
  lemma {:induction false} StudentKeysKept(c: Config, s0: Run, teachers: seq<Teacher>, i: nat)
    requires i <= |teachers|
    ensures s0.students.rows.Keys <= TeachersUpTo(c, s0, teachers, i).students.rows.Keys
    decreases i
  {
    if i > 0 {
      StudentKeysKept(c, s0, teachers, i - 1);
      TeacherStepStudents(c, s0, teachers, i - 1);
    }
  }

  /** After the first `i` teacher iterations the key of every successful student save is still stored. */
  lemma {:induction false} StudentSavesKept(c: Config, s0: Run, teachers: seq<Teacher>, i: nat)
    requires i <= |teachers| && s0.studentLog == []
    ensures var r := TeachersUpTo(c, s0, teachers, i); Persisted(r.studentLog, r.students)
    decreases i
  {
    if i > 0 {
      StudentSavesKept(c, s0, teachers, i - 1);
      TeacherStepStudents(c, s0, teachers, i - 1);
    }
  }

  /** The first `i` teacher iterations keep the student table invariant. */
  lemma {:induction false} StudentTableConsistent(c: Config, s0: Run, teachers: seq<Teacher>, i: nat)
    requires i <= |teachers| && Consistent(c.studentSchema, s0.students)
    ensures Consistent(c.studentSchema, TeachersUpTo(c, s0, teachers, i).students)
    decreases i
  {
    if i > 0 {
      StudentTableConsistent(c, s0, teachers, i - 1);
      TeacherStepStudents(c, s0, teachers, i - 1);
    }
  }

  /**
   * Nothing saved is rolled back: neither table loses a key, every
   * successful save keeps its key in its table, and both tables keep their invariant.
   */
  lemma NothingRolledBack(c: Config, s0: Run, teachers: seq<Teacher>, i: nat)
    requires i <= |teachers| && s0.teacherLog == [] && s0.studentLog == []
    ensures var r := TeachersUpTo(c, s0, teachers, i);
      && s0.teachers.rows.Keys <= r.teachers.rows.Keys
      && s0.students.rows.Keys <= r.students.rows.Keys
      && Persisted(r.studentLog, r.students)
      && PersistedTeachers(r.teacherLog, r.teachers)
      && (Consistent(c.teacherSchema, s0.teachers) ==> Consistent(c.teacherSchema, r.teachers))
      && (Consistent(c.studentSchema, s0.students) ==> Consistent(c.studentSchema, r.students))
  {
    TeacherKeysKept(c, s0, teachers, i);
    StudentKeysKept(c, s0, teachers, i);
    StudentSavesKept(c, s0, teachers, i);
    TeacherSavesKept(c, s0, teachers, i);
    if Consistent(c.teacherSchema, s0.teachers) {
      TeacherTableConsistent(c, s0, teachers, i);
    }
    if Consistent(c.studentSchema, s0.students) {
      StudentTableConsistent(c, s0, teachers, i);
    }
  }

  /**
   * The seeding leaves no dangling teacher reference: every student save
   * that refers to a teacher refers to one whose key is in the final
   * teacher table.
   */
  lemma NoDanglingTeacher(c: Config, s0: Run, teachers: seq<Teacher>)
    requires s0.teacherLog == [] && s0.studentLog == []
    ensures var r := TeachersUpTo(c, s0, teachers, |teachers|);
      forall a :: 0 <= a < |r.studentLog| && r.studentLog[a].row.fields.teacher.Some? ==>
        var ref := r.studentLog[a].row.fields.teacher.value;
        ref.id.Some? && ref.id.value in r.teachers.rows
  {
    StudentSavesShaped(c, s0, teachers, |teachers|);
    NothingRolledBack(c, s0, teachers, |teachers|);
  }

  // ---------------------------------------------------------------------------
  // The seeding loop itself

  /**
   * One selected row of a teacher's iteration: its name, enrollment number and
   * teacher id are cleared, name and enrollment number are set from the two
   * draws and the teacher reference to `t`, and the object is saved; on
   * success the generated key is written back into it.
   */
  method ReseedAndSave(studentRepo: Repository<StudentFields>, students: array<Student>, j: nat,
                       n: Draw, m: Draw, t: Option<Teacher>)
    returns (stud: Student, result: Result<Student, SaveError>)
    requires j < students.Length && studentRepo.Valid()
    modifies studentRepo, students
    ensures studentRepo.Valid()
    ensures stud == Reseeded(old(students[j]), n, m, t)
    ensures Saved(result, studentRepo.State()) == SaveTo(studentRepo.schema, old(studentRepo.State()), stud)
    ensures students[..] == old(students[..])[j := if result.Success? then stud.(id := result.value.id) else stud]
    ensures studentRepo.attempts == old(studentRepo.attempts) + [stud]
  {
    students[j] := students[j].(fields := students[j].fields.(name := None, enrollmentNo := None, teacherId := None));
    students[j] := students[j].(fields := students[j].fields.(name := Some("A-" + DecimalString(n))));
    students[j] := students[j].(fields := students[j].fields.(enrollmentNo := Some(m)));
    students[j] := students[j].(fields := students[j].fields.(teacher := t));
    stud := students[j];
    result := studentRepo.Save(stud);
    if result.Success? {
      students[j] := stud.(id := result.value.id);
    }
  }

  /**
   * The loop body on a selected row at position `j` in teacher `ti`'s
   * iteration from state `s1`: the row is reseeded from the next two draws
   * and saved, and the save is logged.
   */
  method VisitSelectedRow(c: Config, ghost s1: Run, studentRepo: Repository<StudentFields>, students: array<Student>,
                          ti: nat, t: Option<Teacher>, j: nat, ghost studentLog0: seq<StudentAttempt>, next0: nat,
                          ghost base: seq<Student>)
    returns (ghost studentLog: seq<StudentAttempt>, next: nat)
    requires j < students.Length == |s1.rows| && Selected(c.studentCount, j)
    requires studentRepo.Valid() && studentRepo.schema == c.studentSchema
    requires var s := StudentsUpTo(c, s1, ti, t, j);
      studentRepo.State() == s.students && students[..] == s.rows && studentLog0 == s.studentLog
    requires next0 == 2 * |studentLog0|
    requires studentRepo.attempts == base + StudentRows(studentLog0)
    modifies studentRepo, students
    ensures studentRepo.Valid()
    ensures var r := StudentsUpTo(c, s1, ti, t, j + 1);
      && studentRepo.State() == r.students && students[..] == r.rows
      && studentLog == r.studentLog && next == 2 * |studentLog|
    // the save made is exactly the one added to the log
    ensures studentRepo.attempts == base + StudentRows(studentLog)
  {
    ghost var s := StudentsUpTo(c, s1, ti, t, j);
    StepSaves(c, s1, ti, t, j);
    assert students[j] == s.rows[j];
    var stud, result := ReseedAndSave(studentRepo, students, j, c.rand(next0), c.rand(next0 + 1), t);
    ghost var saved := SaveTo(c.studentSchema, s.students, stud);
    assert saved.result == result && saved.table == studentRepo.State();
    StudentRowsSnoc(base, studentLog0, StudentAttempt(ti, j, stud, result));
    studentLog := studentLog0 + [StudentAttempt(ti, j, stud, result)];
    next := next0 + 2;
  }

  /**
   * One pass of the loop body over the row at position `j` in teacher `ti`'s
   * iteration from state `s1`: the counter has been incremented to `counter`,
   * and the row is reseeded and saved only while the counter stays below
   * `studentCount`.
   */
  method VisitRow(c: Config, ghost s1: Run, studentRepo: Repository<StudentFields>, students: array<Student>,
                  ti: nat, t: Option<Teacher>, j: nat, counter: int, ghost studentLog0: seq<StudentAttempt>, next0: nat,
                  ghost base: seq<Student>)
    returns (ghost studentLog: seq<StudentAttempt>, next: nat)
    requires j < students.Length == |s1.rows| && counter == j + 1
    requires studentRepo.Valid() && studentRepo.schema == c.studentSchema
    requires var s := StudentsUpTo(c, s1, ti, t, j);
      studentRepo.State() == s.students && students[..] == s.rows && studentLog0 == s.studentLog
    requires next0 == 2 * |studentLog0|
    requires studentRepo.attempts == base + StudentRows(studentLog0)
    modifies studentRepo, students
    ensures studentRepo.Valid()
    ensures var r := StudentsUpTo(c, s1, ti, t, j + 1);
      && studentRepo.State() == r.students && students[..] == r.rows
      && studentLog == r.studentLog && next == 2 * |studentLog|
    // the saves made are exactly the ones added to the log
    ensures studentRepo.attempts == base + StudentRows(studentLog)
  {
    if counter < c.studentCount {
      studentLog, next := VisitSelectedRow(c, s1, studentRepo, students, ti, t, j, studentLog0, next0, base);
    } else {
      StepSkips(c, s1, ti, t, j);
      studentLog, next := studentLog0, next0;
    }
  }

  /**
   * Teacher `ti`'s iteration over every student row, from state `s1`: the
   * counter is incremented per row and the rows while it stays below
   * `studentCount` are reseeded and saved; a failed save is logged and the
   * walk goes on. `next` is the index of the next random draw.
   */
  method VisitStudents(c: Config, ghost s1: Run, studentRepo: Repository<StudentFields>, students: array<Student>,
                       ti: nat, t: Option<Teacher>, next0: nat, ghost base: seq<Student>)
    returns (ghost studentLog: seq<StudentAttempt>, next: nat)
    requires studentRepo.Valid() && studentRepo.schema == c.studentSchema
    requires s1.students == studentRepo.State() && s1.rows == students[..] && next0 == 2 * |s1.studentLog|
    requires studentRepo.attempts == base + StudentRows(s1.studentLog)
    modifies studentRepo, students
    ensures studentRepo.Valid()
    ensures var r := StudentsUpTo(c, s1, ti, t, students.Length);
      && studentRepo.State() == r.students && students[..] == r.rows
      && studentLog == r.studentLog && next == 2 * |studentLog|
    // the saves made are exactly the ones added to the log
    ensures studentRepo.attempts == base + StudentRows(studentLog)
  {
    studentLog, next := s1.studentLog, next0;
    var counter := 0;
    var j := 0;
    while j < students.Length
      invariant 0 <= j <= students.Length && counter == j
      invariant studentRepo.Valid()
      invariant var s := StudentsUpTo(c, s1, ti, t, j);
        studentRepo.State() == s.students && students[..] == s.rows && studentLog == s.studentLog
      invariant next == 2 * |studentLog|
      invariant studentRepo.attempts == base + StudentRows(studentLog)
    {
      counter := counter + 1;
      studentLog, next := VisitRow(c, s1, studentRepo, students, ti, t, j, counter, studentLog, next, base);
      j := j + 1;
    }
  }

  /**
   * `insertFakeData`, given the rows read from the two CSV files: the teacher
   * rows, and the student row objects, which it overwrites in place. It
   * returns the saves it made, in order, as ghost logs.
   */
  method InsertFakeData(teacherRepo: Repository<TeacherFields>, studentRepo: Repository<StudentFields>,
                        teachers: seq<Teacher>, students: array<Student>,
                        isStudentInsert: bool, studentCount: int, rand: nat -> Draw)
    returns (ghost teacherLog: seq<TeacherAttempt>, ghost studentLog: seq<StudentAttempt>)
    requires teacherRepo.Valid() && studentRepo.Valid()
    requires teacherRepo.schema.uniqueOf == TeacherUnique && studentRepo.schema.uniqueOf == StudentUnique
    modifies teacherRepo, studentRepo, students
    ensures teacherRepo.Valid() && studentRepo.Valid()
    ensures var r := Seeded(Config(teacherRepo.schema, studentRepo.schema, isStudentInsert, studentCount, rand),
                            old(teacherRepo.State()), old(studentRepo.State()), teachers, old(students[..]));
      && teacherRepo.State() == r.teachers && studentRepo.State() == r.students
      && students[..] == r.rows
      && teacherLog == r.teacherLog && studentLog == r.studentLog
    // the saves made: every teacher row once, in list order, and the logged student rows
    ensures teacherRepo.attempts == old(teacherRepo.attempts) + teachers
    ensures studentRepo.attempts == old(studentRepo.attempts) + StudentRows(studentLog)
    ensures !isStudentInsert ==> studentRepo.attempts == old(studentRepo.attempts)
  {
    var c := Config(teacherRepo.schema, studentRepo.schema, isStudentInsert, studentCount, rand);
    ghost var s0 := Run(teacherRepo.State(), studentRepo.State(), students[..], [], []);
    teacherLog, studentLog := [], [];
    var next := 0;
    var i := 0;
    while i < |teachers|
      invariant 0 <= i <= |teachers|
      invariant teacherRepo.Valid() && studentRepo.Valid()
      invariant var r := TeachersUpTo(c, s0, teachers, i);
        && teacherRepo.State() == r.teachers && studentRepo.State() == r.students
        && students[..] == r.rows && teacherLog == r.teacherLog && studentLog == r.studentLog
      invariant next == 2 * |studentLog|
      invariant teacherRepo.attempts == old(teacherRepo.attempts) + teachers[..i]
      invariant studentRepo.attempts == old(studentRepo.attempts) + StudentRows(studentLog)
      invariant !isStudentInsert ==> studentLog == []
    {
      ghost var before := TeachersUpTo(c, s0, teachers, i);
      // a failed save is swallowed and leaves `t` undefined
      var saved := teacherRepo.Save(teachers[i]);
      var t := if saved.Success? then Some(saved.value) else None;
      teacherLog := teacherLog + [TeacherAttempt(teachers[i], t)];
      ghost var s1 := AfterTeacherSave(c, before, teachers, i);
      assert t == SavedTeacher(c, before, teachers, i);
      if isStudentInsert {
        studentLog, next := VisitStudents(c, s1, studentRepo, students, i, t, next, old(studentRepo.attempts));
      }
      assert teachers[..i + 1] == teachers[..i] + [teachers[i]];
      i := i + 1;
    }
    assert teachers[..|teachers|] == teachers;
  }
}
