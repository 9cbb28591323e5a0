/**
 * The two tables of the student tracker, the constraints their schema and
 * the write paths maintain, and the row selections the queries are built on.
 */
module Rows {
  import opened Ordering

  datatype Option<+T> = None | Some(value: T)

  /** A row of `students(id, name, roll_number)`. */
  datatype Student = Student(id: int, name: string, rollNumber: string)

  /** A row of `grades(id, student_id, subject, score)`. */
  datatype Grade = Grade(id: int, studentId: int, subject: string, score: int)

  function StudentKey(s: Student): (k: int) { s.id }

  function GradeKey(g: Grade): (k: int) { g.id }

  /** The bounds of the `CHECK(score BETWEEN 0 AND 100)` constraint. */
  const MinScore := 0
  const MaxScore := 100

  predicate ValidScore(score: int)
  {
    MinScore <= score <= MaxScore
  }

  /** Some student already holds this roll number (the UNIQUE constraint's test). */
  predicate RollInUse(students: seq<Student>, rollNumber: string)
  {
    exists s :: s in students && s.rollNumber == rollNumber
  }

  /** `SELECT 1 FROM students WHERE id = ?` returns a row. */
  predicate StudentExists(students: seq<Student>, id: int)
  {
    exists s :: s in students && s.id == id
  }

  ghost predicate RollsDistinct(students: seq<Student>)
  {
    forall i, j :: 0 <= i < j < |students| ==> students[i].rollNumber != students[j].rollNumber
  }

  ghost predicate ScoresInRange(grades: seq<Grade>)
  {
    forall g :: g in grades ==> ValidScore(g.score)
  }

  ghost predicate GradesReferenceStudents(students: seq<Student>, grades: seq<Grade>)
  {
    forall g :: g in grades ==> StudentExists(students, g.studentId)
  }

  /**
   * The invariant of the two tables. `lastStudentId` and `lastGradeId` are
   * the AUTOINCREMENT counters: the largest id each table has handed out.
   * Rows are kept in append order, so ids ascend; none exceeds its counter.
   */
  ghost predicate TablesInvariant(students: seq<Student>, grades: seq<Grade>, lastStudentId: int, lastGradeId: int)
  {
    && Ascending(students, StudentKey)
    && Ascending(grades, GradeKey)
    && (forall s :: s in students ==> 1 <= s.id <= lastStudentId)
    && (forall g :: g in grades ==> 1 <= g.id <= lastGradeId)
    && RollsDistinct(students)
    && ScoresInRange(grades)
    && GradesReferenceStudents(students, grades)
  }

  /** `SELECT id, name, roll_number FROM students WHERE id = ?`. */
  function FindStudentById(students: seq<Student>, id: int): (r: Option<Student>)
    ensures r.None? <==> !StudentExists(students, id)
    ensures r.Some? ==> r.value in students && r.value.id == id
  {
    if students == [] then None
    else if students[0].id == id then Some(students[0])
    else FindStudentById(students[1..], id)
  }

  /** Because ids are a key, looking a student's id up gives back that very row. */
  lemma FindStudentByIdReturnsRow(students: seq<Student>, i: int)
    requires Ascending(students, StudentKey)
    requires 0 <= i < |students|
    ensures FindStudentById(students, students[i].id) == Some(students[i])
  {
    var r := FindStudentById(students, students[i].id);
    var j :| 0 <= j < |students| && students[j] == r.value;
    assert StudentKey(students[j]) == StudentKey(students[i]);
  }

  /** `... FROM grades WHERE student_id = ?`, in table order. */
  function GradesOf(grades: seq<Grade>, studentId: int): (r: seq<Grade>)
    ensures forall g :: g in r <==> g in grades && g.studentId == studentId
    ensures Ascending(grades, GradeKey) ==> Ascending(r, GradeKey)
  {
    if grades == [] then []
    else
      var rest := GradesOf(grades[1..], studentId);
      assert Ascending(grades, GradeKey) ==> forall g :: g in rest ==> grades[0].id < g.id;
      if grades[0].studentId == studentId then [grades[0]] + rest else rest
  }

  /** `... FROM grades WHERE subject = ?`, in table order. */
  function GradesIn(grades: seq<Grade>, subject: string): (r: seq<Grade>)
    ensures forall g :: g in r <==> g in grades && g.subject == subject
    ensures Ascending(grades, GradeKey) ==> Ascending(r, GradeKey)
  {
    if grades == [] then []
    else
      var rest := GradesIn(grades[1..], subject);
      assert Ascending(grades, GradeKey) ==> forall g :: g in rest ==> grades[0].id < g.id;
      if grades[0].subject == subject then [grades[0]] + rest else rest
  }

  /** The `score` column of some rows. */
  function ScoresOf(rows: seq<Grade>): (r: seq<int>)
    ensures |r| == |rows|
    ensures forall i :: 0 <= i < |rows| ==> r[i] == rows[i].score
  {
    seq(|rows|, i requires 0 <= i < |rows| => rows[i].score)
  }
}
