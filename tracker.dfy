/**
 * `StudentTracker`: the store object. Its state is the content of the two
 * tables and their AUTOINCREMENT counters; `AddStudent` and `AddGrade` append
 * rows under the schema's constraints and report `(ok, message)` pairs.
 */
module Tracker {
  import opened Ordering
  import opened Rows
  import opened Queries

  const DuplicateRollMessage := "Roll number already exists. Use a unique roll number."
  const ScoreRangeMessage := "Score must be between 0 and 100."
  const UnknownStudentMessage := "Student does not exist."

  /** `export_backup`'s result: every row of both tables. */
  datatype Backup = Backup(students: seq<Student>, grades: seq<Grade>)

  class StudentTracker {
    var students: seq<Student>
    var grades: seq<Grade>
    /** The largest id `students` has handed out (its `sqlite_sequence` entry). */
    var lastStudentId: nat
    /** The largest id `grades` has handed out. */
    var lastGradeId: nat

    ghost predicate Valid()
      reads this
    {
      TablesInvariant(students, grades, lastStudentId, lastGradeId)
    }

    /** A tracker over a freshly created database: both tables empty. */
    constructor ()
      ensures Valid()
      ensures students == [] && grades == [] && lastStudentId == 0 && lastGradeId == 0
    {
      students, grades := [], [];
      lastStudentId, lastGradeId := 0, 0;
    }

    /**
     * `add_student`: insert a row; the UNIQUE constraint on `roll_number`
     * rejects a roll already held, and then nothing is written.
     */
    method AddStudent(name: string, rollNumber: string) returns (ok: bool, msg: Option<string>)
      requires Valid()
      modifies this
      ensures Valid()
      ensures ok <==> !RollInUse(old(students), rollNumber)
      ensures !ok ==> msg == Some(DuplicateRollMessage)
      ensures !ok ==> students == old(students) && lastStudentId == old(lastStudentId)
      ensures ok ==> msg == None && lastStudentId == old(lastStudentId) + 1
      ensures ok ==> students == old(students) + [Student(lastStudentId, name, rollNumber)]
      ensures ok ==> forall s :: s in old(students) ==> s.id < lastStudentId
      ensures ok ==> FindStudentById(students, lastStudentId) == Some(Student(lastStudentId, name, rollNumber))
      ensures grades == old(grades) && lastGradeId == old(lastGradeId)
    {
      if RollInUse(students, rollNumber) {
        return false, Some(DuplicateRollMessage);
      }
      var row := Student(lastStudentId + 1, name, rollNumber);
      StudentAppendKeepsInvariant(students, grades, lastStudentId, lastGradeId, row);
      students := students + [row];
      lastStudentId := lastStudentId + 1;
      return true, None;
    }

    /**
     * `add_grade`: the score range is checked first, then that the student
     * exists; only then is a row appended. A failure writes nothing.
     */
    method AddGrade(studentId: int, subject: string, score: int) returns (ok: bool, msg: Option<string>)
      requires Valid()
      modifies this
      ensures Valid()
      ensures ok <==> ValidScore(score) && StudentExists(old(students), studentId)
      ensures !ValidScore(score) ==> msg == Some(ScoreRangeMessage)
      ensures ValidScore(score) && !StudentExists(old(students), studentId) ==> msg == Some(UnknownStudentMessage)
      ensures !ok ==> grades == old(grades) && lastGradeId == old(lastGradeId)
      ensures ok ==> msg == None && lastGradeId == old(lastGradeId) + 1
      ensures ok ==> grades == old(grades) + [Grade(lastGradeId, studentId, subject, score)]
      ensures ok ==> forall g :: g in old(grades) ==> g.id < lastGradeId
      ensures students == old(students) && lastStudentId == old(lastStudentId)
    {
      if !(MinScore <= score <= MaxScore) {
        return false, Some(ScoreRangeMessage);
      }
      if !StudentExists(students, studentId) {
        return false, Some(UnknownStudentMessage);
      }
      var row := Grade(lastGradeId + 1, studentId, subject, score);
      GradeAppendKeepsInvariant(students, grades, lastStudentId, lastGradeId, row);
      grades := grades + [row];
      lastGradeId := lastGradeId + 1;
      return true, None;
    }

    /** `export_backup`: every current row of both tables. */
    function ExportBackup(): (b: Backup)
      reads this
      requires Valid()
      ensures b.students == students && b.grades == grades
      ensures RollsDistinct(b.students) && ScoresInRange(b.grades)
      ensures GradesReferenceStudents(b.students, b.grades)
    {
      Backup(students, grades)
    }
  }

  /** Appending a student with the next id and an unused roll number keeps the invariant. */
  lemma StudentAppendKeepsInvariant(students: seq<Student>, grades: seq<Grade>,
                                    lastStudentId: nat, lastGradeId: nat, row: Student)
    requires TablesInvariant(students, grades, lastStudentId, lastGradeId)
    requires row.id == lastStudentId + 1 && !RollInUse(students, row.rollNumber)
    ensures TablesInvariant(students + [row], grades, lastStudentId + 1, lastGradeId)
    ensures forall s :: s in students ==> s.id < row.id
    ensures FindStudentById(students + [row], row.id) == Some(row)
  {
    var after := students + [row];
    forall i, j | 0 <= i < j < |after| ensures after[i].id < after[j].id {
      assert after[i] in students || i == |students|;
      if j == |students| { assert after[i] in students; }
    }
    forall i, j | 0 <= i < j < |after| ensures after[i].rollNumber != after[j].rollNumber {
      if j == |students| { assert after[i] in students; }
    }
    forall g | g in grades ensures StudentExists(after, g.studentId) {
      var s :| s in students && s.id == g.studentId;
      assert s in after;
    }
    FindStudentByIdReturnsRow(after, |students|);
  }

  /** Appending a grade with the next id, a valid score and an existing student keeps the invariant. */
  lemma GradeAppendKeepsInvariant(students: seq<Student>, grades: seq<Grade>,
                                  lastStudentId: nat, lastGradeId: nat, row: Grade)
    requires TablesInvariant(students, grades, lastStudentId, lastGradeId)
    requires row.id == lastGradeId + 1 && ValidScore(row.score) && StudentExists(students, row.studentId)
    ensures TablesInvariant(students, grades + [row], lastStudentId, lastGradeId + 1)
  {
    var after := grades + [row];
    forall i, j | 0 <= i < j < |after| ensures after[i].id < after[j].id {
      if j == |grades| { assert after[i] in grades; }
    }
  }

  /** One Physics grade of 85 gives the listing `[("Physics", 85)]` and the average 85. */
  lemma SingleGradeQueries(studentId: int, g: Grade)
    requires g.studentId == studentId && g.subject == "Physics" && g.score == 85
    ensures GetGradesForStudent([g], studentId) == [GradeEntry("Physics", 85)]
    ensures AverageForStudent([g], studentId) == 85.0
  {
    assert GradesOf([g], studentId) == [g] by { assert [g][1..] == []; }
    assert GradeRowsOf([g], studentId) == [g] by { assert Reversed([g])[0] == g; }
    var average := AverageForStudent([g], studentId);
    assert ScoresOf([g]) == [85];
    assert Sum([85]) == 85 by { assert [85][1..] == []; }
    assert average * 1.0 == 85.0;
  }

  /**
   * A session: add "Jane Doe" with roll "R100", record Physics 85 for her,
   * then list her grades and take her average.
   */
  method ExampleSession()
  {
    var tracker := new StudentTracker();
    var ok, msg := tracker.AddStudent("Jane Doe", "R100");
    assert ok;
    var id := tracker.lastStudentId;
    ok, msg := tracker.AddGrade(id, "Physics", 85);
    assert ok;
    var physics := Grade(1, id, "Physics", 85);
    assert tracker.grades == [physics];
    SingleGradeQueries(id, physics);
    assert GetGradesForStudent(tracker.grades, id) == [GradeEntry("Physics", 85)];
    assert AverageForStudent(tracker.grades, id) == 85.0;
  }
}
