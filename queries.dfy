/**
 * The read-only queries of the student tracker, as functions of the two
 * tables: the listings, the averages and the subject topper.
 */
module Queries {
  import opened Ordering
  import opened Rows

  // ---------------------------------------------------------------------------
  // Listings

  /** `SELECT id, name, roll_number FROM students ORDER BY id DESC`. */
  function GetAllStudents(students: seq<Student>): (r: seq<Student>)
    ensures |r| == |students|
    ensures forall s :: s in r <==> s in students
    ensures Ascending(students, StudentKey) ==> Descending(r, StudentKey)
  {
    var r := Reversed(students);
    assert Ascending(students, StudentKey) ==> Descending(r, StudentKey) by {
      if Ascending(students, StudentKey) { ReversedAscending(students, StudentKey); }
    }
    r
  }

  /**
   * The listing is exactly `ORDER BY id DESC`: any arrangement of the student
   * rows with ids strictly descending is the one `GetAllStudents` returns.
   */
  lemma AllStudentsIsOrderByIdDesc(students: seq<Student>, listing: seq<Student>)
    requires Ascending(students, StudentKey)
    requires Descending(listing, StudentKey)
    requires forall s :: s in listing <==> s in students
    ensures listing == GetAllStudents(students)
  {
    DescendingIsUnique(listing, GetAllStudents(students), StudentKey);
  }

  /** A row of the per-student grade listing: `SELECT subject, score`. */
  datatype GradeEntry = GradeEntry(subject: string, score: int)

  /** The grade rows of one student, `ORDER BY id DESC`. */
  function GradeRowsOf(grades: seq<Grade>, studentId: int): (r: seq<Grade>)
    ensures forall g :: g in r <==> g in grades && g.studentId == studentId
    ensures Ascending(grades, GradeKey) ==> Descending(r, GradeKey)
  {
    var own := GradesOf(grades, studentId);
    var r := Reversed(own);
    assert Ascending(grades, GradeKey) ==> Descending(r, GradeKey) by {
      if Ascending(grades, GradeKey) { ReversedAscending(own, GradeKey); }
    }
    r
  }

  /** The `(subject, score)` columns of some grade rows, in their order. */
  function Entries(rows: seq<Grade>): (r: seq<GradeEntry>)
    ensures |r| == |rows|
    ensures forall g :: g in rows ==> GradeEntry(g.subject, g.score) in r
    ensures forall e :: e in r ==> exists g :: g in rows && e == GradeEntry(g.subject, g.score)
    ensures forall i :: 0 <= i < |rows| ==> r[i] == GradeEntry(rows[i].subject, rows[i].score)
  {
    var r := seq(|rows|, i requires 0 <= i < |rows| => GradeEntry(rows[i].subject, rows[i].score));
    assert forall g :: g in rows ==> GradeEntry(g.subject, g.score) in r by {
      forall g | g in rows ensures GradeEntry(g.subject, g.score) in r {
        var k :| 0 <= k < |rows| && rows[k] == g;
        assert r[k] == GradeEntry(g.subject, g.score);
      }
    }
    r
  }

  /**
   * `SELECT subject, score FROM grades WHERE student_id = ? ORDER BY id DESC`:
   * the student's grades, newest first; empty when the student has none.
   */
  function GetGradesForStudent(grades: seq<Grade>, studentId: int): (r: seq<GradeEntry>)
    ensures (forall g :: g in grades ==> g.studentId != studentId) <==> r == []
    ensures forall e :: e in r <==>
      exists g :: g in grades && g.studentId == studentId && e == GradeEntry(g.subject, g.score)
  {
    var rows := GradeRowsOf(grades, studentId);
    assert rows == [] ==> (forall g :: g in grades ==> g.studentId != studentId);
    assert rows != [] ==> rows[0] in grades && rows[0].studentId == studentId;
    Entries(rows)
  }

  /**
   * The listing is exactly `ORDER BY id DESC`: for any strictly
   * id-descending arrangement of the student's grade rows, the listing is
   * that arrangement's `(subject, score)` columns.
   */
  lemma GradesForStudentIsOrderByIdDesc(grades: seq<Grade>, studentId: int, rows: seq<Grade>)
    requires Ascending(grades, GradeKey)
    requires Descending(rows, GradeKey)
    requires forall g :: g in rows <==> g in grades && g.studentId == studentId
    ensures GetGradesForStudent(grades, studentId) == Entries(rows)
  {
    DescendingIsUnique(rows, GradeRowsOf(grades, studentId), GradeKey);
  }

  /** Under the store invariant a student missing from the table has no grades to list. */
  lemma UnknownStudentHasNoGrades(students: seq<Student>, grades: seq<Grade>, studentId: int)
    requires GradesReferenceStudents(students, grades)
    requires FindStudentById(students, studentId) == None
    ensures GetGradesForStudent(grades, studentId) == []
    ensures AverageForStudent(grades, studentId) == 0.0
  {
    assert forall g :: g in grades ==> g.studentId != studentId by {
      forall g | g in grades ensures g.studentId != studentId {
        assert StudentExists(students, g.studentId);
      }
    }
  }

  // ---------------------------------------------------------------------------
  // Averages

  function Sum(xs: seq<int>): (s: int)
  {
    if xs == [] then 0 else xs[0] + Sum(xs[1..])
  }

  lemma {:induction false} SumBounds(xs: seq<int>)
    requires forall i :: 0 <= i < |xs| ==> ValidScore(xs[i])
    ensures MinScore * |xs| <= Sum(xs) <= MaxScore * |xs|
  {
    if xs != [] {
      SumBounds(xs[1..]);
    }
  }

  /** `r` is the average of `xs` as SQL `AVG` computes it, with the tracker's default 0 for no rows. */
  ghost predicate IsAverageOf(r: real, xs: seq<int>)
  {
    if xs == [] then r == 0.0 else r * |xs| as real == Sum(xs) as real
  }

  /** SQL `AVG` of integer scores, exactly, with the tracker's default 0 for no rows. */
  function Mean(xs: seq<int>): (r: real)
    ensures IsAverageOf(r, xs)
  {
    if xs == [] then 0.0 else Sum(xs) as real / |xs| as real
  }

  /** The mean of valid scores is itself a valid score. */
  lemma MeanWithinScoreRange(xs: seq<int>)
    requires forall i :: 0 <= i < |xs| ==> ValidScore(xs[i])
    ensures MinScore as real <= Mean(xs) <= MaxScore as real
  {
    if xs != [] {
      SumBounds(xs);
      var n := |xs| as real;
      var m := Mean(xs);
      assert m * n <= MaxScore as real * n;
      assert m * n >= MinScore as real * n;
    }
  }

  /** The average of rows drawn from a table whose scores are valid is itself a valid score. */
  lemma AverageOfRowsWithinScoreRange(grades: seq<Grade>, rows: seq<Grade>)
    requires ScoresInRange(grades)
    requires forall g :: g in rows ==> g in grades
    ensures MinScore as real <= Mean(ScoresOf(rows)) <= MaxScore as real
  {
    var xs := ScoresOf(rows);
    forall i | 0 <= i < |xs| ensures ValidScore(xs[i]) {
      assert rows[i] in rows;
    }
    MeanWithinScoreRange(xs);
  }

  /** `SELECT AVG(score) FROM grades WHERE student_id = ?`, 0 when there are no rows. */
  function AverageForStudent(grades: seq<Grade>, studentId: int): (r: real)
    ensures (forall g :: g in grades ==> g.studentId != studentId) ==> r == 0.0
    ensures IsAverageOf(r, ScoresOf(GradesOf(grades, studentId)))
  {
    var own := GradesOf(grades, studentId);
    assert own != [] ==> own[0] in own;
    Mean(ScoresOf(own))
  }
  /** Under the CHECK constraint on scores, the average lies within 0..100. */
  lemma AverageForStudentWithinScoreRange(grades: seq<Grade>, studentId: int)
    requires ScoresInRange(grades)
    ensures MinScore as real <= AverageForStudent(grades, studentId) <= MaxScore as real
  {
    AverageOfRowsWithinScoreRange(grades, GradesOf(grades, studentId));
  }


  /** `SELECT AVG(score) FROM grades WHERE subject = ?`, 0 when there are no rows. */
  function ClassAverageForSubject(grades: seq<Grade>, subject: string): (r: real)
    ensures (forall g :: g in grades ==> g.subject != subject) ==> r == 0.0
    ensures IsAverageOf(r, ScoresOf(GradesIn(grades, subject)))
  {
    var rows := GradesIn(grades, subject);
    assert rows != [] ==> rows[0] in rows;
    Mean(ScoresOf(rows))
  }
  /** Under the CHECK constraint on scores, the average lies within 0..100. */
  lemma ClassAverageForSubjectWithinScoreRange(grades: seq<Grade>, subject: string)
    requires ScoresInRange(grades)
    ensures MinScore as real <= ClassAverageForSubject(grades, subject) <= MaxScore as real
  {
    AverageOfRowsWithinScoreRange(grades, GradesIn(grades, subject));
  }


  // ---------------------------------------------------------------------------
  // Subject topper

  /** A row of `SELECT s.name, g.score FROM grades g JOIN students s ...`. */
  datatype Topper = Topper(name: string, score: int)

  /** `t` is a row of the join restricted to `g.subject = subject`. */
  ghost predicate Joined(students: seq<Student>, grades: seq<Grade>, subject: string, t: Topper)
  {
    exists g, s :: g in grades && s in students && g.subject == subject && g.studentId == s.id
      && t == Topper(s.name, g.score)
  }

  /** `ORDER BY g.score DESC, s.name ASC` puts `a` no later than `b`. */
  predicate RanksAtLeast(a: Topper, b: Topper)
  {
    a.score > b.score || (a.score == b.score && TextLe(a.name, b.name))
  }

  lemma RanksAtLeastTransitive(a: Topper, b: Topper, rows: seq<Topper>)
    requires RanksAtLeast(a, b)
    requires forall t :: t in rows ==> RanksAtLeast(b, t)
    ensures forall t :: t in rows ==> RanksAtLeast(a, t)
  {
    forall t | t in rows ensures RanksAtLeast(a, t) {
      if a.score == b.score == t.score {
        TextLeTransitive(a.name, b.name, t.name);
      }
    }
  }

  /** The students joined with one grade row on `g.student_id = s.id`. */
  function JoinOne(students: seq<Student>, g: Grade): (r: seq<Topper>)
    ensures forall t :: t in r <==> exists s :: s in students && g.studentId == s.id && t == Topper(s.name, g.score)
  {
    if students == [] then []
    else
      var rest := JoinOne(students[1..], g);
      assert forall s :: s in students ==> s == students[0] || s in students[1..];
      if students[0].id == g.studentId then [Topper(students[0].name, g.score)] + rest else rest
  }

  /** The join of grades and students, restricted to one subject. */
  function JoinRows(students: seq<Student>, grades: seq<Grade>, subject: string): (r: seq<Topper>)
    ensures forall t :: t in r <==> Joined(students, grades, subject, t)
  {
    if grades == [] then []
    else
      var here := if grades[0].subject == subject then JoinOne(students, grades[0]) else [];
      var rest := JoinRows(students, grades[1..], subject);
      assert forall g :: g in grades ==> g == grades[0] || g in grades[1..];
      here + rest
  }

  /** The first row under `ORDER BY score DESC, name ASC`. */
  function Best(rows: seq<Topper>): (b: Topper)
    requires rows != []
    ensures b in rows
    ensures forall t :: t in rows ==> RanksAtLeast(b, t)
  {
    if |rows| == 1 then
      TextLeReflexive(rows[0].name);
      rows[0]
    else
      var rest := Best(rows[1..]);
      assert forall t :: t in rows ==> t == rows[0] || t in rows[1..];
      if RanksAtLeast(rows[0], rest) then
        TextLeReflexive(rows[0].name);
        RanksAtLeastTransitive(rows[0], rest, rows[1..]);
        rows[0]
      else
        TextLeTotal(rows[0].name, rest.name);
        rest
  }

  /**
   * `subject_topper`: the best joined row for the subject, or None when the
   * subject has no joined rows. Its score is the highest and, among rows with
   * that score, its name is the smallest.
   */
  function SubjectTopper(students: seq<Student>, grades: seq<Grade>, subject: string): (r: Option<Topper>)
    ensures r.None? <==> forall t :: !Joined(students, grades, subject, t)
    ensures r.Some? ==> Joined(students, grades, subject, r.value)
    ensures r.Some? ==> forall t :: Joined(students, grades, subject, t) ==> RanksAtLeast(r.value, t)
  {
    var rows := JoinRows(students, grades, subject);
    if rows == [] then None
    else
      assert Joined(students, grades, subject, rows[0]);
      Some(Best(rows))
  }

  /** The tie-break makes the topper unique: any row that ranks at least every joined row is it. */
  lemma TopperIsUnique(students: seq<Student>, grades: seq<Grade>, subject: string, t: Topper)
    requires Joined(students, grades, subject, t)
    requires forall u :: Joined(students, grades, subject, u) ==> RanksAtLeast(t, u)
    ensures SubjectTopper(students, grades, subject) == Some(t)
  {
    var b := SubjectTopper(students, grades, subject).value;
    assert RanksAtLeast(b, t) && RanksAtLeast(t, b);
    if b.score == t.score {
      TextLeAntisymmetric(b.name, t.name);
    }
  }

  /** A grade of the subject whose student exists gives a joined row with its score. */
  lemma GradeJoins(students: seq<Student>, grades: seq<Grade>, subject: string, g: Grade)
    requires g in grades && g.subject == subject && StudentExists(students, g.studentId)
    ensures exists t :: Joined(students, grades, subject, t) && t.score == g.score
  {
    var s :| s in students && s.id == g.studentId;
    assert Joined(students, grades, subject, Topper(s.name, g.score));
  }

  /**
   * Under the store invariant every grade joins its student, so a topper
   * exists exactly when some grade has the subject.
   */
  lemma TopperExistsIffSubjectGraded(students: seq<Student>, grades: seq<Grade>, subject: string)
    requires GradesReferenceStudents(students, grades)
    ensures SubjectTopper(students, grades, subject).None? <==> forall g :: g in grades ==> g.subject != subject
  {
    var r := SubjectTopper(students, grades, subject);
    forall g | g in grades ensures g.subject == subject ==> r.Some? {
      if g.subject == subject {
        GradeJoins(students, grades, subject, g);
      }
    }
    if r.Some? {
      var g, s :| g in grades && s in students && g.subject == subject && g.studentId == s.id
        && r.value == Topper(s.name, g.score);
    }
  }

  /**
   * Under the store invariant the topper's score is the highest score any
   * grade of the subject has, and some grade of the subject has it.
   */
  lemma TopperScoreIsSubjectMaximum(students: seq<Student>, grades: seq<Grade>, subject: string)
    requires GradesReferenceStudents(students, grades)
    ensures SubjectTopper(students, grades, subject).Some? ==>
      && (exists g :: g in grades && g.subject == subject && g.score == SubjectTopper(students, grades, subject).value.score)
      && (forall g :: g in grades && g.subject == subject ==> g.score <= SubjectTopper(students, grades, subject).value.score)
  {
    var r := SubjectTopper(students, grades, subject);
    if r.Some? {
      var g, s :| g in grades && s in students && g.subject == subject && g.studentId == s.id
        && r.value == Topper(s.name, g.score);
      forall g' | g' in grades && g'.subject == subject ensures g'.score <= r.value.score {
        GradeJoins(students, grades, subject, g');
        var t :| Joined(students, grades, subject, t) && t.score == g'.score;
        assert RanksAtLeast(r.value, t);
      }
    }
  }

  /** Math grades (Alice, 90) and (Bob, 95): the higher score wins, so Bob is the topper. */
  lemma TopperStrictWinner()
    ensures SubjectTopper([Student(1, "Alice", "R1"), Student(2, "Bob", "R2")],
                          [Grade(1, 1, "Math", 90), Grade(2, 2, "Math", 95)], "Math")
         == Some(Topper("Bob", 95))
  {
    var alice, bob := Student(1, "Alice", "R1"), Student(2, "Bob", "R2");
    var a, b := Grade(1, 1, "Math", 90), Grade(2, 2, "Math", 95);
    var students, grades := [alice, bob], [a, b];
    var winner := Topper("Bob", 95);
    assert Joined(students, grades, "Math", winner) by {
      assert b in grades && bob in students;
    }
    forall u | Joined(students, grades, "Math", u) ensures RanksAtLeast(winner, u) {
      var g, s :| g in grades && s in students && g.subject == "Math" && g.studentId == s.id
        && u == Topper(s.name, g.score);
      assert g == a || g == b;
      assert s == alice || s == bob;
      TextLeReflexive(winner.name);
    }
    TopperIsUnique(students, grades, "Math", winner);
  }

  /** Math grades (Alice, 90) and (Bob, 90): the tie goes to the name that sorts first, Alice. */
  lemma TopperTieGoesToSmallerName()
    ensures SubjectTopper([Student(1, "Alice", "R1"), Student(2, "Bob", "R2")],
                          [Grade(1, 1, "Math", 90), Grade(2, 2, "Math", 90)], "Math")
         == Some(Topper("Alice", 90))
  {
    var alice, bob := Student(1, "Alice", "R1"), Student(2, "Bob", "R2");
    var a, b := Grade(1, 1, "Math", 90), Grade(2, 2, "Math", 90);
    var students, grades := [alice, bob], [a, b];
    var winner := Topper("Alice", 90);
    assert Joined(students, grades, "Math", winner) by {
      assert a in grades && alice in students;
    }
    forall u | Joined(students, grades, "Math", u) ensures RanksAtLeast(winner, u) {
      var g, s :| g in grades && s in students && g.subject == "Math" && g.studentId == s.id
        && u == Topper(s.name, g.score);
      assert g == a || g == b;
      assert s == alice || s == bob;
      TextLeReflexive(winner.name);
      assert TextLe("Alice", "Bob") by { assert "Alice"[0] < "Bob"[0]; }
    }
    TopperIsUnique(students, grades, "Math", winner);
  }
}
