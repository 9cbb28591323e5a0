# Student performance tracker: a verified model of `StudentTracker`

This project models `StudentTracker`, the store behind the student
performance tracker web application. The store keeps two tables. The
`students` table holds an id, a name and a roll number. The `grades` table
holds an id, a student id, a subject and a score. The store appends rows under
the schema's constraints and answers aggregate queries over them.

The SQLite database is modelled as in-memory tables:

- `Rows` (rows.dfy) holds the row types `Student` and `Grade` and the
  invariant of the two tables (`TablesInvariant`):
  - ids ascend in append order and never exceed their AUTOINCREMENT counter;
  - roll numbers are pairwise distinct;
  - every score lies in 0..100;
  - every grade's `student_id` names an existing student.
  It also holds the lookup by id and the `WHERE student_id = ?` and
  `WHERE subject = ?` selections.
- `Queries` (queries.dfy) holds the read-only queries as functions of the
  table contents: the two listings, the two averages and the subject topper.
- `Tracker` (tracker.dfy) holds the class `StudentTracker`. Its fields are the
  two tables and the two AUTOINCREMENT counters. `AddStudent` and `AddGrade`
  change them, and `ExportBackup` reads them. The module also has the lemmas
  showing that each successful append keeps the invariant, and a client
  session (`ExampleSession`) built from the contracts alone.
- `Ordering` (ordering.dfy) holds the orders the SQL text relies on:
  - `ORDER BY id DESC`, shown to be the reverse of append order and the only
    strictly id-descending arrangement of the rows;
  - SQLite's BINARY collation on TEXT (`TextLe`), a total order. It is the
    tie-break of the subject topper.

An AUTOINCREMENT id is the table's counter plus one. A rejected insert
(UNIQUE violation) rolls back and leaves the counter alone. Averages are
exact: sum / count as a `real`, and 0 when no row matches (`IsAverageOf`).

## Model

| member | source | states |
|---|---|---|
| `Tracker.StudentTracker.constructor` | models.py:6-8 | a new tracker over a fresh database has both tables empty, both counters at 0, and satisfies the store invariant |
| `Tracker.StudentTracker.AddStudent` | models.py:44-51 | succeeds exactly when no student holds the roll number. On success it appends `Student(counter+1, name, roll)`, whose id exceeds every earlier id, and `FindStudentById` then returns that row. On a duplicate roll it returns `(false, "Roll number already exists. Use a unique roll number.")` and leaves both tables and counters unchanged. Grades are never touched, and the invariant is preserved |
| `Tracker.StudentTracker.AddGrade` | models.py:60-70 | a score outside 0..100 gives `(false, "Score must be between 0 and 100.")` whether or not the student exists. A missing student gives `(false, "Student does not exist.")`. In both cases nothing changes. Otherwise exactly one grade is appended with the next, larger id and `(true, None)` is returned. The students table is never touched, and the invariant is preserved |
| `Tracker.StudentTracker.ExportBackup` | models.py:107-113 | the backup holds exactly the current student and grade rows. Its rolls are distinct, its scores are in range and its grades all reference students in the backup |
| `Tracker.StudentAppendKeepsInvariant` | models.py:19-21 | appending a student with the next id and an unused roll keeps the store invariant. The new id is larger than every existing id, and a lookup of it returns the new row |
| `Tracker.GradeAppendKeepsInvariant` | models.py:26-30 | appending a grade with the next id, a score in 0..100 and an existing student keeps the store invariant (the CHECK and FOREIGN KEY constraints, enforced by the explicit checks) |
| `Tracker.SingleGradeQueries` | models.py:72-83 | a student whose only grade is Physics 85 is listed as `[("Physics", 85)]` and averages 85 |
| `Rows.FindStudentById` | models.py:53-57 | returns None exactly when no student has the id; otherwise it returns a row of the table with that id |
| `Rows.FindStudentByIdReturnsRow` | models.py:53-57 | since ids are distinct, looking up a student's id returns that very row |
| `Rows.GradesOf` | models.py:74 | exactly the grades whose `student_id` matches, keeping ascending id order |
| `Rows.GradesIn` | models.py:101 | exactly the grades whose subject matches, keeping ascending id order |
| `Queries.GetAllStudents` | models.py:38-42 | lists every student and nothing else. When ids ascend in append order, the listing's ids strictly descend |
| `Queries.AllStudentsIsOrderByIdDesc` | models.py:40 | any strictly id-descending arrangement of the student rows equals the listing, so the listing is exactly `ORDER BY id DESC` |
| `Queries.GradeRowsOf` | models.py:74 | exactly the student's grade rows, with strictly descending ids |
| `Queries.GetGradesForStudent` | models.py:72-76 | its entries are exactly the (subject, score) pairs of the student's grades. It is empty exactly when the student has no grades |
| `Queries.Entries` | models.py:74-76 | one (subject, score) entry per row, in the rows' order: the entry at each position is that row's pair, every row's pair appears, and every entry comes from a row |
| `Queries.GradesForStudentIsOrderByIdDesc` | models.py:74 | for any strictly grade-id-descending arrangement of the student's grades, the listing equals that arrangement's (subject, score) entries, so it is newest first |
| `Queries.UnknownStudentHasNoGrades` | models.py:64-66 | under the store invariant, an id with no student has an empty grade listing and average 0 |
| `Queries.SumBounds` | models.py:29 | a sum of scores in 0..100 lies between 0 and 100 times their count |
| `Queries.Mean` | models.py:80-83 | the result is the exact `AVG`: 0 for no scores, otherwise result times count equals the sum |
| `Queries.MeanWithinScoreRange` | models.py:29 | the mean of scores in 0..100 is itself in 0..100 |
| `Queries.AverageOfRowsWithinScoreRange` | models.py:29 | the mean score of rows taken from a table whose scores are in range is in 0..100 |
| `Queries.AverageForStudent` | models.py:78-83 | the result is 0 when the student has no grades, and otherwise it is the exact mean of the student's scores |
| `Queries.AverageForStudentWithinScoreRange` | models.py:78-83 | under the CHECK constraint on scores, a student's average lies in 0..100 |
| `Queries.ClassAverageForSubject` | models.py:99-104 | the result is 0 when no grade has the subject, and otherwise it is the exact mean of the subject's scores |
| `Queries.ClassAverageForSubjectWithinScoreRange` | models.py:99-104 | under the CHECK constraint on scores, a subject's class average lies in 0..100 |
| `Queries.RanksAtLeastTransitive` | models.py:93 | the order `score DESC, name ASC` is transitive |
| `Queries.JoinOne` | models.py:91 | exactly the students whose id equals the grade's `student_id`, each paired with the grade's score |
| `Queries.JoinRows` | models.py:88-92 | exactly the (name, score) rows of `grades JOIN students ON g.student_id = s.id WHERE g.subject = ?` |
| `Queries.Best` | models.py:93-94 | returns one of the rows, and it ranks at least as high as every row under `score DESC, name ASC` |
| `Queries.SubjectTopper` | models.py:86-97 | None exactly when no joined row has the subject. Otherwise it returns a joined row whose score is the highest, and among rows with that score, whose name sorts first |
| `Queries.TopperIsUnique` | models.py:93-94 | any joined row that ranks at least every joined row is the topper, so the tie-break is deterministic |
| `Queries.GradeJoins` | models.py:88-92 | a grade of the subject whose student exists yields a joined row with that grade's score |
| `Queries.TopperExistsIffSubjectGraded` | models.py:86-97 | under the store invariant, the topper is None exactly when no grade has the subject |
| `Queries.TopperScoreIsSubjectMaximum` | models.py:86-97 | under the store invariant, the topper's score is reached by some grade of the subject, and no grade of the subject has a higher score |
| `Queries.TopperStrictWinner` | models.py:86-97 | Math (Alice, 90), (Bob, 95) gives Bob with 95: the higher score wins |
| `Queries.TopperTieGoesToSmallerName` | models.py:86-97 | Math (Alice, 90), (Bob, 90) gives Alice with 90: a tie goes to the name that sorts first |
| `Ordering.Reversed` | models.py:40 | the reversal has the same length and exactly the same rows |
| `Ordering.ReversedAscending` | models.py:40 | reversing rows whose keys ascend gives rows whose keys strictly descend |
| `Ordering.DescendingIsUnique` | models.py:40 | two strictly key-descending sequences with the same rows are equal |
| `Ordering.TextLeReflexive` | models.py:93 | BINARY text order is reflexive |
| `Ordering.TextLeTotal` | models.py:93 | any two names are comparable under BINARY text order |
| `Ordering.TextLeAntisymmetric` | models.py:93 | names that sort at or before each other are equal |
| `Ordering.TextLeTransitive` | models.py:93 | BINARY text order is transitive |

## Left out

- Connection handling (`_connect`, `closing`, `row_factory`, `commit`, `check_same_thread`): this is engine plumbing, so the tables are in-memory sequences.
- Schema creation in `_create_tables`: the model keeps the constraints it declares. The two indexes have no observable effect.
- `ON DELETE CASCADE`: there is no delete operation, and foreign keys are never switched on for the connection. Referential integrity rests on the explicit check in `add_grade`.
- Tracker.StudentTracker.constructor: models only a new, empty database. It does not model reopening a file that already holds rows. The invariant allows gaps in ids, so a reopened file would satisfy it.
- Queries.AverageForStudent: returns the exact mean, not `round(avg, 2)` of a floating-point `AVG`. Floating point is not modelled.
- Queries.ClassAverageForSubject: returns the exact mean, not `round(avg, 2)`, for the same reason.
- Tracker.StudentTracker.AddStudent: any `IntegrityError` becomes the duplicate-roll message. The model raises it only for the UNIQUE constraint. A NOT NULL violation would need a `None` name or roll, which a `string` cannot hold.
- Tracker.StudentTracker.ExportBackup: `SELECT` without `ORDER BY` is modelled as table (append) order. SQLite returns that order for these tables but does not promise it.
- Rows.FindStudentById: an id outside signed 64-bit is not rejected, because ids are unbounded integers in the model. SQLite stores INTEGER as signed 64-bit: Python's sqlite3 raises `OverflowError` when binding an int outside that range, and that error is not caught. Exhausting AUTOINCREMENT at 2^63-1 gives SQLITE_FULL (`OperationalError`), which models.py:50 does not catch either. Neither is modelled.
- Tracker.StudentTracker.AddStudent: never fails once the id counter reaches 2^63-1, for the same reason.
- Tracker.StudentTracker.AddGrade: a student id outside signed 64-bit is not rejected, and the grade id counter never runs out, for the same reason. A score is range-checked before any binding, so it cannot overflow.
- Queries.GetGradesForStudent: a student id outside signed 64-bit is not rejected, for the same reason.
- Queries.AverageForStudent: a student id outside signed 64-bit is not rejected, for the same reason.
- Empty names, rolls and subjects: the store accepts them. Only the web layer in app.py rejects them, so the write methods have no precondition against them; the model follows the code.
- The web layer (app.py): routing, templates, flash messages, redirects, `jsonify` and JSON shape, favicon, server start-up.
- Row-to-dict conversion: results are typed records (`Student`, `GradeEntry`, `Topper`, `Backup`).
- Concurrent requests: these rely on SQLite locking. The model is sequential.
- Restoring from a backup: the application has no import operation, so the backup round trip is not modelled.
