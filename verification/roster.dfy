/**
 * The gradebook ("ведомость") read: the students of one group, each
 * left-joined to that student's grades in one subject, ordered by name.
 * server.js, routes/grades.js and routes/gradebook.js all run this join.
 */
module Roster {
  import opened Wrappers
  import opened Schema
  import opened Sorting

  /** One result row; the grade columns are NULL when the student has no grade in the subject. */
  datatype RosterRow = RosterRow(
    studentId: nat, studentName: string, card: Option<string>,
    grade: Option<int>, gradeType: Option<GradeType>, isPass: Option<int>,
    date: Option<string>, teacherId: Option<int>)

  /** `LEFT JOIN grades g ON s.id = g.student_id AND g.subject_id = ?` */
  predicate JoinsOn(s: Student, g: GradeRow, subjectId: int) {
    g.studentId == s.id && g.subjectId == subjectId
  }

  /** Row `x` carries grade row `g`'s columns. */
  predicate Carries(x: RosterRow, g: GradeRow) {
    && x.grade == g.grade && x.gradeType == Some(g.gradeType) && x.isPass == g.isPass
    && x.date == Some(g.date) && x.teacherId == g.teacherId
  }

  predicate IsNullRow(x: RosterRow) {
    x.grade.None? && x.gradeType.None? && x.isPass.None? && x.date.None? && x.teacherId.None?
  }

  predicate Describes(x: RosterRow, s: Student) {
    x.studentId == s.id && x.studentName == s.name && x.card == s.card
  }

  function Combine(s: Student, g: GradeRow): RosterRow {
    RosterRow(s.id, s.name, s.card, g.grade, Some(g.gradeType), g.isPass, Some(g.date), g.teacherId)
  }

  /** How many grade rows join the student. */
  function JoinCount(s: Student, grades: seq<GradeRow>, subjectId: int): nat {
    if |grades| == 0 then 0
    else JoinCount(s, grades[..|grades| - 1], subjectId) + (if JoinsOn(s, grades[|grades| - 1], subjectId) then 1 else 0)
  }

  lemma {:induction false} JoinCountFront(s: Student, grades: seq<GradeRow>, subjectId: int)
    requires |grades| > 0
    ensures JoinCount(s, grades, subjectId)
         == (if JoinsOn(s, grades[0], subjectId) then 1 else 0) + JoinCount(s, grades[1..], subjectId)
    decreases |grades|
  {
    if |grades| > 1 {
      var init := grades[..|grades| - 1];
      assert init[1..] == grades[1..][..|grades[1..]| - 1];
      assert init[0] == grades[0];
      JoinCountFront(s, init, subjectId);
    } else {
      assert grades[..0] == [];
    }
  }

  /** The rows one student contributes: one per joined grade, in table order. */
  function Matched(s: Student, grades: seq<GradeRow>, subjectId: int): (r: seq<RosterRow>)
    ensures |r| == JoinCount(s, grades, subjectId)
    ensures forall x :: x in r ==> Describes(x, s)
    ensures forall x :: x in r ==> exists j :: 0 <= j < |grades| && JoinsOn(s, grades[j], subjectId) && Carries(x, grades[j])
    ensures forall j :: 0 <= j < |grades| && JoinsOn(s, grades[j], subjectId) ==> Combine(s, grades[j]) in r
    ensures |r| == 0 <==> forall j :: 0 <= j < |grades| ==> !JoinsOn(s, grades[j], subjectId)
  {
    if |grades| == 0 then []
    else
      var rest := Matched(s, grades[1..], subjectId);
      assert forall j :: 1 <= j < |grades| ==> grades[j] == grades[1..][j - 1];
      JoinCountFront(s, grades, subjectId);
      if JoinsOn(s, grades[0], subjectId) then [Combine(s, grades[0])] + rest else rest
  }

  /** A student's rows after the LEFT JOIN: the matches, or one row of NULLs. */
  /** How many rows the LEFT JOIN gives a student: one per joined grade, or the single NULL row. */
  function RowCount(s: Student, grades: seq<GradeRow>, subjectId: int): nat {
    var n := JoinCount(s, grades, subjectId);
    if n == 0 then 1 else n
  }

  /** How many rows the whole join has: the row counts of the group's students, added up. */
  function GroupRowCount(students: seq<Student>, grades: seq<GradeRow>, groupId: int, subjectId: int): nat {
    if |students| == 0 then 0
    else (if InGroup(students[0], groupId) then RowCount(students[0], grades, subjectId) else 0)
         + GroupRowCount(students[1..], grades, groupId, subjectId)
  }

  function RowsFor(s: Student, grades: seq<GradeRow>, subjectId: int): (r: seq<RosterRow>)
    ensures |r| >= 1
    ensures |r| == RowCount(s, grades, subjectId)
    ensures forall x :: x in r ==> Describes(x, s)
    ensures forall x :: x in r && IsNullRow(x) ==> forall j :: 0 <= j < |grades| ==> !JoinsOn(s, grades[j], subjectId)
    ensures forall x :: x in r && !IsNullRow(x) ==> exists j :: 0 <= j < |grades| && JoinsOn(s, grades[j], subjectId) && Carries(x, grades[j])
    ensures (forall j :: 0 <= j < |grades| ==> !JoinsOn(s, grades[j], subjectId)) ==> exists x :: x in r && IsNullRow(x)
  {
    var m := Matched(s, grades, subjectId);
    if |m| == 0 then
      var x := RosterRow(s.id, s.name, s.card, None, None, None, None, None);
      assert x in [x];
      [x]
    else m
  }

  /** `WHERE s.group_id = ?`, then the join, in student-table order. */
  function Joined(students: seq<Student>, grades: seq<GradeRow>, groupId: int, subjectId: int): (r: seq<RosterRow>)
    ensures |r| == GroupRowCount(students, grades, groupId, subjectId)
    ensures forall x :: x in r ==> exists k :: 0 <= k < |students| && InGroup(students[k], groupId)
                                                && x in RowsFor(students[k], grades, subjectId)
    ensures forall k :: 0 <= k < |students| && InGroup(students[k], groupId) ==>
                          forall x :: x in RowsFor(students[k], grades, subjectId) ==> x in r
  {
    if |students| == 0 then []
    else
      var rest := Joined(students[1..], grades, groupId, subjectId);
      var r := if InGroup(students[0], groupId) then RowsFor(students[0], grades, subjectId) + rest else rest;
      JoinedSound(students, grades, groupId, subjectId, rest, r);
      JoinedComplete(students, grades, groupId, subjectId, rest, r);
      r
  }

  /** Every row of the step's result comes from a student of the group. */
  lemma JoinedSound(students: seq<Student>, grades: seq<GradeRow>, groupId: int, subjectId: int,
                    rest: seq<RosterRow>, r: seq<RosterRow>)
    requires |students| > 0
    requires r == if InGroup(students[0], groupId) then RowsFor(students[0], grades, subjectId) + rest else rest
    requires forall x :: x in rest ==> exists k :: 0 <= k < |students[1..]| && InGroup(students[1..][k], groupId)
                                                  && x in RowsFor(students[1..][k], grades, subjectId)
    ensures forall x :: x in r ==> exists k :: 0 <= k < |students| && InGroup(students[k], groupId)
                                             && x in RowsFor(students[k], grades, subjectId)
  {
    forall x | x in r ensures exists k :: 0 <= k < |students| && InGroup(students[k], groupId)
                                         && x in RowsFor(students[k], grades, subjectId)
    {
      if x in rest {
        var k :| 0 <= k < |students[1..]| && InGroup(students[1..][k], groupId) && x in RowsFor(students[1..][k], grades, subjectId);
        assert students[1..][k] == students[k + 1];
      }
    }
  }

  /** Every row of every student of the group is in the step's result. */
  lemma JoinedComplete(students: seq<Student>, grades: seq<GradeRow>, groupId: int, subjectId: int,
                       rest: seq<RosterRow>, r: seq<RosterRow>)
    requires |students| > 0
    requires r == if InGroup(students[0], groupId) then RowsFor(students[0], grades, subjectId) + rest else rest
    requires forall k :: 0 <= k < |students[1..]| && InGroup(students[1..][k], groupId) ==>
                         forall x :: x in RowsFor(students[1..][k], grades, subjectId) ==> x in rest
    ensures forall k :: 0 <= k < |students| && InGroup(students[k], groupId) ==>
                        forall x :: x in RowsFor(students[k], grades, subjectId) ==> x in r
  {
    forall k | 0 <= k < |students| && InGroup(students[k], groupId)
      ensures forall x :: x in RowsFor(students[k], grades, subjectId) ==> x in r
    {
      var rows := RowsFor(students[k], grades, subjectId);
      if k == 0 {
        assert r == rows + rest;
      } else {
        assert students[k] == students[1..][k - 1];
        assert forall x :: x in rows ==> x in rest;
        assert forall x :: x in rest ==> x in r;
      }
    }
  }

  predicate NameLe(a: RosterRow, b: RosterRow) {
    LexLe(a.studentName, b.studentName)
  }

  lemma NameLeTotal()
    ensures Total(NameLe)
  {
    forall a: RosterRow, b: RosterRow ensures NameLe(a, b) || NameLe(b, a) {
      LexLeTotal(a.studentName, b.studentName);
    }
  }

  /** `ORDER BY s.name` over the joined rows. */
  function Read(students: seq<Student>, grades: seq<GradeRow>, groupId: int, subjectId: int): (r: seq<RosterRow>)
    ensures SortedBy(r, NameLe)
    ensures multiset(r) == multiset(Joined(students, grades, groupId, subjectId))
    ensures |r| == GroupRowCount(students, grades, groupId, subjectId)
  {
    NameLeTotal();
    SortBy(Joined(students, grades, groupId, subjectId), NameLe)
  }

  /** Sorting keeps exactly the joined rows. */
  lemma ReadHasJoinedRows(students: seq<Student>, grades: seq<GradeRow>, groupId: int, subjectId: int, x: RosterRow)
    ensures x in Read(students, grades, groupId, subjectId) <==> x in Joined(students, grades, groupId, subjectId)
  {
    var r := Read(students, grades, groupId, subjectId);
    var joined := Joined(students, grades, groupId, subjectId);
    assert x in r <==> x in multiset(r);
    assert x in joined <==> x in multiset(joined);
  }

  predicate InGroup(s: Student, groupId: int) {
    s.groupId == Some(groupId)
  }

  /** Every returned row is for a student of the requested group. */
  lemma OnlyGroupStudents(students: seq<Student>, grades: seq<GradeRow>, groupId: int, subjectId: int, x: RosterRow)
    requires x in Read(students, grades, groupId, subjectId)
    ensures exists k :: 0 <= k < |students| && InGroup(students[k], groupId) && Describes(x, students[k])
  {
    ReadHasJoinedRows(students, grades, groupId, subjectId, x);
  }

  /** Every student of the group appears, graded or not. */
  lemma EveryGroupStudentListed(students: seq<Student>, grades: seq<GradeRow>, groupId: int, subjectId: int, k: nat)
    requires k < |students| && InGroup(students[k], groupId)
    ensures exists x :: x in Read(students, grades, groupId, subjectId) && Describes(x, students[k])
  {
    var rows := RowsFor(students[k], grades, subjectId);
    assert rows[0] in rows;
    ReadHasJoinedRows(students, grades, groupId, subjectId, rows[0]);
  }

  /** A non-NULL grade in the result is that student's grade in the requested subject. */
  lemma GradesFromSubjectOnly(students: seq<Student>, grades: seq<GradeRow>, groupId: int, subjectId: int, x: RosterRow)
    requires x in Read(students, grades, groupId, subjectId) && !IsNullRow(x)
    ensures exists j :: 0 <= j < |grades| && grades[j].subjectId == subjectId
                        && grades[j].studentId == x.studentId && Carries(x, grades[j])
  {
    ReadHasJoinedRows(students, grades, groupId, subjectId, x);
    assert x in Joined(students, grades, groupId, subjectId);
    var k :| 0 <= k < |students| && InGroup(students[k], groupId) && x in RowsFor(students[k], grades, subjectId);
    CarriedGrade(students[k], grades, subjectId, x);
  }

  /** A non-NULL row of one student carries one of that student's grades in the subject. */
  lemma CarriedGrade(s: Student, grades: seq<GradeRow>, subjectId: int, x: RosterRow)
    requires x in RowsFor(s, grades, subjectId) && !IsNullRow(x)
    ensures exists j :: 0 <= j < |grades| && grades[j].subjectId == subjectId
                        && grades[j].studentId == x.studentId && Carries(x, grades[j])
  {
    var j :| 0 <= j < |grades| && JoinsOn(s, grades[j], subjectId) && Carries(x, grades[j]);
    assert Describes(x, s);
  }

  /** A student of the group without a grade in the subject still appears, with NULL grade columns. */
  lemma UngradedStudentGetsNullRow(students: seq<Student>, grades: seq<GradeRow>, groupId: int, subjectId: int, k: nat)
    requires k < |students| && InGroup(students[k], groupId)
    requires forall j :: 0 <= j < |grades| ==> !JoinsOn(students[k], grades[j], subjectId)
    ensures exists x :: x in Read(students, grades, groupId, subjectId) && Describes(x, students[k]) && IsNullRow(x)
  {
    var s := students[k];
    var rows := RowsFor(s, grades, subjectId);
    assert forall j :: 0 <= j < |grades| ==> !JoinsOn(s, grades[j], subjectId);
    var x :| x in rows && IsNullRow(x);
    ReadHasJoinedRows(students, grades, groupId, subjectId, x);
  }

  /** The result is empty exactly when the group has no students. */
  lemma {:induction false} ReadEmptyIffNoStudents(students: seq<Student>, grades: seq<GradeRow>, groupId: int, subjectId: int)
    ensures |Read(students, grades, groupId, subjectId)| > 0 <==> exists k :: 0 <= k < |students| && InGroup(students[k], groupId)
  {
    var r := Read(students, grades, groupId, subjectId);
    if |r| > 0 {
      assert r[0] in r;
      OnlyGroupStudents(students, grades, groupId, subjectId, r[0]);
    }
    if exists k :: 0 <= k < |students| && InGroup(students[k], groupId) {
      var k :| 0 <= k < |students| && InGroup(students[k], groupId);
      EveryGroupStudentListed(students, grades, groupId, subjectId, k);
    }
  }

  /**
   * The routes/ variant of the read. Its inner `JOIN groups` and
   * `JOIN subjects subj ON subj.id = ?` drop every row when the group or the
   * subject does not exist, and the response takes the names from the first
   * row, so they are undefined when nothing comes back.
   */
  datatype Book = Book(group: Option<string>, subject: Option<string>, students: seq<RosterRow>)

  function BookOf(db: Db, groupId: int, subjectId: int): (r: Book)
    ensures |r.students| > 0 <==>
      && GroupName(db.groups, groupId).Some? && SubjectName(db.subjects, subjectId).Some?
      && exists k :: 0 <= k < |db.students| && InGroup(db.students[k], groupId)
    ensures |r.students| > 0 ==> r.group == GroupName(db.groups, groupId) && r.subject == SubjectName(db.subjects, subjectId)
    ensures |r.students| == 0 ==> r.group.None? && r.subject.None?
    ensures |r.students| > 0 ==> r.students == Read(db.students, db.grades, groupId, subjectId)
  {
    ReadEmptyIffNoStudents(db.students, db.grades, groupId, subjectId);
    var g := GroupName(db.groups, groupId);
    var s := SubjectName(db.subjects, subjectId);
    var rows := if g.Some? && s.Some? then Read(db.students, db.grades, groupId, subjectId) else [];
    if |rows| > 0 then Book(g, s, rows) else Book(None, None, [])
  }
}
