/**
 * The look-up-then-update-or-insert sequence both grade handlers run against
 * the grades table (server.js and routes/grades.js issue the same three
 * statements), with the table's CHECK constraints deciding whether the write
 * is accepted.
 */
module GradeStore {
  import opened Wrappers
  import opened Schema

  /**
   * Whether `WHERE student_id = ? AND subject_id = ? AND grade_type = ?` selects
   * `g`. A NULL grade_type parameter compares unknown and selects nothing.
   */
  predicate Matches(g: GradeRow, studentId: int, subjectId: int, gradeType: Option<string>) {
    g.studentId == studentId && g.subjectId == subjectId && gradeType == Some(GradeTypeName(g.gradeType))
  }

  /** The SELECT: the first matching row's position. */
  function Find(rows: seq<GradeRow>, studentId: int, subjectId: int, gradeType: Option<string>): (r: Option<nat>)
    ensures r.Some? ==> r.value < |rows| && Matches(rows[r.value], studentId, subjectId, gradeType)
    ensures r.None? <==> forall k :: 0 <= k < |rows| ==> !Matches(rows[k], studentId, subjectId, gradeType)
  {
    if |rows| == 0 then None
    else
      var r := Find(rows[..|rows| - 1], studentId, subjectId, gradeType);
      if r.Some? then r
      else if Matches(rows[|rows| - 1], studentId, subjectId, gradeType) then Some(|rows| - 1)
      else None
  }

  /** Matching by name is the same as agreeing on the UNIQUE key. */
  lemma MatchesIsKey(g: GradeRow, studentId: int, subjectId: int, t: GradeType)
    ensures Matches(g, studentId, subjectId, Some(GradeTypeName(t))) <==> KeyOf(g) == GradeKey(studentId, subjectId, t)
  {
    if Matches(g, studentId, subjectId, Some(GradeTypeName(t))) {
      ParseGradeTypeName(g.gradeType);
      ParseGradeTypeName(t);
    }
  }

  datatype Outcome = Updated(id: nat) | Inserted(id: nat) | Violated

  /** `UPDATE grades SET grade = ?, date = ?, teacher_id = ? WHERE id = ?` */
  function SetWhereId(rows: seq<GradeRow>, id: nat, grade: int, date: string, teacher: int): (r: seq<GradeRow>)
    ensures |r| == |rows|
    ensures forall k :: 0 <= k < |rows| && rows[k].id != id ==> r[k] == rows[k]
    ensures forall k :: 0 <= k < |rows| && rows[k].id == id ==>
      r[k] == rows[k].(grade := Some(grade), date := date, teacherId := Some(teacher))
  {
    seq(|rows|, k requires 0 <= k < |rows| =>
      if rows[k].id == id then rows[k].(grade := Some(grade), date := date, teacherId := Some(teacher)) else rows[k])
  }

  /** The row the INSERT writes, or None when a NOT NULL or CHECK constraint refuses it. */
  function NewRow(rows: seq<GradeRow>, studentId: int, subjectId: int, gradeType: Option<string>,
                  grade: int, date: string, teacher: int): Option<GradeRow>
  {
    if gradeType.None? then None
    else
      match ParseGradeType(gradeType.value)
      case None => None
      case Some(t) =>
        if 2 <= grade <= 5 then
          Some(GradeRow(FreshId(rows, (g: GradeRow) => g.id), studentId, subjectId, Some(grade), None,
                        t, date, Some(teacher), None))
        else None
  }

  /**
   * One grade write. An existing key has its grade, date and teacher replaced
   * in place; a missing key gets exactly one new row; a write the CHECK
   * constraints refuse leaves the table as it was.
   */
  function Upsert(rows: seq<GradeRow>, studentId: int, subjectId: int, gradeType: Option<string>,
                  grade: int, date: string, teacher: int): (r: (Outcome, seq<GradeRow>))
    ensures r.0.Violated? <==>
      !(2 <= grade <= 5) || (Find(rows, studentId, subjectId, gradeType).None? &&
                             (gradeType.None? || ParseGradeType(gradeType.value).None?))
    ensures r.0.Violated? ==> r.1 == rows
    ensures r.0.Updated? ==>
      && Find(rows, studentId, subjectId, gradeType).Some?
      && r.0.id == rows[Find(rows, studentId, subjectId, gradeType).value].id
      && |r.1| == |rows|
      && forall k :: 0 <= k < |rows| ==>
           && r.1[k].id == rows[k].id && KeyOf(r.1[k]) == KeyOf(rows[k])
           && r.1[k].isPass == rows[k].isPass && r.1[k].notes == rows[k].notes
           && (rows[k].id == r.0.id ==> r.1[k].grade == Some(grade) && r.1[k].date == date && r.1[k].teacherId == Some(teacher))
           && (rows[k].id != r.0.id ==> r.1[k] == rows[k])
    ensures r.0.Inserted? ==>
      && Find(rows, studentId, subjectId, gradeType).None?
      && gradeType.Some? && ParseGradeType(gradeType.value).Some?
      && |r.1| == |rows| + 1 && r.1[..|rows|] == rows
      && r.1[|rows|].id == r.0.id
      && (forall k :: 0 <= k < |rows| ==> rows[k].id < r.0.id)
      && KeyOf(r.1[|rows|]) == GradeKey(studentId, subjectId, ParseGradeType(gradeType.value).value)
      && r.1[|rows|].grade == Some(grade) && r.1[|rows|].date == date && r.1[|rows|].teacherId == Some(teacher)
  {
    match Find(rows, studentId, subjectId, gradeType)
    case Some(i) =>
      if 2 <= grade <= 5 then (Updated(rows[i].id), SetWhereId(rows, rows[i].id, grade, date, teacher))
      else (Violated, rows)
    case None =>
      match NewRow(rows, studentId, subjectId, gradeType, grade, date, teacher)
      case Some(g) => (Inserted(g.id), rows + [g])
      case None => (Violated, rows)
  }

  /** Every accepted write keeps the CHECK constraints, the UNIQUE key and the primary key. */
  lemma {:induction false} UpsertPreservesValid(rows: seq<GradeRow>, studentId: int, subjectId: int,
                                                gradeType: Option<string>, grade: int, date: string, teacher: int)
    ensures GradesValid(rows) ==> GradesValid(Upsert(rows, studentId, subjectId, gradeType, grade, date, teacher).1)
  {
    if !GradesValid(rows) {
      return;
    }
    var r := Upsert(rows, studentId, subjectId, gradeType, grade, date, teacher);
    if r.0.Inserted? {
      var t := ParseGradeType(gradeType.value).value;
      var g := r.1[|rows|];
      assert r.1 == rows + [g];
      forall k | 0 <= k < |rows|
        ensures KeyOf(rows[k]) != KeyOf(g)
      {
        MatchesIsKey(rows[k], studentId, subjectId, t);
      }
      AppendFreshKeepsIdsDistinct(rows, (x: GradeRow) => x.id, g);
      forall i, j | 0 <= i < j < |r.1|
        ensures KeyOf(r.1[i]) != KeyOf(r.1[j])
      {
        if j < |rows| {
          assert r.1[i] == rows[i] && r.1[j] == rows[j];
        } else {
          assert r.1[i] == rows[i];
        }
      }
    } else if r.0.Updated? {
      forall i, j | 0 <= i < j < |r.1|
        ensures KeyOf(r.1[i]) != KeyOf(r.1[j]) && r.1[i].id != r.1[j].id
      {
        assert KeyOf(rows[i]) != KeyOf(rows[j]);
        assert rows[i].id != rows[j].id;
      }
    }
  }

  /** The number of rows carrying key `k`. */
  function CountKey(rows: seq<GradeRow>, k: GradeKey): (n: nat)
    ensures n <= |rows|
  {
    if |rows| == 0 then 0
    else CountKey(rows[..|rows| - 1], k) + (if KeyOf(rows[|rows| - 1]) == k then 1 else 0)
  }

  lemma {:induction false} DistinctKeyCountsAtMostOne(rows: seq<GradeRow>, k: GradeKey)
    requires DistinctBy(rows, KeyOf)
    ensures CountKey(rows, k) <= 1
    ensures CountKey(rows, k) == 1 <==> exists i :: 0 <= i < |rows| && KeyOf(rows[i]) == k
  {
    if |rows| > 0 {
      var p := rows[..|rows| - 1];
      assert DistinctBy(p, KeyOf) by {
        forall i, j | 0 <= i < j < |p| ensures KeyOf(p[i]) != KeyOf(p[j]) {
          assert p[i] == rows[i] && p[j] == rows[j];
        }
      }
      DistinctKeyCountsAtMostOne(p, k);
      if KeyOf(rows[|rows| - 1]) == k {
        forall i | 0 <= i < |p| ensures KeyOf(p[i]) != k {
          assert p[i] == rows[i];
        }
      }
      if exists i :: 0 <= i < |p| && KeyOf(p[i]) == k {
        var i :| 0 <= i < |p| && KeyOf(p[i]) == k;
        assert rows[i] == p[i];
      }
      if exists i :: 0 <= i < |rows| && KeyOf(rows[i]) == k {
        var i :| 0 <= i < |rows| && KeyOf(rows[i]) == k;
        if i < |p| {
          assert p[i] == rows[i];
        }
      }
    }
  }

  /**
   * Grading the same (student, subject, type) twice leaves exactly one row for
   * that key, carrying the second call's grade and date.
   */
  lemma {:induction false} SecondWriteWins(rows: seq<GradeRow>, studentId: int, subjectId: int, t: GradeType,
                                            g1: int, d1: string, g2: int, d2: string, teacher: int)
    requires GradesValid(rows)
    requires 2 <= g1 <= 5 && 2 <= g2 <= 5
    ensures var name := Some(GradeTypeName(t));
            var first := Upsert(rows, studentId, subjectId, name, g1, d1, teacher).1;
            var second := Upsert(first, studentId, subjectId, name, g2, d2, teacher).1;
            && CountKey(second, GradeKey(studentId, subjectId, t)) == 1
            && exists i :: 0 <= i < |second| && KeyOf(second[i]) == GradeKey(studentId, subjectId, t)
                        && second[i].grade == Some(g2) && second[i].date == d2
  {
    var name := Some(GradeTypeName(t));
    var key := GradeKey(studentId, subjectId, t);
    ParseGradeTypeName(t);
    var r1 := Upsert(rows, studentId, subjectId, name, g1, d1, teacher);
    UpsertPreservesValid(rows, studentId, subjectId, name, g1, d1, teacher);
    var r2 := Upsert(r1.1, studentId, subjectId, name, g2, d2, teacher);
    UpsertPreservesValid(r1.1, studentId, subjectId, name, g2, d2, teacher);
    // after the first write the key is present, so the second one updates
    assert Find(r1.1, studentId, subjectId, name).Some? by {
      if r1.0.Inserted? {
        MatchesIsKey(r1.1[|rows|], studentId, subjectId, t);
      } else {
        var i := Find(rows, studentId, subjectId, name).value;
        MatchesIsKey(rows[i], studentId, subjectId, t);
        MatchesIsKey(r1.1[i], studentId, subjectId, t);
      }
    }
    var i := Find(r1.1, studentId, subjectId, name).value;
    MatchesIsKey(r1.1[i], studentId, subjectId, t);
    assert KeyOf(r2.1[i]) == key && r2.1[i].grade == Some(g2) && r2.1[i].date == d2;
    DistinctKeyCountsAtMostOne(r2.1, key);
  }
}
