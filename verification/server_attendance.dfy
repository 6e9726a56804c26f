/**
 * server.js `POST /api/attendance`: a destructive replace of one day. Every
 * row for that date and subject whose student belongs to the group is
 * deleted, then one row per submitted record is inserted, in order. The
 * statements run one at a time without a transaction, so an INSERT the
 * table refuses leaves the deletion and the earlier inserts in place.
 */
module ServerAttendance {
  import opened Wrappers
  import opened Js
  import opened Schema

  /** One submitted mark; `notes` falls back to the empty string. */
  datatype Mark = Mark(studentId: Option<int>, status: Option<string>, notes: Option<string>)

  datatype DaySubmission = DaySubmission(
    date: Option<string>, subjectId: Option<int>, groupId: Option<int>, records: Option<seq<Mark>>)

  datatype DayReply = MissingData | DaySaved | DayFailed

  /** `student_id IN (SELECT id FROM students WHERE group_id = ?)` */
  predicate InGroup(students: seq<Student>, studentId: Option<int>, groupId: int) {
    studentId.Some? && exists k :: 0 <= k < |students| && students[k].id == studentId.value && students[k].groupId == Some(groupId)
  }

  /** The DELETE's WHERE clause. */
  predicate Cleared(students: seq<Student>, date: string, subjectId: int, groupId: int, a: AttendanceRow) {
    a.date == date && a.subjectId == Some(subjectId) && InGroup(students, a.studentId, groupId)
  }

  /** The rows the DELETE leaves, in table order. */
  function Keep(students: seq<Student>, date: string, subjectId: int, groupId: int, rows: seq<AttendanceRow>): (r: seq<AttendanceRow>)
    ensures |r| <= |rows|
    ensures forall x :: x in r <==> x in rows && !Cleared(students, date, subjectId, groupId, x)
  {
    if |rows| == 0 then []
    else
      var rest := Keep(students, date, subjectId, groupId, rows[1..]);
      assert forall x :: x in rows <==> x == rows[0] || x in rows[1..];
      if Cleared(students, date, subjectId, groupId, rows[0]) then rest else [rows[0]] + rest
  }

  lemma {:induction false} KeepAppend(students: seq<Student>, date: string, subjectId: int, groupId: int,
                                      a: seq<AttendanceRow>, b: seq<AttendanceRow>)
    ensures Keep(students, date, subjectId, groupId, a + b)
         == Keep(students, date, subjectId, groupId, a) + Keep(students, date, subjectId, groupId, b)
  {
    if |a| == 0 {
      assert a + b == b;
    } else {
      assert (a + b)[0] == a[0] && (a + b)[1..] == a[1..] + b;
      KeepAppend(students, date, subjectId, groupId, a[1..], b);
    }
  }

  lemma {:induction false} KeepIdempotent(students: seq<Student>, date: string, subjectId: int, groupId: int,
                                          rows: seq<AttendanceRow>)
    ensures var k := Keep(students, date, subjectId, groupId, rows);
            Keep(students, date, subjectId, groupId, k) == k
  {
    if |rows| > 0 {
      KeepIdempotent(students, date, subjectId, groupId, rows[1..]);
    }
  }

  lemma {:induction false} KeepNoneCleared(students: seq<Student>, date: string, subjectId: int, groupId: int,
                                           rows: seq<AttendanceRow>)
    requires forall i :: 0 <= i < |rows| ==> Cleared(students, date, subjectId, groupId, rows[i])
    ensures Keep(students, date, subjectId, groupId, rows) == []
  {
    if |rows| > 0 {
      KeepNoneCleared(students, date, subjectId, groupId, rows[1..]);
    }
  }

  /** A row's columns other than its id. */
  function Strip(a: AttendanceRow): AttendanceRow {
    a.(id := 0)
  }

  function Contents(rows: seq<AttendanceRow>): (r: seq<AttendanceRow>)
    ensures |r| == |rows|
  {
    if |rows| == 0 then [] else [Strip(rows[0])] + Contents(rows[1..])
  }

  lemma {:induction false} ContentsAppend(a: seq<AttendanceRow>, b: seq<AttendanceRow>)
    ensures Contents(a + b) == Contents(a) + Contents(b)
  {
    if |a| == 0 {
      assert a + b == b;
    } else {
      assert (a + b)[0] == a[0] && (a + b)[1..] == a[1..] + b;
      ContentsAppend(a[1..], b);
    }
  }

  /**
   * The row the INSERT for `m` writes, before its id is assigned. A record
   * without a status never gets this far (NOT NULL refuses it), so the
   * placeholder status is never stored.
   */
  function MarkRow(m: Mark, subjectId: int, date: string): AttendanceRow {
    AttendanceRow(0, m.studentId, Some(subjectId), None, date, m.status.GetOr(""), Some(OrStr(m.notes, "")))
  }

  /** Whether the table takes the INSERT for `m` (status NOT NULL, then the schema's CHECK). */
  predicate Insertable(schema: AttendanceSchema, m: Mark, subjectId: int, date: string) {
    m.status.Some? && AttendanceAccepts(schema, MarkRow(m, subjectId, date))
  }

  /**
   * The INSERT loop. On the first refused INSERT the loop stops with `false`;
   * the rows already inserted stay.
   */
  function InsertMarks(schema: AttendanceSchema, rows: seq<AttendanceRow>, marks: seq<Mark>,
                       subjectId: int, date: string): (r: (bool, seq<AttendanceRow>))
    ensures |rows| <= |r.1| <= |rows| + |marks| && r.1[..|rows|] == rows
    ensures r.0 <==> forall i :: 0 <= i < |marks| ==> Insertable(schema, marks[i], subjectId, date)
    ensures r.0 ==> |r.1| == |rows| + |marks|
    ensures forall j :: 0 <= j < |r.1| - |rows| ==> Insertable(schema, marks[j], subjectId, date)
    ensures forall i :: |rows| <= i < |r.1| ==> Strip(r.1[i]) == MarkRow(marks[i - |rows|], subjectId, date)
    ensures forall i :: |rows| <= i < |r.1| ==> forall k :: 0 <= k < |rows| ==> rows[k].id < r.1[i].id
    ensures DistinctBy(rows, (a: AttendanceRow) => a.id) ==> DistinctBy(r.1, (a: AttendanceRow) => a.id)
    decreases |marks|
  {
    if |marks| == 0 then (true, rows)
    else if !Insertable(schema, marks[0], subjectId, date) then (false, rows)
    else
      var row := MarkRow(marks[0], subjectId, date).(id := FreshId(rows, (a: AttendanceRow) => a.id));
      var rest := InsertMarks(schema, rows + [row], marks[1..], subjectId, date);
      InsertStep(schema, rows, row, marks, subjectId, date, rest);
      rest
  }

  /** The facts about the recursive call on `rows + [row]` and `marks[1..]`, restated for `rows` and `marks`. */
  lemma InsertStep(schema: AttendanceSchema, rows: seq<AttendanceRow>, row: AttendanceRow, marks: seq<Mark>,
                   subjectId: int, date: string, rest: (bool, seq<AttendanceRow>))
    requires |marks| > 0 && Insertable(schema, marks[0], subjectId, date)
    requires row == MarkRow(marks[0], subjectId, date).(id := FreshId(rows, (a: AttendanceRow) => a.id))
    requires |rows + [row]| <= |rest.1| <= |rows + [row]| + |marks[1..]| && rest.1[..|rows + [row]|] == rows + [row]
    requires rest.0 <==> forall i :: 0 <= i < |marks[1..]| ==> Insertable(schema, marks[1..][i], subjectId, date)
    requires rest.0 ==> |rest.1| == |rows + [row]| + |marks[1..]|
    requires forall j :: 0 <= j < |rest.1| - |rows + [row]| ==> Insertable(schema, marks[1..][j], subjectId, date)
    requires forall i :: |rows + [row]| <= i < |rest.1| ==> Strip(rest.1[i]) == MarkRow(marks[1..][i - |rows + [row]|], subjectId, date)
    requires forall i :: |rows + [row]| <= i < |rest.1| ==> forall k :: 0 <= k < |rows + [row]| ==> (rows + [row])[k].id < rest.1[i].id
    requires DistinctBy(rows + [row], (a: AttendanceRow) => a.id) ==> DistinctBy(rest.1, (a: AttendanceRow) => a.id)
    ensures |rows| <= |rest.1| <= |rows| + |marks| && rest.1[..|rows|] == rows
    ensures rest.0 <==> forall i :: 0 <= i < |marks| ==> Insertable(schema, marks[i], subjectId, date)
    ensures rest.0 ==> |rest.1| == |rows| + |marks|
    ensures forall j :: 0 <= j < |rest.1| - |rows| ==> Insertable(schema, marks[j], subjectId, date)
    ensures forall i :: |rows| <= i < |rest.1| ==> Strip(rest.1[i]) == MarkRow(marks[i - |rows|], subjectId, date)
    ensures forall i :: |rows| <= i < |rest.1| ==> forall k :: 0 <= k < |rows| ==> rows[k].id < rest.1[i].id
    ensures DistinctBy(rows, (a: AttendanceRow) => a.id) ==> DistinctBy(rest.1, (a: AttendanceRow) => a.id)
  {
    FreshRowKeepsIdsDistinct(rows, row);
    InsertedPrefix(rows, row, rest.1);
    ShiftMarks(schema, rows, row, marks, subjectId, date, rest.1);
    AllInsertableShift(schema, marks, subjectId, date);
    NewIdsAbove(rows, row, rest.1);
  }

  /** The rows kept before the new one stay a prefix of what the loop returns. */
  lemma InsertedPrefix(rows: seq<AttendanceRow>, row: AttendanceRow, rest: seq<AttendanceRow>)
    requires |rows| + 1 <= |rest| && rest[..|rows| + 1] == rows + [row]
    ensures rest[..|rows|] == rows && rest[|rows|] == row
  {
    assert rest[..|rows|] == rest[..|rows| + 1][..|rows|];
    assert rest[|rows|] == rest[..|rows| + 1][|rows|];
  }

  /** The recursive call's facts about `marks[1..]`, restated for `marks`. */
  lemma ShiftMarks(schema: AttendanceSchema, rows: seq<AttendanceRow>, row: AttendanceRow, marks: seq<Mark>,
                   subjectId: int, date: string, rest: seq<AttendanceRow>)
    requires |marks| > 0 && Insertable(schema, marks[0], subjectId, date)
    requires Strip(row) == MarkRow(marks[0], subjectId, date)
    requires |rows| + 1 <= |rest| <= |rows| + |marks| && rest[|rows|] == row
    requires forall j :: 0 <= j < |rest| - (|rows| + 1) ==> Insertable(schema, marks[1..][j], subjectId, date)
    requires forall i :: |rows| + 1 <= i < |rest| ==> Strip(rest[i]) == MarkRow(marks[1..][i - (|rows| + 1)], subjectId, date)
    ensures forall j :: 0 <= j < |rest| - |rows| ==> Insertable(schema, marks[j], subjectId, date)
    ensures forall i :: |rows| <= i < |rest| ==> Strip(rest[i]) == MarkRow(marks[i - |rows|], subjectId, date)
  {
    forall j | 0 < j < |rest| - |rows| ensures Insertable(schema, marks[j], subjectId, date) {
      assert marks[j] == marks[1..][j - 1];
    }
    forall i | |rows| < i < |rest| ensures Strip(rest[i]) == MarkRow(marks[i - |rows|], subjectId, date) {
      assert marks[i - |rows|] == marks[1..][i - (|rows| + 1)];
    }
  }

  lemma AllInsertableShift(schema: AttendanceSchema, marks: seq<Mark>, subjectId: int, date: string)
    requires |marks| > 0 && Insertable(schema, marks[0], subjectId, date)
    ensures (forall i :: 0 <= i < |marks| ==> Insertable(schema, marks[i], subjectId, date))
        <==> (forall i :: 0 <= i < |marks[1..]| ==> Insertable(schema, marks[1..][i], subjectId, date))
  {
    if forall i :: 0 <= i < |marks[1..]| ==> Insertable(schema, marks[1..][i], subjectId, date) {
      forall i | 0 < i < |marks| ensures Insertable(schema, marks[i], subjectId, date) {
        assert marks[i] == marks[1..][i - 1];
      }
    }
  }

  /** Ids above every id of `rows + [row]`, and `row`'s own, are above every id of `rows`. */
  lemma NewIdsAbove(rows: seq<AttendanceRow>, row: AttendanceRow, rest: seq<AttendanceRow>)
    requires forall k :: 0 <= k < |rows| ==> rows[k].id < row.id
    requires |rows| + 1 <= |rest| && rest[|rows|] == row
    requires forall i :: |rows| + 1 <= i < |rest| ==> forall k :: 0 <= k < |rows + [row]| ==> (rows + [row])[k].id < rest[i].id
    ensures forall i :: |rows| <= i < |rest| ==> forall k :: 0 <= k < |rows| ==> rows[k].id < rest[i].id
  {
    forall i, k | |rows| + 1 <= i < |rest| && 0 <= k < |rows| ensures rows[k].id < rest[i].id {
      assert (rows + [row])[k] == rows[k];
    }
  }

  lemma FreshRowKeepsIdsDistinct(rows: seq<AttendanceRow>, row: AttendanceRow)
    requires row.id == FreshId(rows, (a: AttendanceRow) => a.id)
    ensures DistinctBy(rows, (a: AttendanceRow) => a.id) ==> DistinctBy(rows + [row], (a: AttendanceRow) => a.id)
  {
    if DistinctBy(rows, (a: AttendanceRow) => a.id) {
      AppendFreshKeepsIdsDistinct(rows, (a: AttendanceRow) => a.id, row);
    }
  }

  /** Every row the loop inserts passed the table's constraints, so a valid table stays valid. */
  lemma InsertedRowsAccepted(schema: AttendanceSchema, rows: seq<AttendanceRow>, marks: seq<Mark>, subjectId: int, date: string)
    ensures AttendanceValid(schema, rows) ==> AttendanceValid(schema, InsertMarks(schema, rows, marks, subjectId, date).1)
  {
    var ins := InsertMarks(schema, rows, marks, subjectId, date);
    if AttendanceValid(schema, rows) {
      forall i | 0 <= i < |ins.1| ensures AttendanceAccepts(schema, ins.1[i]) {
        if i < |rows| {
          assert ins.1[i] == ins.1[..|rows|][i];
        } else {
          assert Strip(ins.1[i]) == MarkRow(marks[i - |rows|], subjectId, date);
        }
      }
    }
  }

  predicate Present(req: DaySubmission) {
    TruthyStr(req.date) && TruthyNum(req.subjectId) && TruthyNum(req.groupId) && req.records.Some?
  }

  /**
   * A falsy date, subject or group, or no `attendance_records`, is a 400 that
   * touches nothing; otherwise the DELETE runs and then the INSERT loop.
   */
  function ReplaceDay(db: Db, schema: AttendanceSchema, req: DaySubmission): (r: (DayReply, Db))
    ensures r.1 == db.(attendance := r.1.attendance)
    ensures r.0.MissingData? <==> !Present(req)
    ensures r.0.MissingData? ==> r.1 == db
    ensures AttendanceValid(schema, db.attendance) ==> AttendanceValid(schema, r.1.attendance)
  {
    if !Present(req) then (MissingData, db)
    else
      var date := req.date.value;
      var subjectId := req.subjectId.value;
      var kept := Spared(db, req);
      KeepPreservesValid(schema, db.students, date, subjectId, req.groupId.value, db.attendance);
      var ins := InsertMarks(schema, kept, req.records.value, subjectId, date);
      InsertedRowsAccepted(schema, kept, req.records.value, subjectId, date);
      (if ins.0 then DaySaved else DayFailed, db.(attendance := ins.1))
  }

  /**
   * What a submission that gets past the 400 leaves: the rows the DELETE
   * spared, in order, then one row per record accepted before the first
   * refused INSERT; 200 exactly when every record was accepted.
   */
  lemma ReplaceDayRows(db: Db, schema: AttendanceSchema, req: DaySubmission)
    requires Present(req)
    ensures var after := ReplaceDay(db, schema, req).1.attendance;
            var kept := Spared(db, req);
            |kept| <= |after| <= |kept| + |req.records.value| && after[..|kept|] == kept
    ensures ReplaceDay(db, schema, req).0.DaySaved?
        <==> forall i :: 0 <= i < |req.records.value| ==> Insertable(schema, req.records.value[i], req.subjectId.value, req.date.value)
    ensures ReplaceDay(db, schema, req).0.DaySaved? ==>
              |ReplaceDay(db, schema, req).1.attendance| == |Spared(db, req)| + |req.records.value|
    ensures forall i :: |Spared(db, req)| <= i < |ReplaceDay(db, schema, req).1.attendance| ==>
              Strip(ReplaceDay(db, schema, req).1.attendance[i])
                == MarkRow(req.records.value[i - |Spared(db, req)|], req.subjectId.value, req.date.value)
  {
    var kept := Spared(db, req);
    var ins := InsertMarks(schema, kept, req.records.value, req.subjectId.value, req.date.value);
    assert ReplaceDay(db, schema, req).1.attendance == ins.1;
    assert ReplaceDay(db, schema, req).0.DaySaved? <==> ins.0;
    var after := ReplaceDay(db, schema, req).1.attendance;
    forall i | |kept| <= i < |after|
      ensures Strip(after[i]) == MarkRow(req.records.value[i - |kept|], req.subjectId.value, req.date.value)
    {
      InsertedRow(schema, kept, req.records.value, req.subjectId.value, req.date.value, i);
    }
  }

  /**
   * The INSERT names no teacher_id, which the migrated table requires: there
   * the DELETE still runs, the first INSERT fails, and the day's rows are gone.
   */
  lemma MigratedTableLosesTheDay(db: Db, req: DaySubmission)
    requires Present(req) && |req.records.value| > 0
    ensures ReplaceDay(db, Migrated, req).0 == DayFailed
    ensures ReplaceDay(db, Migrated, req).1.attendance == Spared(db, req)
  {
    ReplaceDayRows(db, Migrated, req);
    var kept := Spared(db, req);
    var after := ReplaceDay(db, Migrated, req).1.attendance;
    assert !Insertable(Migrated, req.records.value[0], req.subjectId.value, req.date.value);
    assert after == after[..|kept|];
  }

  lemma InsertedRow(schema: AttendanceSchema, rows: seq<AttendanceRow>, marks: seq<Mark>, subjectId: int, date: string, i: int)
    requires |rows| <= i < |InsertMarks(schema, rows, marks, subjectId, date).1|
    ensures Strip(InsertMarks(schema, rows, marks, subjectId, date).1[i]) == MarkRow(marks[i - |rows|], subjectId, date)
  {
  }

  /** The rows the DELETE of a submission leaves. */
  function Spared(db: Db, req: DaySubmission): seq<AttendanceRow>
    requires Present(req)
  {
    Keep(db.students, req.date.value, req.subjectId.value, req.groupId.value, db.attendance)
  }

  lemma KeepPreservesValid(schema: AttendanceSchema, students: seq<Student>, date: string, subjectId: int, groupId: int,
                           rows: seq<AttendanceRow>)
    ensures AttendanceValid(schema, rows) ==> AttendanceValid(schema, Keep(students, date, subjectId, groupId, rows))
  {
    if AttendanceValid(schema, rows) {
      KeepIsSubsequence(students, date, subjectId, groupId, rows);
    }
  }

  /** Keep picks rows at increasing positions, so distinct ids stay distinct. */
  lemma {:induction false} KeepIsSubsequence(students: seq<Student>, date: string, subjectId: int, groupId: int,
                                             rows: seq<AttendanceRow>)
    requires DistinctBy(rows, (a: AttendanceRow) => a.id)
    ensures DistinctBy(Keep(students, date, subjectId, groupId, rows), (a: AttendanceRow) => a.id)
  {
    if |rows| > 0 {
      var tail := rows[1..];
      assert DistinctBy(tail, (a: AttendanceRow) => a.id) by {
        forall i, j | 0 <= i < j < |tail| ensures tail[i].id != tail[j].id {
          assert tail[i] == rows[i + 1] && tail[j] == rows[j + 1];
        }
      }
      KeepIsSubsequence(students, date, subjectId, groupId, tail);
      var rest := Keep(students, date, subjectId, groupId, tail);
      if !Cleared(students, date, subjectId, groupId, rows[0]) {
        forall j | 0 <= j < |rest| ensures rows[0].id != rest[j].id {
          assert rest[j] in tail;
          var t :| 0 <= t < |tail| && tail[t] == rest[j];
          assert tail[t] == rows[t + 1];
        }
        var r := [rows[0]] + rest;
        forall i, j | 0 <= i < j < |r| ensures r[i].id != r[j].id {
          if i == 0 {
            assert r[j] == rest[j - 1];
          } else {
            assert r[i] == rest[i - 1] && r[j] == rest[j - 1];
          }
        }
      }
    }
  }

  /** The contents a fully accepted submission leaves: the kept rows, then one row per mark. */
  lemma SavedContents(db: Db, schema: AttendanceSchema, req: DaySubmission)
    requires Present(req)
    requires ReplaceDay(db, schema, req).0.DaySaved?
    ensures Contents(ReplaceDay(db, schema, req).1.attendance)
              == Contents(Spared(db, req)) + MarkContents(req.records.value, req.subjectId.value, req.date.value)
  {
    ReplaceDayRows(db, schema, req);
    var after := ReplaceDay(db, schema, req).1.attendance;
    var kept := Spared(db, req);
    assert |after| == |kept| + |req.records.value|;
    SplitContents(kept, after, req.records.value, req.subjectId.value, req.date.value);
  }

  /** A table made of `kept` followed by one row per mark has those contents. */
  lemma SplitContents(kept: seq<AttendanceRow>, after: seq<AttendanceRow>, marks: seq<Mark>, subjectId: int, date: string)
    requires |after| == |kept| + |marks| && after[..|kept|] == kept
    requires forall i :: |kept| <= i < |after| ==> Strip(after[i]) == MarkRow(marks[i - |kept|], subjectId, date)
    ensures Contents(after) == Contents(kept) + MarkContents(marks, subjectId, date)
  {
    assert after == kept + after[|kept|..];
    ContentsAppend(kept, after[|kept|..]);
    TailContents(after[|kept|..], marks, subjectId, date, |kept|, after);
  }

  function MarkContents(marks: seq<Mark>, subjectId: int, date: string): (r: seq<AttendanceRow>)
    ensures |r| == |marks|
  {
    if |marks| == 0 then [] else [MarkRow(marks[0], subjectId, date)] + MarkContents(marks[1..], subjectId, date)
  }

  lemma {:induction false} TailContents(tail: seq<AttendanceRow>, marks: seq<Mark>, subjectId: int, date: string,
                                        offset: nat, whole: seq<AttendanceRow>)
    requires |tail| == |marks| && offset + |tail| == |whole| && whole[offset..] == tail
    requires forall i :: offset <= i < |whole| ==> Strip(whole[i]) == MarkRow(marks[i - offset], subjectId, date)
    ensures Contents(tail) == MarkContents(marks, subjectId, date)
    decreases |tail|
  {
    if |tail| > 0 {
      assert tail[0] == whole[offset];
      assert whole[offset + 1..] == tail[1..];
      forall i | offset + 1 <= i < |whole|
        ensures Strip(whole[i]) == MarkRow(marks[1..][i - (offset + 1)], subjectId, date)
      {
        assert marks[i - offset] == marks[1..][i - (offset + 1)];
      }
      TailContents(tail[1..], marks[1..], subjectId, date, offset + 1, whole);
    }
  }

  /** Every mark of the submission is for a student of its group. */
  predicate Clean(db: Db, req: DaySubmission) {
    && Present(req)
    && forall i :: 0 <= i < |req.records.value| ==> InGroup(db.students, req.records.value[i].studentId, req.groupId.value)
  }

  /**
   * The rows a clean submission inserts are all matched by the next DELETE for
   * the same date, subject and group, so that DELETE leaves exactly what the
   * first one left.
   */
  lemma {:induction false} ResubmitSparesSame(db: Db, schema: AttendanceSchema, a: DaySubmission)
    requires Clean(db, a)
    ensures Keep(db.students, a.date.value, a.subjectId.value, a.groupId.value, ReplaceDay(db, schema, a).1.attendance)
         == Spared(db, a)
  {
    var date, subj, grp := a.date.value, a.subjectId.value, a.groupId.value;
    ReplaceDayRows(db, schema, a);
    var after := ReplaceDay(db, schema, a).1.attendance;
    var kept := Spared(db, a);
    var added := after[|kept|..];
    assert after == kept + added;
    forall i | 0 <= i < |added| ensures Cleared(db.students, date, subj, grp, added[i]) {
      assert added[i] == after[|kept| + i];
      assert Strip(added[i]) == MarkRow(a.records.value[i], subj, date);
    }
    KeepAppend(db.students, date, subj, grp, kept, added);
    KeepIdempotent(db.students, date, subj, grp, db.attendance);
    KeepNoneCleared(db.students, date, subj, grp, added);
  }

  /**
   * Full replace, not merge: after submitting A and then B for the same date,
   * subject and group, the reply, every other table and the attendance
   * table's contents are what submitting B alone would have left, even when A
   * stopped at a refused INSERT. With A == B this is idempotence of
   * resubmission. Row ids are left out of the comparison: AUTOINCREMENT gives
   * B's rows new ids after A's.
   */
  lemma LastSubmissionWins(db: Db, schema: AttendanceSchema, a: DaySubmission, b: DaySubmission)
    requires Clean(db, a) && Present(b)
    requires a.date == b.date && a.subjectId == b.subjectId && a.groupId == b.groupId
    ensures var twice := ReplaceDay(ReplaceDay(db, schema, a).1, schema, b);
            var once := ReplaceDay(db, schema, b);
            && twice.0 == once.0
            && twice.1.(attendance := []) == once.1.(attendance := [])
            && Contents(twice.1.attendance) == Contents(once.1.attendance)
  {
    ResubmitSparesSame(db, schema, a);
  }
}
