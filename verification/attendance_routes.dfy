/**
 * routes/attendance.js: the `/bulk` write, which only ever appends and keeps
 * going past a refused row, and the per-student status statistics.
 */
module AttendanceRoutes {
  import opened Wrappers
  import opened Js
  import opened Schema
  import opened Tokens
  import ServerAttendance

  type Mark = ServerAttendance.Mark

  datatype BulkRequest = BulkRequest(
    subjectId: Option<int>, groupId: Option<int>, date: Option<string>, records: Option<seq<Mark>>)

  datatype BulkReply =
    | BulkDenied(status: int)                // 401 / 403 from the middleware
    | BulkMissing                            // 400
    | BulkDone(saved: nat, errors: nat)      // 200 with `success: true`, even when errors > 0

  predicate Present(req: BulkRequest) {
    TruthyNum(req.subjectId) && TruthyNum(req.groupId) && TruthyStr(req.date) && req.records.Some?
  }

  /** The row the INSERT for `m` writes, before its id is assigned. */
  function BulkRow(m: Mark, subjectId: int, teacher: int, date: string): AttendanceRow {
    AttendanceRow(0, m.studentId, Some(subjectId), Some(teacher), date, m.status.GetOr(""), Some(OrStr(m.notes, "")))
  }

  /** The records the loop tries to insert: those with a truthy status. */
  function Attempted(marks: seq<Mark>): (n: nat)
    ensures n <= |marks|
  {
    if |marks| == 0 then 0
    else Attempted(marks[..|marks| - 1]) + (if TruthyStr(marks[|marks| - 1].status) then 1 else 0)
  }

  /** Whether the table takes the row for `m`: the schema's columns and CHECK set decide. */
  predicate Accepted(schema: AttendanceSchema, m: Mark, subjectId: int, teacher: int, date: string) {
    TruthyStr(m.status) && AttendanceAccepts(schema, BulkRow(m, subjectId, teacher, date))
  }

  function AcceptedCount(schema: AttendanceSchema, marks: seq<Mark>, subjectId: int, teacher: int, date: string): (n: nat)
    ensures n <= Attempted(marks)
  {
    if |marks| == 0 then 0
    else AcceptedCount(schema, marks[..|marks| - 1], subjectId, teacher, date)
         + (if Accepted(schema, marks[|marks| - 1], subjectId, teacher, date) then 1 else 0)
  }

  /** The rows the accepted records write, in record order, before ids are assigned. */
  function AcceptedRows(schema: AttendanceSchema, marks: seq<Mark>, subjectId: int, teacher: int, date: string)
    : (r: seq<AttendanceRow>)
    ensures |r| == AcceptedCount(schema, marks, subjectId, teacher, date)
    ensures forall k :: 0 <= k < |r| ==> AttendanceAccepts(schema, r[k]) && r[k].id == 0
  {
    if |marks| == 0 then []
    else
      var m := marks[|marks| - 1];
      AcceptedRows(schema, marks[..|marks| - 1], subjectId, teacher, date)
      + (if Accepted(schema, m, subjectId, teacher, date) then [BulkRow(m, subjectId, teacher, date)] else [])
  }

  /** Under the initial schema there is no `teacher_id` column, so every INSERT fails. */
  lemma {:induction false} NothingAcceptedInitially(marks: seq<Mark>, subjectId: int, teacher: int, date: string)
    ensures AcceptedCount(Initial, marks, subjectId, teacher, date) == 0
  {
    if |marks| > 0 {
      NothingAcceptedInitially(marks[..|marks| - 1], subjectId, teacher, date);
    }
  }

  /**
   * The handler after the gate admitted a caller whose `teacher_id || id` is
   * `teacher`. Each record with a truthy status is inserted on its own; a
   * refused INSERT only bumps the error count.
   */
  method Bulk(db: Db, schema: AttendanceSchema, teacher: int, req: BulkRequest) returns (reply: BulkReply, db': Db)
    ensures db' == db.(attendance := db'.attendance)
    ensures reply.BulkMissing? <==> !Present(req)
    ensures reply.BulkMissing? ==> db' == db
    ensures !reply.BulkMissing? ==> reply.BulkDone?
    ensures reply.BulkDone? ==>
      var marks := req.records.value;
      && reply.saved + reply.errors == Attempted(marks)
      && reply.saved == AcceptedCount(schema, marks, req.subjectId.value, teacher, req.date.value)
      && |db'.attendance| == |db.attendance| + reply.saved
      && ServerAttendance.Contents(db'.attendance[|db.attendance|..])
           == AcceptedRows(schema, marks, req.subjectId.value, teacher, req.date.value)
    ensures |db'.attendance| >= |db.attendance| && db'.attendance[..|db.attendance|] == db.attendance
    ensures forall i :: |db.attendance| <= i < |db'.attendance| ==>
      && db'.attendance[i].subjectId == req.subjectId
      && db'.attendance[i].teacherId == Some(teacher)
      && Some(db'.attendance[i].date) == req.date
    ensures AttendanceValid(schema, db.attendance) ==> AttendanceValid(schema, db'.attendance)
  {
    if !Present(req) {
      return BulkMissing, db;
    }
    var marks := req.records.value;
    var subjectId, date := req.subjectId.value, req.date.value;
    var t := Tally([], 0, 0);
    var i := 0;
    while i < |marks|
      invariant i <= |marks|
      invariant Progress(schema, db.attendance, marks, subjectId, teacher, date, i, t)
    {
      t := Advance(schema, db.attendance, marks, subjectId, teacher, date, i, t);
      i := i + 1;
    }
    db' := db.(attendance := db.attendance + t.added);
    reply := BulkDone(t.saved, t.errors);
    BulkFinish(db, schema, teacher, req, t, db');
  }

  /** The loop's running state: the rows appended so far and the two counters. */
  datatype Tally = Tally(added: seq<AttendanceRow>, saved: nat, errors: nat)

  /**
   * One pass of the loop body: a record the table accepts appends its row and
   * counts as saved, a refused record with a status counts as an error, and a
   * record without a status is skipped.
   */
  function Advance(schema: AttendanceSchema, rows: seq<AttendanceRow>, marks: seq<Mark>, subjectId: int, teacher: int,
                   date: string, i: nat, t: Tally): (t': Tally)
    requires i < |marks| && Progress(schema, rows, marks, subjectId, teacher, date, i, t)
    ensures Progress(schema, rows, marks, subjectId, teacher, date, i + 1, t')
  {
    var m := marks[i];
    if Accepted(schema, m, subjectId, teacher, date) then
      AcceptStep(schema, rows, marks, subjectId, teacher, date, i, t.added, t.saved, t.errors);
      Tally(t.added + [NextRow(rows, t.added, m, subjectId, teacher, date)], t.saved + 1, t.errors)
    else if TruthyStr(m.status) then
      RefuseStep(schema, rows, marks, subjectId, teacher, date, i, t.added, t.saved, t.errors, 1);
      Tally(t.added, t.saved, t.errors + 1)
    else
      RefuseStep(schema, rows, marks, subjectId, teacher, date, i, t.added, t.saved, t.errors, 0);
      t
  }

  /** The handler's promises, once the loop has seen every record. */
  lemma BulkFinish(db: Db, schema: AttendanceSchema, teacher: int, req: BulkRequest,
                   t: Tally, db': Db)
    requires Present(req)
    requires Progress(schema, db.attendance, req.records.value, req.subjectId.value, teacher, req.date.value,
                      |req.records.value|, t)
    requires db' == db.(attendance := db.attendance + t.added)
    ensures t.saved + t.errors == Attempted(req.records.value)
    ensures t.saved == AcceptedCount(schema, req.records.value, req.subjectId.value, teacher, req.date.value)
    ensures |db'.attendance| == |db.attendance| + t.saved
    ensures ServerAttendance.Contents(db'.attendance[|db.attendance|..])
              == AcceptedRows(schema, req.records.value, req.subjectId.value, teacher, req.date.value)
    ensures db'.attendance[..|db.attendance|] == db.attendance
    ensures forall i :: |db.attendance| <= i < |db'.attendance| ==>
      && db'.attendance[i].subjectId == req.subjectId
      && db'.attendance[i].teacherId == Some(teacher)
      && Some(db'.attendance[i].date) == req.date
    ensures AttendanceValid(schema, db.attendance) ==> AttendanceValid(schema, db'.attendance)
  {
    BulkAppended(schema, db.attendance, req.records.value, req.subjectId.value, teacher, req.date.value,
                 t.added, t.saved, t.errors);
  }

  /** The row the INSERT for `m` adds: the record's columns under the next id. */
  function NextRow(rows: seq<AttendanceRow>, added: seq<AttendanceRow>, m: Mark, subjectId: int, teacher: int, date: string)
    : AttendanceRow
  {
    BulkRow(m, subjectId, teacher, date).(id := FreshId(rows + added, (a: AttendanceRow) => a.id))
  }

  /** The loop's state after the first `i` records. */
  predicate Progress(schema: AttendanceSchema, rows: seq<AttendanceRow>, marks: seq<Mark>, subjectId: int, teacher: int,
                     date: string, i: nat, t: Tally)
    requires i <= |marks|
  {
    ProgressOf(schema, rows, marks, subjectId, teacher, date, i, t.added, t.saved, t.errors)
  }

  predicate ProgressOf(schema: AttendanceSchema, rows: seq<AttendanceRow>, marks: seq<Mark>, subjectId: int, teacher: int,
                       date: string, i: nat, added: seq<AttendanceRow>, saved: nat, errors: nat)
    requires i <= |marks|
  {
    && saved + errors == Attempted(marks[..i])
    && saved == AcceptedCount(schema, marks[..i], subjectId, teacher, date)
    && BulkRows(schema, added, subjectId, teacher, date)
    && ServerAttendance.Contents(added) == AcceptedRows(schema, marks[..i], subjectId, teacher, date)
    && (DistinctBy(rows, (a: AttendanceRow) => a.id) ==> DistinctBy(rows + added, (a: AttendanceRow) => a.id))
  }

  /** An accepted record: its row is appended and counted as saved. */
  lemma AcceptStep(schema: AttendanceSchema, rows: seq<AttendanceRow>, marks: seq<Mark>, subjectId: int, teacher: int,
                   date: string, i: nat, added: seq<AttendanceRow>, saved: nat, errors: nat)
    requires i < |marks| && ProgressOf(schema, rows, marks, subjectId, teacher, date, i, added, saved, errors)
    requires Accepted(schema, marks[i], subjectId, teacher, date)
    ensures ProgressOf(schema, rows, marks, subjectId, teacher, date, i + 1,
                     added + [NextRow(rows, added, marks[i], subjectId, teacher, date)], saved + 1, errors)
  {
    CountsStep(schema, marks, i, subjectId, teacher, date);
    BulkStep(schema, rows, added, marks[i], NextRow(rows, added, marks[i], subjectId, teacher, date), subjectId, teacher, date);
  }

  /** A record without a status (`bump` 0) or one the table refuses (`bump` 1): only the error count moves. */
  lemma RefuseStep(schema: AttendanceSchema, rows: seq<AttendanceRow>, marks: seq<Mark>, subjectId: int, teacher: int,
                   date: string, i: nat, added: seq<AttendanceRow>, saved: nat, errors: nat, bump: nat)
    requires i < |marks| && ProgressOf(schema, rows, marks, subjectId, teacher, date, i, added, saved, errors)
    requires !Accepted(schema, marks[i], subjectId, teacher, date)
    requires bump == if TruthyStr(marks[i].status) then 1 else 0
    ensures ProgressOf(schema, rows, marks, subjectId, teacher, date, i + 1, added, saved, errors + bump)
  {
    CountsStep(schema, marks, i, subjectId, teacher, date);
  }

  /** Every row the loop added carries the request's subject and date, the caller as teacher, and passed the table's checks. */
  predicate BulkRows(schema: AttendanceSchema, added: seq<AttendanceRow>, subjectId: int, teacher: int, date: string) {
    forall k :: 0 <= k < |added| ==>
      && added[k].subjectId == Some(subjectId) && added[k].teacherId == Some(teacher) && added[k].date == date
      && AttendanceAccepts(schema, added[k])
  }

  /** One accepted record: its row joins the added rows and keeps ids distinct. */
  lemma BulkStep(schema: AttendanceSchema, rows: seq<AttendanceRow>, added: seq<AttendanceRow>, m: Mark, row: AttendanceRow,
                 subjectId: int, teacher: int, date: string)
    requires BulkRows(schema, added, subjectId, teacher, date)
    requires Accepted(schema, m, subjectId, teacher, date)
    requires row == NextRow(rows, added, m, subjectId, teacher, date)
    requires DistinctBy(rows, (a: AttendanceRow) => a.id) ==> DistinctBy(rows + added, (a: AttendanceRow) => a.id)
    ensures BulkRows(schema, added + [row], subjectId, teacher, date)
    ensures DistinctBy(rows, (a: AttendanceRow) => a.id) ==> DistinctBy(rows + (added + [row]), (a: AttendanceRow) => a.id)
    ensures ServerAttendance.Contents(added + [row]) == ServerAttendance.Contents(added) + [BulkRow(m, subjectId, teacher, date)]
  {
    AppendOne(rows + added, row);
    assert rows + (added + [row]) == (rows + added) + [row];
    ServerAttendance.ContentsAppend(added, [row]);
    assert ServerAttendance.Strip(row) == BulkRow(m, subjectId, teacher, date);
  }

  /** What appending the loop's rows does to the table once every record was seen. */
  lemma BulkAppended(schema: AttendanceSchema, rows: seq<AttendanceRow>, marks: seq<Mark>, subjectId: int, teacher: int,
                     date: string, added: seq<AttendanceRow>, saved: nat, errors: nat)
    requires ProgressOf(schema, rows, marks, subjectId, teacher, date, |marks|, added, saved, errors)
    ensures saved + errors == Attempted(marks)
    ensures saved == AcceptedCount(schema, marks, subjectId, teacher, date)
    ensures |rows + added| == |rows| + saved
    ensures (rows + added)[..|rows|] == rows
    ensures ServerAttendance.Contents((rows + added)[|rows|..]) == AcceptedRows(schema, marks, subjectId, teacher, date)
    ensures forall i :: |rows| <= i < |rows + added| ==>
      && (rows + added)[i].subjectId == Some(subjectId)
      && (rows + added)[i].teacherId == Some(teacher)
      && (rows + added)[i].date == date
    ensures AttendanceValid(schema, rows) ==> AttendanceValid(schema, rows + added)
  {
    assert marks[..|marks|] == marks;
    assert (rows + added)[|rows|..] == added;
    forall i | |rows| <= i < |rows + added| ensures (rows + added)[i] == added[i - |rows|] { }
    AddedKeepsValid(schema, rows, added);
  }

  /** One more record adds its own contribution to both counts. */
  lemma CountsStep(schema: AttendanceSchema, marks: seq<Mark>, i: nat, subjectId: int, teacher: int, date: string)
    requires i < |marks|
    ensures AcceptedRows(schema, marks[..i + 1], subjectId, teacher, date)
      == AcceptedRows(schema, marks[..i], subjectId, teacher, date)
         + (if Accepted(schema, marks[i], subjectId, teacher, date) then [BulkRow(marks[i], subjectId, teacher, date)] else [])
    ensures Attempted(marks[..i + 1]) == Attempted(marks[..i]) + (if TruthyStr(marks[i].status) then 1 else 0)
    ensures AcceptedCount(schema, marks[..i + 1], subjectId, teacher, date)
      == AcceptedCount(schema, marks[..i], subjectId, teacher, date)
         + (if Accepted(schema, marks[i], subjectId, teacher, date) then 1 else 0)
  {
    assert marks[..i + 1][..i] == marks[..i];
  }

  lemma AppendOne(rows: seq<AttendanceRow>, row: AttendanceRow)
    requires row.id == FreshId(rows, (a: AttendanceRow) => a.id)
    ensures DistinctBy(rows, (a: AttendanceRow) => a.id) ==> DistinctBy(rows + [row], (a: AttendanceRow) => a.id)
  {
    if DistinctBy(rows, (a: AttendanceRow) => a.id) {
      AppendFreshKeepsIdsDistinct(rows, (a: AttendanceRow) => a.id, row);
    }
  }

  lemma AddedKeepsValid(schema: AttendanceSchema, rows: seq<AttendanceRow>, added: seq<AttendanceRow>)
    requires forall k :: 0 <= k < |added| ==> AttendanceAccepts(schema, added[k])
    requires DistinctBy(rows, (a: AttendanceRow) => a.id) ==> DistinctBy(rows + added, (a: AttendanceRow) => a.id)
    ensures AttendanceValid(schema, rows) ==> AttendanceValid(schema, rows + added)
  {
    if AttendanceValid(schema, rows) {
      forall k | 0 <= k < |rows + added| ensures AttendanceAccepts(schema, (rows + added)[k]) {
        if k >= |rows| {
          assert (rows + added)[k] == added[k - |rows|];
        }
      }
    }
  }

  /**
   * `router.post('/bulk', authenticateToken, requireTeacherOrAdmin, ...)`.
   * `requireTeacherOrAdmin` is not exported by middleware/auth.js; it is the
   * `teacherOrAdmin` parameter here.
   */
  method PostBulk(header: Option<string>, verify: string -> Option<Claims>, teacherOrAdmin: Claims -> bool,
                  db: Db, schema: AttendanceSchema, req: BulkRequest) returns (reply: BulkReply, db': Db)
    ensures reply.BulkDenied? <==> !Guard(header, verify, teacherOrAdmin).Admitted?
    ensures reply.BulkDenied? ==> db' == db && reply.status == Guard(header, verify, teacherOrAdmin).status
    ensures |db'.attendance| >= |db.attendance| && db'.attendance[..|db.attendance|] == db.attendance
    ensures schema.Initial? && reply.BulkDone? ==> reply.saved == 0 && db' == db
    ensures db' == db.(attendance := db'.attendance)
    ensures Guard(header, verify, teacherOrAdmin).Admitted? ==>
      && (reply.BulkMissing? <==> !Present(req))
      && (reply.BulkMissing? ==> db' == db)
      && (!reply.BulkMissing? ==> reply.BulkDone?)
    ensures reply.BulkDone? ==>
      var c := Guard(header, verify, teacherOrAdmin).claims;
      var marks := req.records.value;
      && Guard(header, verify, teacherOrAdmin).Admitted? && Present(req)
      && reply.saved + reply.errors == Attempted(marks)
      && reply.saved == AcceptedCount(schema, marks, req.subjectId.value, OrNum(c.teacherId, c.id), req.date.value)
      && |db'.attendance| == |db.attendance| + reply.saved
      && ServerAttendance.Contents(db'.attendance[|db.attendance|..])
           == AcceptedRows(schema, marks, req.subjectId.value, OrNum(c.teacherId, c.id), req.date.value)
      && forall i :: |db.attendance| <= i < |db'.attendance| ==>
           db'.attendance[i].teacherId == Some(OrNum(c.teacherId, c.id))
    ensures AttendanceValid(schema, db.attendance) ==> AttendanceValid(schema, db'.attendance)
  {
    match Guard(header, verify, teacherOrAdmin)
    case Refused(status) =>
      return BulkDenied(status), db;
    case Admitted(c) =>
      var teacher := OrNum(c.teacherId, c.id);
      reply, db' := Bulk(db, schema, teacher, req);
      if schema.Initial? && reply.BulkDone? {
        NothingAcceptedInitially(req.records.value, req.subjectId.value, teacher, req.date.value);
        assert db'.attendance == db'.attendance[..|db.attendance|];
      }
  }

  // ---------------------------------------------------------------------
  // GET /student/:studentId/statistics

  datatype StatusCount = StatusCount(status: string, count: nat)

  function Occurrences(xs: seq<string>, s: string): (n: nat)
    ensures n <= |xs|
  {
    if |xs| == 0 then 0 else Occurrences(xs[..|xs| - 1], s) + (if xs[|xs| - 1] == s then 1 else 0)
  }

  function Sum(gs: seq<StatusCount>): nat {
    if |gs| == 0 then 0 else gs[0].count + Sum(gs[1..])
  }

  predicate DistinctStatuses(gs: seq<StatusCount>) {
    forall i, j :: 0 <= i < j < |gs| ==> gs[i].status != gs[j].status
  }

  /** One more occurrence of `s`: its group's count goes up, or a new group is opened at the end. */
  function Bump(gs: seq<StatusCount>, s: string): (r: seq<StatusCount>)
    requires DistinctStatuses(gs)
    ensures DistinctStatuses(r)
    ensures Sum(r) == Sum(gs) + 1
    ensures |r| == |gs| || |r| == |gs| + 1
    ensures forall k :: 0 <= k < |gs| ==> r[k].status == gs[k].status
    ensures |r| == |gs| + 1 <==> forall k :: 0 <= k < |gs| ==> gs[k].status != s
    ensures |r| == |gs| + 1 ==> r[|gs|] == StatusCount(s, 1)
    ensures forall k :: 0 <= k < |gs| ==> r[k].count == gs[k].count + (if gs[k].status == s then 1 else 0)
  {
    if |gs| == 0 then [StatusCount(s, 1)]
    else if gs[0].status == s then
      var r := [StatusCount(s, gs[0].count + 1)] + gs[1..];
      assert r[1..] == gs[1..];
      r
    else
      DistinctTail(gs);
      var rest := Bump(gs[1..], s);
      BumpStep(gs, s, rest);
      [gs[0]] + rest
  }

  lemma DistinctTail(gs: seq<StatusCount>)
    requires |gs| > 0 && DistinctStatuses(gs)
    ensures DistinctStatuses(gs[1..])
  {
    forall i, j | 0 <= i < j < |gs| - 1 ensures gs[1..][i].status != gs[1..][j].status {
      assert gs[1..][i] == gs[i + 1] && gs[1..][j] == gs[j + 1];
    }
  }

  /** Bumping past a first group of another status: the recursive call's facts, restated for `gs`. */
  lemma BumpStep(gs: seq<StatusCount>, s: string, rest: seq<StatusCount>)
    requires |gs| > 0 && gs[0].status != s && DistinctStatuses(gs)
    requires DistinctStatuses(rest) && Sum(rest) == Sum(gs[1..]) + 1
    requires |rest| == |gs| - 1 || |rest| == |gs|
    requires forall k :: 0 <= k < |gs| - 1 ==> rest[k].status == gs[1..][k].status
    requires |rest| == |gs| <==> forall k :: 0 <= k < |gs| - 1 ==> gs[1..][k].status != s
    requires |rest| == |gs| ==> rest[|gs| - 1] == StatusCount(s, 1)
    requires forall k :: 0 <= k < |gs| - 1 ==> rest[k].count == gs[1..][k].count + (if gs[1..][k].status == s then 1 else 0)
    ensures var r := [gs[0]] + rest;
      && DistinctStatuses(r)
      && Sum(r) == Sum(gs) + 1
      && (|r| == |gs| || |r| == |gs| + 1)
      && (forall k :: 0 <= k < |gs| ==> r[k].status == gs[k].status)
      && (|r| == |gs| + 1 <==> forall k :: 0 <= k < |gs| ==> gs[k].status != s)
      && (|r| == |gs| + 1 ==> r[|gs|] == StatusCount(s, 1))
      && (forall k :: 0 <= k < |gs| ==> r[k].count == gs[k].count + (if gs[k].status == s then 1 else 0))
  {
    var r := [gs[0]] + rest;
    assert r[1..] == rest;
    forall k | 0 < k < |gs| ensures r[k] == rest[k - 1] && gs[k] == gs[1..][k - 1] { }
    forall i, j | 0 <= i < j < |r| ensures r[i].status != r[j].status {
      if i == 0 && j < |gs| {
        assert r[j].status == gs[j].status;
      } else if i == 0 {
        assert r[j] == StatusCount(s, 1);
      }
    }
  }

  /** Every group's count is the number of occurrences of its status. */
  predicate CountsAgree(gs: seq<StatusCount>, xs: seq<string>) {
    forall k :: 0 <= k < |gs| ==> gs[k].count == Occurrences(xs, gs[k].status) && gs[k].count > 0
  }

  /** Every status that occurs has a group. */
  predicate Covers(gs: seq<StatusCount>, xs: seq<string>) {
    forall i :: 0 <= i < |xs| ==> exists k :: 0 <= k < |gs| && gs[k].status == xs[i]
  }

  /**
   * `SELECT status, COUNT(*) ... GROUP BY status`. SQLite returns the groups
   * in some order; this one lists them by first appearance, and no contract
   * depends on the order.
   */
  function GroupByStatus(xs: seq<string>): (r: seq<StatusCount>)
    ensures DistinctStatuses(r)
    ensures Sum(r) == |xs|
    ensures CountsAgree(r, xs)
    ensures Covers(r, xs)
  {
    if |xs| == 0 then []
    else
      var prefix, x := xs[..|xs| - 1], xs[|xs| - 1];
      assert xs == prefix + [x];
      var front := GroupByStatus(prefix);
      GroupStep(prefix, x, front);
      Bump(front, x)
  }

  /** Counting one more row keeps all four grouping properties. */
  lemma GroupStep(prefix: seq<string>, x: string, front: seq<StatusCount>)
    requires DistinctStatuses(front) && Sum(front) == |prefix|
    requires CountsAgree(front, prefix) && Covers(front, prefix)
    ensures DistinctStatuses(Bump(front, x)) && Sum(Bump(front, x)) == |prefix + [x]|
    ensures CountsAgree(Bump(front, x), prefix + [x]) && Covers(Bump(front, x), prefix + [x])
  {
    var r := Bump(front, x);
    GroupStepCounts(prefix + [x], prefix, x, front, r);
    GroupStepCovers(prefix + [x], prefix, x, front, r);
  }

  lemma OccurrencesSnoc(prefix: seq<string>, x: string, s: string)
    ensures Occurrences(prefix + [x], s) == Occurrences(prefix, s) + (if x == s then 1 else 0)
  {
    assert (prefix + [x])[..|prefix|] == prefix;
  }

  /** A status that occurs has a position. */
  lemma {:induction false} OccurrenceWitness(xs: seq<string>, s: string)
    requires Occurrences(xs, s) > 0
    ensures exists i :: 0 <= i < |xs| && xs[i] == s
  {
    if xs[|xs| - 1] != s {
      OccurrenceWitness(xs[..|xs| - 1], s);
      var i :| 0 <= i < |xs| - 1 && xs[..|xs| - 1][i] == s;
      assert xs[i] == s;
    }
  }

  lemma GroupStepCounts(xs: seq<string>, prefix: seq<string>, x: string, front: seq<StatusCount>, r: seq<StatusCount>)
    requires xs == prefix + [x]
    requires DistinctStatuses(front) && CountsAgree(front, prefix) && Covers(front, prefix)
    requires r == Bump(front, x)
    ensures CountsAgree(r, xs)
  {
    forall k | 0 <= k < |r| ensures r[k].count == Occurrences(xs, r[k].status) && r[k].count > 0 {
      OccurrencesSnoc(prefix, x, r[k].status);
      if k == |front| && Occurrences(prefix, x) > 0 {
        OccurrenceWitness(prefix, x);
      }
    }
  }

  lemma GroupStepCovers(xs: seq<string>, prefix: seq<string>, x: string, front: seq<StatusCount>, r: seq<StatusCount>)
    requires xs == prefix + [x]
    requires DistinctStatuses(front) && Covers(front, prefix)
    requires r == Bump(front, x)
    ensures Covers(r, xs)
  {
    forall i | 0 <= i < |xs| ensures exists k :: 0 <= k < |r| && r[k].status == xs[i] {
      if i < |prefix| {
        assert xs[i] == prefix[i];
        var k :| 0 <= k < |front| && front[k].status == prefix[i];
        assert r[k].status == xs[i];
      } else if |r| == |front| + 1 {
        assert r[|front|].status == xs[i];
      } else {
        var k :| 0 <= k < |front| && front[k].status == x;
        assert r[k].status == xs[i];
      }
    }
  }

  /** `Math.round(c / total * 100)` for `0 <= c <= total`, on exact rationals: floor(100c/total + 1/2). */
  function Percent(c: nat, total: nat): (p: nat)
    requires c <= total
    ensures total == 0 ==> p == 0
    ensures p <= 100
    ensures c == total && total > 0 ==> p == 100
    ensures c == 0 ==> p == 0
  {
    if total == 0 then 0
    else
      PercentBounds(c, total);
      (200 * c + total) / (2 * total)
  }

  lemma PercentBounds(c: nat, total: nat)
    requires c <= total && total > 0
    ensures (200 * c + total) / (2 * total) <= 100
    ensures c == total ==> (200 * c + total) / (2 * total) == 100
    ensures c == 0 ==> (200 * c + total) / (2 * total) == 0
  {
    QuotientBelow(200 * c + total, 2 * total, 100);
    if c == total {
      QuotientExact(200 * c + total, 2 * total, 100, total);
    }
    if c == 0 {
      QuotientExact(200 * c + total, 2 * total, 0, total);
    }
  }

  lemma MulMono(a: nat, b: nat, d: nat)
    requires a <= b
    ensures a * d <= b * d
  {
  }

  lemma QuotientBelow(x: nat, d: nat, q: nat)
    requires d > 0 && x < (q + 1) * d
    ensures x / d <= q
  {
    var m := x / d;
    assert m * d <= x;
    if m > q {
      MulMono(q + 1, m, d);
    }
  }

  lemma QuotientExact(x: nat, d: nat, q: nat, rem: nat)
    requires d > 0 && rem < d && x == q * d + rem
    ensures x / d == q
  {
    QuotientBelow(x, d, q);
    var m := x / d;
    assert x < m * d + d;
    if m < q {
      MulMono(m + 1, q, d);
    }
  }

  /** `stats.find(s => s.status === name)?.count || 0` */
  function CountOf(gs: seq<StatusCount>, name: string): (n: nat)
    ensures n > 0 ==> exists k :: 0 <= k < |gs| && gs[k].status == name && gs[k].count == n
    ensures (forall k :: 0 <= k < |gs| ==> gs[k].status != name) ==> n == 0
  {
    if |gs| == 0 then 0
    else if gs[0].status == name then gs[0].count
    else CountOf(gs[1..], name)
  }

  datatype Statistics = Statistics(total: nat, byStatus: seq<StatusCount>, presentPercentage: nat, absentPercentage: nat)

  /** The statuses of one student's rows, in table order. */
  function StatusesOf(rows: seq<AttendanceRow>, studentId: int): (r: seq<string>)
    ensures |r| <= |rows|
  {
    if |rows| == 0 then []
    else StatusesOf(rows[..|rows| - 1], studentId)
         + (if rows[|rows| - 1].studentId == Some(studentId) then [rows[|rows| - 1].status] else [])
  }

  /** The count of one name among a student's statuses is what the percentages use. */
  lemma CountOfGroups(xs: seq<string>, name: string)
    ensures CountOf(GroupByStatus(xs), name) == Occurrences(xs, name)
  {
    var gs := GroupByStatus(xs);
    var n := CountOf(gs, name);
    if n > 0 {
      var k :| 0 <= k < |gs| && gs[k].status == name && gs[k].count == n;
    } else if Occurrences(xs, name) > 0 {
      OccurrenceWitness(xs, name);
      var i :| 0 <= i < |xs| && xs[i] == name;
      var k :| 0 <= k < |gs| && gs[k].status == xs[i];
      CountOfFirst(gs, name, k);
    }
  }

  /** With distinct statuses, `find` reaches the one group carrying `name`. */
  lemma {:induction false} CountOfFirst(gs: seq<StatusCount>, name: string, k: nat)
    requires DistinctStatuses(gs) && k < |gs| && gs[k].status == name
    ensures CountOf(gs, name) == gs[k].count
  {
    if k > 0 {
      assert DistinctStatuses(gs[1..]) by {
        forall i, j | 0 <= i < j < |gs[1..]| ensures gs[1..][i].status != gs[1..][j].status {
          assert gs[1..][i] == gs[i + 1] && gs[1..][j] == gs[j + 1];
        }
      }
      assert gs[0].status != name by { assert gs[0].status != gs[k].status; }
      CountOfFirst(gs[1..], name, k - 1);
    }
  }

  function StudentStatistics(rows: seq<AttendanceRow>, studentId: int): (r: Statistics)
    ensures r.total == Sum(r.byStatus) == |StatusesOf(rows, studentId)|
    ensures r.total == 0 ==> r.presentPercentage == 0 && r.absentPercentage == 0
    ensures r.presentPercentage <= 100 && r.absentPercentage <= 100
    ensures r.presentPercentage == Percent(Occurrences(StatusesOf(rows, studentId), "present"), r.total)
    ensures r.absentPercentage == Percent(Occurrences(StatusesOf(rows, studentId), "absent"), r.total)
  {
    var xs := StatusesOf(rows, studentId);
    var gs := GroupByStatus(xs);
    CountOfGroups(xs, "present");
    CountOfGroups(xs, "absent");
    Statistics(Sum(gs), gs, Percent(CountOf(gs, "present"), Sum(gs)), Percent(CountOf(gs, "absent"), Sum(gs)))
  }

  /** Every present mark counts: a student who attended everything gets 100. */
  lemma AllPresentIsHundred(rows: seq<AttendanceRow>, studentId: int)
    requires |StatusesOf(rows, studentId)| > 0
    requires forall k :: 0 <= k < |rows| && rows[k].studentId == Some(studentId) ==> rows[k].status == "present"
    ensures StudentStatistics(rows, studentId).presentPercentage == 100
  {
    AllOneStatus(rows, studentId, "present");
  }

  lemma {:induction false} AllOneStatus(rows: seq<AttendanceRow>, studentId: int, s: string)
    requires forall k :: 0 <= k < |rows| && rows[k].studentId == Some(studentId) ==> rows[k].status == s
    ensures Occurrences(StatusesOf(rows, studentId), s) == |StatusesOf(rows, studentId)|
  {
    if |rows| > 0 {
      var front := rows[..|rows| - 1];
      assert forall k :: 0 <= k < |front| ==> front[k] == rows[k];
      AllOneStatus(front, studentId, s);
      var xs := StatusesOf(rows, studentId);
      if rows[|rows| - 1].studentId == Some(studentId) {
        assert xs[..|xs| - 1] == StatusesOf(front, studentId);
      } else {
        assert xs == StatusesOf(front, studentId);
      }
    }
  }
}
