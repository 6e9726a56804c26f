/**
 * routes/session-schedule.js: the exam-session calendar. Teachers and
 * admins create events (the teacher always being the caller), and change or
 * remove them only when they own them or are admins; students read their
 * group's events in date and time order. The teacher-or-admin gate is a
 * parameter: middleware/auth.js does not export `requireTeacherOrAdmin`.
 */
module SessionRoutes {
  import opened Wrappers
  import opened Js
  import opened Schema
  import opened Tokens
  import opened Sorting

  datatype EventRequest = EventRequest(
    subjectId: Option<int>, groupId: Option<int>, eventType: Option<string>,
    eventDate: Option<string>, startTime: Option<string>, endTime: Option<string>,
    classroom: Option<string>, notes: Option<string>)

  datatype Reply =
    | Denied(status: int)       // 401 / 403 from the middleware
    | MissingFields             // 400
    | BadEventType              // 400 "Неверный тип события"
    | NotFound                  // 404
    | NotOwner                  // 403 from the handler's own check
    | Created(id: nat)          // 200 with `data.id`
    | Done                      // 200
    | WriteFailed               // 500, a NOT NULL or CHECK constraint refused the write

  /** `req.user.teacher_id || req.user.id` */
  function Caller(c: Claims): int {
    OrNum(c.teacherId, c.id)
  }

  predicate Complete(req: EventRequest) {
    && TruthyNum(req.subjectId) && TruthyNum(req.groupId) && TruthyStr(req.eventType)
    && TruthyStr(req.eventDate) && TruthyStr(req.startTime) && TruthyStr(req.endTime)
  }

  /** `POST /` after the gate admitted `c`. */
  function Create(db: Db, c: Claims, req: EventRequest): (r: (Reply, Db))
    ensures r.1 == db.(sessions := r.1.sessions)
    ensures r.0.MissingFields? <==> !Complete(req)
    ensures r.0.BadEventType? <==> Complete(req) && ParseEventType(req.eventType.value).None?
    ensures !r.0.Created? ==> r.1 == db
    ensures r.0.Created? || r.0.MissingFields? || r.0.BadEventType?
    ensures r.0.Created? ==>
      && |r.1.sessions| == |db.sessions| + 1 && r.1.sessions[..|db.sessions|] == db.sessions
      && var e := r.1.sessions[|db.sessions|];
         && e.id == r.0.id && (forall k :: 0 <= k < |db.sessions| ==> db.sessions[k].id < e.id)
         && e.teacherId == Caller(c)
         && Some(e.subjectId) == req.subjectId && Some(e.groupId) == req.groupId
         && Some(EventTypeName(e.eventType)) == req.eventType
         && Some(e.eventDate) == req.eventDate && Some(e.startTime) == req.startTime && Some(e.endTime) == req.endTime
         && e.classroom == req.classroom && e.notes == req.notes
    ensures DistinctBy(db.sessions, (e: SessionEvent) => e.id) ==> DistinctBy(r.1.sessions, (e: SessionEvent) => e.id)
  {
    if !Complete(req) then (MissingFields, db)
    else
      match ParseEventType(req.eventType.value)
      case None => (BadEventType, db)
      case Some(t) =>
        var id := FreshId(db.sessions, (e: SessionEvent) => e.id);
        var e := SessionEvent(id, req.subjectId.value, req.groupId.value, Caller(c), t,
                              req.eventDate.value, req.startTime.value, req.endTime.value, req.classroom, req.notes);
        FreshEventKeepsIdsDistinct(db.sessions, e);
        (Created(id), db.(sessions := db.sessions + [e]))
  }

  lemma FreshEventKeepsIdsDistinct(rows: seq<SessionEvent>, e: SessionEvent)
    requires e.id == FreshId(rows, (x: SessionEvent) => x.id)
    ensures DistinctBy(rows, (x: SessionEvent) => x.id) ==> DistinctBy(rows + [e], (x: SessionEvent) => x.id)
  {
    if DistinctBy(rows, (x: SessionEvent) => x.id) {
      AppendFreshKeepsIdsDistinct(rows, (x: SessionEvent) => x.id, e);
    }
  }

  /** `SELECT * FROM session_schedule WHERE id = ?`: the first row with that id. */
  function FindEvent(events: seq<SessionEvent>, id: int): Option<nat> {
    IndexOfId(events, (e: SessionEvent) => e.id, id)
  }

  /** The handler's ownership rule: admins may touch any event, others only their own. */
  predicate MayModify(c: Claims, e: SessionEvent) {
    c.role == "admin" || e.teacherId == Caller(c)
  }

  /**
   * The UPDATE's new row, or None when a NOT NULL or CHECK constraint refuses
   * it. A falsy but present value (0, "") is stored: the handler does not
   * validate the body on update.
   */
  function Updated(e: SessionEvent, req: EventRequest): (r: Option<SessionEvent>)
    ensures r.Some? ==> r.value.id == e.id && r.value.teacherId == e.teacherId
    ensures r.Some? <==>
      && req.subjectId.Some? && req.groupId.Some? && req.eventType.Some?
      && ParseEventType(req.eventType.value).Some?
      && req.eventDate.Some? && req.startTime.Some? && req.endTime.Some?
  {
    if req.subjectId.None? || req.groupId.None? || req.eventType.None?
       || req.eventDate.None? || req.startTime.None? || req.endTime.None? then None
    else
      match ParseEventType(req.eventType.value)
      case None => None
      case Some(t) =>
        Some(e.(subjectId := req.subjectId.value, groupId := req.groupId.value, eventType := t,
                eventDate := req.eventDate.value, startTime := req.startTime.value,
                endTime := req.endTime.value, classroom := req.classroom, notes := req.notes))
  }

  /** `UPDATE ... WHERE id = ?` with the columns of `req`. */
  function ReplaceWhereId(events: seq<SessionEvent>, id: int, req: EventRequest): (r: seq<SessionEvent>)
    requires forall k :: 0 <= k < |events| && events[k].id == id ==> Updated(events[k], req).Some?
    ensures |r| == |events|
    ensures forall k :: 0 <= k < |events| ==> r[k] == if events[k].id == id then Updated(events[k], req).value else events[k]
  {
    seq(|events|, k requires 0 <= k < |events| => if events[k].id == id then Updated(events[k], req).value else events[k])
  }

  /** `PUT /:eventId` after the gate admitted `c`. */
  function Update(db: Db, c: Claims, eventId: int, req: EventRequest): (r: (Reply, Db))
    ensures r.1 == db.(sessions := r.1.sessions)
    ensures r.0.NotFound? <==> FindEvent(db.sessions, eventId).None?
    ensures r.0.NotOwner? <==>
      FindEvent(db.sessions, eventId).Some? && !MayModify(c, db.sessions[FindEvent(db.sessions, eventId).value])
    ensures r.0 in {NotFound, NotOwner, WriteFailed, Done}
    ensures r.0.WriteFailed? <==>
      FindEvent(db.sessions, eventId).Some? && MayModify(c, db.sessions[FindEvent(db.sessions, eventId).value])
      && Updated(db.sessions[FindEvent(db.sessions, eventId).value], req).None?
    ensures !r.0.Done? ==> r.1 == db
    ensures r.0.Done? ==>
      && |r.1.sessions| == |db.sessions|
      && forall k :: 0 <= k < |db.sessions| ==>
           && r.1.sessions[k].id == db.sessions[k].id
           && r.1.sessions[k].teacherId == db.sessions[k].teacherId
           && (db.sessions[k].id != eventId ==> r.1.sessions[k] == db.sessions[k])
           && (db.sessions[k].id == eventId ==>
                 Some(r.1.sessions[k].subjectId) == req.subjectId && Some(r.1.sessions[k].groupId) == req.groupId
                 && Some(EventTypeName(r.1.sessions[k].eventType)) == req.eventType
                 && Some(r.1.sessions[k].eventDate) == req.eventDate
                 && Some(r.1.sessions[k].startTime) == req.startTime && Some(r.1.sessions[k].endTime) == req.endTime
                 && r.1.sessions[k].classroom == req.classroom && r.1.sessions[k].notes == req.notes)
  {
    match FindEvent(db.sessions, eventId)
    case None => (NotFound, db)
    case Some(i) =>
      if !MayModify(c, db.sessions[i]) then (NotOwner, db)
      else if Updated(db.sessions[i], req).None? then (WriteFailed, db)
      else
        assert forall k :: 0 <= k < |db.sessions| && db.sessions[k].id == eventId ==> Updated(db.sessions[k], req).Some?;
        var rows := ReplaceWhereId(db.sessions, eventId, req);
        assert forall k :: 0 <= k < |db.sessions| && db.sessions[k].id == eventId ==>
          ParseEventType(req.eventType.value) == Some(rows[k].eventType);
        (Done, db.(sessions := rows))
  }

  /** `DELETE FROM session_schedule WHERE id = ?` */
  function DeleteWhereId(events: seq<SessionEvent>, id: int): (r: seq<SessionEvent>)
    ensures |r| <= |events|
    ensures forall e :: e in r <==> e in events && e.id != id
  {
    if |events| == 0 then []
    else
      var rest := DeleteWhereId(events[1..], id);
      assert forall e :: e in events <==> e == events[0] || e in events[1..];
      if events[0].id == id then rest else [events[0]] + rest
  }

  /** With unique ids, exactly one row goes. */
  lemma {:induction false} DeleteOne(events: seq<SessionEvent>, id: int, k: nat)
    requires DistinctBy(events, (e: SessionEvent) => e.id)
    requires k < |events| && events[k].id == id
    ensures |DeleteWhereId(events, id)| == |events| - 1
  {
    var tail := events[1..];
    assert DistinctBy(tail, (e: SessionEvent) => e.id) by {
      forall i, j | 0 <= i < j < |tail| ensures tail[i].id != tail[j].id {
        assert tail[i] == events[i + 1] && tail[j] == events[j + 1];
      }
    }
    if k == 0 {
      NoneDeleted(tail, id);
    } else {
      DeleteOne(tail, id, k - 1);
    }
  }

  lemma {:induction false} NoneDeleted(events: seq<SessionEvent>, id: int)
    requires forall k :: 0 <= k < |events| ==> events[k].id != id
    ensures DeleteWhereId(events, id) == events
  {
    if |events| > 0 {
      NoneDeleted(events[1..], id);
    }
  }

  /** `DELETE /:eventId` after the gate admitted `c`. */
  function Delete(db: Db, c: Claims, eventId: int): (r: (Reply, Db))
    ensures r.1 == db.(sessions := r.1.sessions)
    ensures r.0.NotFound? <==> FindEvent(db.sessions, eventId).None?
    ensures r.0.NotOwner? <==>
      FindEvent(db.sessions, eventId).Some? && !MayModify(c, db.sessions[FindEvent(db.sessions, eventId).value])
    ensures r.0 in {NotFound, NotOwner, Done}
    ensures !r.0.Done? ==> r.1 == db
    ensures r.0.Done? ==> forall e :: e in r.1.sessions <==> e in db.sessions && e.id != eventId
    ensures r.0.Done? && DistinctBy(db.sessions, (e: SessionEvent) => e.id) ==> |r.1.sessions| == |db.sessions| - 1
  {
    match FindEvent(db.sessions, eventId)
    case None => (NotFound, db)
    case Some(i) =>
      if !MayModify(c, db.sessions[i]) then (NotOwner, db)
      else
        DeleteOneIfDistinct(db.sessions, eventId, i);
        (Done, db.(sessions := DeleteWhereId(db.sessions, eventId)))
  }

  lemma DeleteOneIfDistinct(events: seq<SessionEvent>, id: int, k: nat)
    requires k < |events| && events[k].id == id
    ensures DistinctBy(events, (e: SessionEvent) => e.id) ==> |DeleteWhereId(events, id)| == |events| - 1
  {
    if DistinctBy(events, (e: SessionEvent) => e.id) {
      DeleteOne(events, id, k);
    }
  }

  datatype Action = CreateEvent(req: EventRequest) | UpdateEvent(id: int, req: EventRequest) | DeleteEvent(id: int)

  function Handle(db: Db, c: Claims, a: Action): (Reply, Db) {
    match a
    case CreateEvent(req) => Create(db, c, req)
    case UpdateEvent(id, req) => Update(db, c, id, req)
    case DeleteEvent(id) => Delete(db, c, id)
  }

  /** The three writes sit behind `authenticateToken, requireTeacherOrAdmin`. */
  function Gated(header: Option<string>, verify: string -> Option<Claims>, teacherOrAdmin: Claims -> bool,
                 db: Db, a: Action): (r: (Reply, Db))
    ensures r.0.Denied? <==> !Guard(header, verify, teacherOrAdmin).Admitted?
    ensures r.0.Denied? ==> r.1 == db && r.0.status == Guard(header, verify, teacherOrAdmin).status
    ensures r.0.Denied? ==> (Authenticate(header, verify).Unauthorized? <==> r.0.status == 401)
    ensures !r.0.Denied? ==> r == Handle(db, Guard(header, verify, teacherOrAdmin).claims, a)
    ensures r.1 == db.(sessions := r.1.sessions)
  {
    match Guard(header, verify, teacherOrAdmin)
    case Refused(status) => (Denied(status), db)
    case Admitted(c) => Handle(db, c, a)
  }

  /** A teacher who does not own an event cannot change or remove it, whatever the request says. */
  lemma OthersCannotTouch(db: Db, c: Claims, eventId: int, req: EventRequest, i: nat)
    requires i < |db.sessions| && db.sessions[i].id == eventId
    requires DistinctBy(db.sessions, (e: SessionEvent) => e.id)
    requires c.role != "admin" && db.sessions[i].teacherId != Caller(c)
    ensures Update(db, c, eventId, req) == (NotOwner, db)
    ensures Delete(db, c, eventId) == (NotOwner, db)
  {
    var f := FindEvent(db.sessions, eventId).value;
    assert f == i;
  }

  // ---------------------------------------------------------------------
  // GET /student/:studentId

  /** `ORDER BY ss.event_date, ss.start_time` */
  predicate EventLe(a: SessionEvent, b: SessionEvent) {
    if a.eventDate == b.eventDate then LexLe(a.startTime, b.startTime) else LexLe(a.eventDate, b.eventDate)
  }

  lemma EventLeTotal()
    ensures Total(EventLe)
  {
    forall a: SessionEvent, b: SessionEvent ensures EventLe(a, b) || EventLe(b, a) {
      if a.eventDate == b.eventDate {
        LexLeTotal(a.startTime, b.startTime);
      } else {
        LexLeTotal(a.eventDate, b.eventDate);
      }
    }
  }

  /** The inner joins keep an event only when its subject, group and teacher exist. */
  predicate Joinable(db: Db, e: SessionEvent) {
    && SubjectName(db.subjects, e.subjectId).Some?
    && GroupName(db.groups, e.groupId).Some?
    && TeacherName(db.teachers, e.teacherId).Some?
  }

  /** `WHERE ss.group_id = ?` after the joins, in table order. */
  function GroupEvents(db: Db, events: seq<SessionEvent>, groupId: int): (r: seq<SessionEvent>)
    ensures forall e :: e in r <==> e in events && e.groupId == groupId && Joinable(db, e)
  {
    if |events| == 0 then []
    else
      var rest := GroupEvents(db, events[1..], groupId);
      assert forall e :: e in events <==> e == events[0] || e in events[1..];
      if events[0].groupId == groupId && Joinable(db, events[0]) then [events[0]] + rest else rest
  }

  /** `SELECT group_id FROM students WHERE id = ?`: None when there is no such student. */
  function StudentGroup(students: seq<Student>, id: int): (r: Option<Option<int>>)
    ensures r.Some? ==> exists k :: 0 <= k < |students| && students[k].id == id && students[k].groupId == r.value
    ensures r.None? <==> forall k :: 0 <= k < |students| ==> students[k].id != id
  {
    if |students| == 0 then None
    else if students[0].id == id then Some(students[0].groupId)
    else StudentGroup(students[1..], id)
  }

  datatype Listing = NoStudent | Events(events: seq<SessionEvent>)

  function ForStudent(db: Db, studentId: int): (r: Listing)
    ensures r.NoStudent? <==> forall k :: 0 <= k < |db.students| ==> db.students[k].id != studentId
    ensures r.Events? ==> SortedBy(r.events, EventLe)
    ensures r.Events? ==> forall e :: e in r.events <==>
      && e in db.sessions && Joinable(db, e)
      && StudentGroup(db.students, studentId) == Some(Some(e.groupId))
  {
    match StudentGroup(db.students, studentId)
    case None => NoStudent
    case Some(None) => Events([])
    case Some(Some(g)) =>
      EventLeTotal();
      var picked := GroupEvents(db, db.sessions, g);
      var sorted := SortBy(picked, EventLe);
      assert forall e :: e in sorted <==> e in picked by {
        forall e ensures e in sorted <==> e in picked {
          SortedElementsComeFromInput(picked, EventLe, e);
        }
      }
      Events(sorted)
  }

  // ---------------------------------------------------------------------
  // Create and delete undo each other

  lemma {:induction false} DeleteAppend(a: seq<SessionEvent>, b: seq<SessionEvent>, id: int)
    ensures DeleteWhereId(a + b, id) == DeleteWhereId(a, id) + DeleteWhereId(b, id)
  {
    if |a| > 0 {
      assert (a + b)[1..] == a[1..] + b;
      DeleteAppend(a[1..], b, id);
    } else {
      assert a + b == b;
    }
  }

  lemma RemoveNewest(rows: seq<SessionEvent>, e: SessionEvent)
    requires forall k :: 0 <= k < |rows| ==> rows[k].id < e.id
    ensures FindEvent(rows + [e], e.id) == Some(|rows|)
    ensures DeleteWhereId(rows + [e], e.id) == rows
  {
    FindNewest(rows, e);
    DeleteNewest(rows, e);
  }

  lemma FindNewest(rows: seq<SessionEvent>, e: SessionEvent)
    requires forall k :: 0 <= k < |rows| ==> rows[k].id < e.id
    ensures FindEvent(rows + [e], e.id) == Some(|rows|)
  {
    var all := rows + [e];
    assert all[|rows|].id == e.id;
    var r := FindEvent(all, e.id);
    assert r.Some?;
  }

  lemma DeleteNewest(rows: seq<SessionEvent>, e: SessionEvent)
    requires forall k :: 0 <= k < |rows| ==> rows[k].id < e.id
    ensures DeleteWhereId(rows + [e], e.id) == rows
  {
    DeleteAppend(rows, [e], e.id);
    NoneDeleted(rows, e.id);
    assert DeleteWhereId([e], e.id) == [];
  }

  /** Removing the event just created, by the same caller, restores the calendar. */
  lemma CreateThenDelete(db: Db, c: Claims, req: EventRequest)
    requires Create(db, c, req).0.Created?
    ensures Delete(Create(db, c, req).1, c, Create(db, c, req).0.id) == (Done, db)
  {
    var r := Create(db, c, req);
    var e := r.1.sessions[|db.sessions|];
    assert r.1.sessions == db.sessions + [e];
    RemoveNewest(db.sessions, e);
    assert MayModify(c, e);
  }
}
