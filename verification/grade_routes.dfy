/**
 * routes/grades.js: the same grade upsert as server.js behind a
 * `requireRole(['teacher', 'admin'])` gate, with a 2..5 range check of its
 * own, and a gradebook read through the routes/ variant of the roster join.
 * server.js never mounts this router; it is modelled as written.
 */
module GradeRoutes {
  import opened Wrappers
  import opened Js
  import opened Schema
  import opened Tokens
  import GradeStore
  import Roster
  import ServerGrades

  /** The roles `requireRole` admits on both routes of this file. */
  predicate StaffOnly(c: Claims) {
    RequireRole(["teacher", "admin"], c)
  }

  datatype GradeRequest = GradeRequest(
    studentId: Option<int>, subjectId: Option<int>, grade: Option<int>,
    gradeType: Option<string>, date: Option<string>)

  datatype Reply =
    | Denied(status: int)                // 401 / 403 from the middleware
    | MissingFields                      // 400, a required field is falsy
    | OutOfRange                         // 400, grade outside 2..5
    | Stored(id: nat, created: bool)     // 200 with `data.id`
    | StoreFailed                        // 500, the INSERT was refused

  /** `grade_type` is not among the fields the handler requires. */
  predicate Complete(req: GradeRequest) {
    TruthyNum(req.studentId) && TruthyNum(req.subjectId) && TruthyNum(req.grade) && TruthyStr(req.date)
  }

  /** The handler after the gate admitted `c`. */
  function Save(db: Db, c: Claims, req: GradeRequest): (r: (Reply, Db))
    ensures r.1 == db.(grades := r.1.grades)
    ensures !r.0.Denied?
    ensures r.0.Stored? <==>
      Complete(req) && 2 <= req.grade.value <= 5 && req.gradeType.Some? && ParseGradeType(req.gradeType.value).Some?
    ensures r.0.MissingFields? <==> !Complete(req)
    ensures r.0.OutOfRange? <==> Complete(req) && !(2 <= req.grade.value <= 5)
    ensures r.0.MissingFields? || r.0.OutOfRange? || r.0.StoreFailed? ==> r.1 == db
    ensures r.0.StoreFailed? <==>
      Complete(req) && 2 <= req.grade.value <= 5 && (req.gradeType.None? || ParseGradeType(req.gradeType.value).None?)
    ensures r.0.Stored? && !r.0.created ==>
      && |r.1.grades| == |db.grades|
      && (exists k :: 0 <= k < |db.grades| && db.grades[k].id == r.0.id
           && GradeStore.Matches(db.grades[k], req.studentId.value, req.subjectId.value, req.gradeType))
      && (forall k :: 0 <= k < |db.grades| && db.grades[k].id == r.0.id ==>
           && KeyOf(r.1.grades[k]) == KeyOf(db.grades[k])
           && r.1.grades[k].grade == req.grade && r.1.grades[k].date == req.date.value
           && r.1.grades[k].teacherId == Some(ServerGrades.ActingTeacher(c)))
      && forall k :: 0 <= k < |db.grades| ==>
           && r.1.grades[k].id == db.grades[k].id
           && r.1.grades[k].isPass == db.grades[k].isPass && r.1.grades[k].notes == db.grades[k].notes
           && (db.grades[k].id != r.0.id ==> r.1.grades[k] == db.grades[k])
    ensures r.0.Stored? && r.0.created ==>
      && |r.1.grades| == |db.grades| + 1 && r.1.grades[..|db.grades|] == db.grades
      && r.1.grades[|db.grades|].id == r.0.id
      && GradeTypeName(r.1.grades[|db.grades|].gradeType) == req.gradeType.value
      && r.1.grades[|db.grades|].studentId == req.studentId.value
      && r.1.grades[|db.grades|].subjectId == req.subjectId.value
      && r.1.grades[|db.grades|].grade == req.grade && r.1.grades[|db.grades|].date == req.date.value
      && r.1.grades[|db.grades|].teacherId == Some(ServerGrades.ActingTeacher(c))
    ensures GradesValid(db.grades) ==> GradesValid(r.1.grades)
  {
    if !Complete(req) then (MissingFields, db)
    else if req.grade.value < 2 || req.grade.value > 5 then (OutOfRange, db)
    else
      var teacher := ServerGrades.ActingTeacher(c);
      var u := GradeStore.Upsert(db.grades, req.studentId.value, req.subjectId.value, req.gradeType,
                                 req.grade.value, req.date.value, teacher);
      GradeStore.UpsertPreservesValid(db.grades, req.studentId.value, req.subjectId.value, req.gradeType,
                                      req.grade.value, req.date.value, teacher);
      match u.0
      case Violated => (StoreFailed, db)
      case Inserted(id) =>
        ParseGradeTypeName(ParseGradeType(req.gradeType.value).value);
        (Stored(id, true), db.(grades := u.1))
      case Updated(id) =>
        var i := GradeStore.Find(db.grades, req.studentId.value, req.subjectId.value, req.gradeType).value;
        assert db.grades[i].id == id;
        (Stored(id, false), db.(grades := u.1))
  }

  /** `router.post('/', authenticateToken, requireRole(['teacher', 'admin']), handler)` */
  function PostGrade(header: Option<string>, verify: string -> Option<Claims>, db: Db, req: GradeRequest): (r: (Reply, Db))
    ensures r.0.Denied? <==> !Guard(header, verify, StaffOnly).Admitted?
    ensures r.0.Denied? ==> r.1 == db && r.0.status == Guard(header, verify, StaffOnly).status
    ensures !r.0.Denied? ==> r == Save(db, Guard(header, verify, StaffOnly).claims, req)
  {
    match Guard(header, verify, StaffOnly)
    case Refused(status) => (Denied(status), db)
    case Admitted(c) => Save(db, c, req)
  }

  /** A verified caller whose role is neither teacher nor admin is refused with 403 and nothing is written. */
  lemma StudentsCannotGrade(header: Option<string>, verify: string -> Option<Claims>, db: Db, req: GradeRequest)
    requires Authenticate(header, verify).Proceed?
    requires Authenticate(header, verify).claims.role !in {"teacher", "admin"}
    ensures PostGrade(header, verify, db, req) == (Denied(403), db)
  {
  }

  /**
   * Past the gate and the checks, this handler writes exactly what server.js
   * would write for the same request: the two share the upsert.
   */
  lemma AgreesWithServer(db: Db, c: Claims, req: GradeRequest)
    requires Complete(req) && 2 <= req.grade.value <= 5 && TruthyStr(req.gradeType)
    ensures var server := ServerGrades.PostGrade(db, c, ServerGrades.GradeRequest(
              req.studentId, req.subjectId, req.grade, req.gradeType, req.date));
            Save(db, c, req).1 == server.1
            && (Save(db, c, req).0.Stored? <==> server.0.Saved?)
  {
  }

  /** A NamedRow is a roster row plus `t.name as teacher_name` from `LEFT JOIN teachers`. */
  datatype NamedRow = NamedRow(row: Roster.RosterRow, teacherName: Option<string>)

  function WithTeacherNames(teachers: seq<Teacher>, rows: seq<Roster.RosterRow>): (r: seq<NamedRow>)
    ensures |r| == |rows|
    ensures forall i :: 0 <= i < |r| ==> r[i].row == rows[i]
    ensures forall i :: 0 <= i < |r| && r[i].teacherName.Some? ==>
      rows[i].teacherId.Some? && exists k :: 0 <= k < |teachers| && teachers[k].id == rows[i].teacherId.value
                                              && teachers[k].name == r[i].teacherName.value
    ensures forall i :: 0 <= i < |r| && r[i].teacherName.None? && rows[i].teacherId.Some? ==>
      forall k :: 0 <= k < |teachers| ==> teachers[k].id != rows[i].teacherId.value
  {
    seq(|rows|, i requires 0 <= i < |rows| =>
      NamedRow(rows[i], if rows[i].teacherId.Some? then TeacherName(teachers, rows[i].teacherId.value) else None))
  }

  datatype Ledger = Ledger(group: Option<string>, subject: Option<string>, students: seq<NamedRow>)

  /** `router.get('/gradebook/:groupId/:subjectId', authenticateToken, requireRole(['teacher', 'admin']), ...)` */
  function Gradebook(header: Option<string>, verify: string -> Option<Claims>, db: Db, groupId: int, subjectId: int): (r: Result)
    ensures r.Blocked? <==> !Guard(header, verify, StaffOnly).Admitted?
    ensures r.Blocked? ==> r.status == Guard(header, verify, StaffOnly).status
    ensures r.Ok? ==>
      var book := Roster.BookOf(db, groupId, subjectId);
      && r.ledger.group == book.group && r.ledger.subject == book.subject
      && |r.ledger.students| == |book.students|
      && forall i :: 0 <= i < |book.students| ==> r.ledger.students[i].row == book.students[i]
  {
    match Guard(header, verify, StaffOnly)
    case Refused(status) => Blocked(status)
    case Admitted(_) =>
      var book := Roster.BookOf(db, groupId, subjectId);
      Ok(Ledger(book.group, book.subject, WithTeacherNames(db.teachers, book.students)))
  }

  datatype Result = Blocked(status: int) | Ok(ledger: Ledger)
}

/**
 * routes/gradebook.js: the roster for bulk grading behind
 * `requireTeacherOrAdmin`. That middleware is imported from
 * middleware/auth.js, which does not export it; the gate is therefore a
 * parameter here.
 */
module GradebookRoute {
  import opened Wrappers
  import opened Schema
  import opened Tokens
  import Roster

  datatype Result = Blocked(status: int) | Ok(book: Roster.Book)

  function Get(header: Option<string>, verify: string -> Option<Claims>, teacherOrAdmin: Claims -> bool,
               db: Db, groupId: int, subjectId: int): (r: Result)
    ensures r.Blocked? <==> !Guard(header, verify, teacherOrAdmin).Admitted?
    ensures r.Blocked? ==> r.status == Guard(header, verify, teacherOrAdmin).status
    ensures r.Ok? ==> r.book == Roster.BookOf(db, groupId, subjectId)
  {
    match Guard(header, verify, teacherOrAdmin)
    case Refused(status) => Blocked(status)
    case Admitted(_) => Ok(Roster.BookOf(db, groupId, subjectId))
  }

  /** Every listed row is a student of the requested group, and every such student is listed. */
  lemma ListsExactlyTheGroup(header: Option<string>, verify: string -> Option<Claims>, teacherOrAdmin: Claims -> bool,
                             db: Db, groupId: int, subjectId: int)
    requires Get(header, verify, teacherOrAdmin, db, groupId, subjectId).Ok?
    requires GroupName(db.groups, groupId).Some? && SubjectName(db.subjects, subjectId).Some?
    ensures var rows := Get(header, verify, teacherOrAdmin, db, groupId, subjectId).book.students;
      && (forall x :: x in rows ==> exists k :: 0 <= k < |db.students| && Roster.InGroup(db.students[k], groupId)
                                                && Roster.Describes(x, db.students[k]))
      && (forall k :: 0 <= k < |db.students| && Roster.InGroup(db.students[k], groupId) ==>
            exists x :: x in rows && Roster.Describes(x, db.students[k]))
  {
    var rows := Get(header, verify, teacherOrAdmin, db, groupId, subjectId).book.students;
    forall x | x in rows
      ensures exists k :: 0 <= k < |db.students| && Roster.InGroup(db.students[k], groupId) && Roster.Describes(x, db.students[k])
    {
      Roster.OnlyGroupStudents(db.students, db.grades, groupId, subjectId, x);
    }
    forall k | 0 <= k < |db.students| && Roster.InGroup(db.students[k], groupId)
      ensures exists x :: x in rows && Roster.Describes(x, db.students[k])
    {
      Roster.EveryGroupStudentListed(db.students, db.grades, groupId, subjectId, k);
    }
  }

  /** An empty group yields undefined `group` and `subject` and no rows. */
  lemma EmptyGroupHasNoNames(header: Option<string>, verify: string -> Option<Claims>, teacherOrAdmin: Claims -> bool,
                             db: Db, groupId: int, subjectId: int)
    requires Get(header, verify, teacherOrAdmin, db, groupId, subjectId).Ok?
    requires forall k :: 0 <= k < |db.students| ==> !Roster.InGroup(db.students[k], groupId)
    ensures Get(header, verify, teacherOrAdmin, db, groupId, subjectId).book == Roster.Book(None, None, [])
  {
  }
}
