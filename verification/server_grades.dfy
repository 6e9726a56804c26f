/**
 * server.js `POST /api/grades` and `GET /api/grades/gradebook/:groupId/:subjectId`.
 * The grade write has no role gate and no range check of its own: any
 * authenticated caller reaches the upsert, and only the table's CHECK
 * constraints stand between a bad grade and the store.
 */
module ServerGrades {
  import opened Wrappers
  import opened Js
  import opened Schema
  import opened Tokens
  import GradeStore
  import Roster

  datatype GradeRequest = GradeRequest(
    studentId: Option<int>, subjectId: Option<int>, grade: Option<int>,
    gradeType: Option<string>, date: Option<string>)

  datatype SaveReply =
    | MissingFields          // 400
    | Saved(created: bool)   // 200, "Оценка добавлена" / "Оценка обновлена"
    | SaveFailed             // 500, the database refused the write

  /** `req.user.teacher_id || req.user.id`: the teacher recorded on every write. */
  function ActingTeacher(c: Claims): int {
    OrNum(c.teacherId, c.id)
  }

  predicate Complete(req: GradeRequest) {
    && TruthyNum(req.studentId) && TruthyNum(req.subjectId) && TruthyNum(req.grade)
    && TruthyStr(req.gradeType) && TruthyStr(req.date)
  }

  function PostGrade(db: Db, c: Claims, req: GradeRequest): (r: (SaveReply, Db))
    ensures r.1 == db.(grades := r.1.grades)
    ensures r.0.MissingFields? <==> !Complete(req)
    ensures r.0.MissingFields? || r.0.SaveFailed? ==> r.1 == db
    ensures r.0.Saved? ==>
      exists k :: 0 <= k < |r.1.grades|
        && r.1.grades[k].studentId == req.studentId.value && r.1.grades[k].subjectId == req.subjectId.value
        && Some(GradeTypeName(r.1.grades[k].gradeType)) == req.gradeType
        && r.1.grades[k].grade == req.grade && r.1.grades[k].date == req.date.value
        && r.1.grades[k].teacherId == Some(ActingTeacher(c))
    ensures r.0 == Saved(true) ==> |r.1.grades| == |db.grades| + 1 && r.1.grades[..|db.grades|] == db.grades
    ensures r.0 == Saved(false) ==> |r.1.grades| == |db.grades|
    ensures r.0 == Saved(false) ==>
      && GradeStore.Find(db.grades, req.studentId.value, req.subjectId.value, req.gradeType).Some?
      && var i := GradeStore.Find(db.grades, req.studentId.value, req.subjectId.value, req.gradeType).value;
         forall k :: 0 <= k < |db.grades| ==>
           && r.1.grades[k].id == db.grades[k].id && KeyOf(r.1.grades[k]) == KeyOf(db.grades[k])
           && r.1.grades[k].isPass == db.grades[k].isPass && r.1.grades[k].notes == db.grades[k].notes
           && (db.grades[k].id != db.grades[i].id ==> r.1.grades[k] == db.grades[k])
    ensures r.0 == Saved(true) ==> GradeStore.Find(db.grades, req.studentId.value, req.subjectId.value, req.gradeType).None?
    ensures GradesValid(db.grades) ==> GradesValid(r.1.grades)
  {
    if !Complete(req) then (MissingFields, db)
    else
      var u := GradeStore.Upsert(db.grades, req.studentId.value, req.subjectId.value, req.gradeType,
                                 req.grade.value, req.date.value, ActingTeacher(c));
      GradeStore.UpsertPreservesValid(db.grades, req.studentId.value, req.subjectId.value, req.gradeType,
                                      req.grade.value, req.date.value, ActingTeacher(c));
      match u.0
      case Violated => (SaveFailed, db)
      case Inserted(_) => (Saved(true), db.(grades := u.1))
      case Updated(id) =>
        var i := GradeStore.Find(db.grades, req.studentId.value, req.subjectId.value, req.gradeType).value;
        assert u.1[i].id == id;
        (Saved(false), db.(grades := u.1))
  }

  datatype GradeRoute = GradeAuthFailed(status: int) | GradeHandled(reply: SaveReply)

  /** `authenticateToken` followed directly by the handler. */
  function Route(header: Option<string>, verify: string -> Option<Claims>, db: Db, req: GradeRequest): (r: (GradeRoute, Db))
    ensures r.0.GradeAuthFailed? ==> r.1 == db
  {
    match Authenticate(header, verify)
    case Proceed(c) =>
      var (reply, db') := PostGrade(db, c, req);
      (GradeHandled(reply), db')
    case other => (GradeAuthFailed(HttpStatus(other)), db)
  }

  /**
   * Whatever role the token carries (student included), a complete request
   * for a valid type and an in-range grade is stored.
   */
  lemma NoRoleGate(header: Option<string>, verify: string -> Option<Claims>, db: Db, req: GradeRequest, c: Claims)
    requires Authenticate(header, verify) == Proceed(c)
    requires Complete(req) && 2 <= req.grade.value <= 5 && ParseGradeType(req.gradeType.value).Some?
    ensures Route(header, verify, db, req).0.GradeHandled?
    ensures Route(header, verify, db, req).0.reply.Saved?
  {
  }

  /** An out-of-range grade gets past the handler but not past the CHECK constraint. */
  lemma OutOfRangeRefusedByTable(db: Db, c: Claims, req: GradeRequest)
    requires Complete(req) && !(2 <= req.grade.value <= 5)
    ensures PostGrade(db, c, req) == (SaveFailed, db)
  {
  }

  datatype GradebookView = GradebookView(group: string, subject: string, students: seq<Roster.RosterRow>)

  /**
   * The gradebook read: the roster join, with the group and subject names
   * looked up separately and replaced by fixed placeholders when missing or empty.
   */
  function Gradebook(db: Db, groupId: int, subjectId: int): (r: GradebookView)
    ensures r.students == Roster.Read(db.students, db.grades, groupId, subjectId)
    ensures TruthyStr(GroupName(db.groups, groupId)) ==> r.group == GroupName(db.groups, groupId).value
    ensures !TruthyStr(GroupName(db.groups, groupId)) ==> r.group == "Группа"
    ensures TruthyStr(SubjectName(db.subjects, subjectId)) ==> r.subject == SubjectName(db.subjects, subjectId).value
    ensures !TruthyStr(SubjectName(db.subjects, subjectId)) ==> r.subject == "Предмет"
    ensures r.group != "Группа" ==> exists k :: 0 <= k < |db.groups| && db.groups[k].id == groupId && db.groups[k].name == r.group
    ensures r.subject != "Предмет" ==>
      exists k :: 0 <= k < |db.subjects| && db.subjects[k].id == subjectId && db.subjects[k].name == r.subject
  {
    GradebookView(OrStr(GroupName(db.groups, groupId), "Группа"),
                  OrStr(SubjectName(db.subjects, subjectId), "Предмет"),
                  Roster.Read(db.students, db.grades, groupId, subjectId))
  }

  /**
   * With unique ids, the gradebook is headed by the names of the group and
   * subject rows it was asked for, unless a name is empty.
   */
  lemma GradebookNames(db: Db, groupId: int, subjectId: int, g: nat, t: nat)
    requires DistinctBy(db.groups, (x: Group) => x.id) && DistinctBy(db.subjects, (x: Subject) => x.id)
    requires g < |db.groups| && db.groups[g].id == groupId
    requires t < |db.subjects| && db.subjects[t].id == subjectId
    ensures db.groups[g].name != "" ==> Gradebook(db, groupId, subjectId).group == db.groups[g].name
    ensures db.subjects[t].name != "" ==> Gradebook(db, groupId, subjectId).subject == db.subjects[t].name
  {
    var i := IndexOfId(db.groups, (x: Group) => x.id, groupId);
    var j := IndexOfId(db.subjects, (x: Subject) => x.id, subjectId);
    assert i.Some? && j.Some?;
  }
}
