/**
 * The tables `createTables` declares, as row datatypes, and their CHECK,
 * NOT NULL and UNIQUE constraints as predicates. Enumerated TEXT columns are
 * datatypes; `Parse*` is the CHECK a written string must pass.
 */
module Schema {
  import opened Wrappers

  // ----- enumerated columns -----

  datatype GradeType = Exam | Test | Credit | Coursework | Practice

  function GradeTypeName(t: GradeType): string {
    match t
    case Exam => "exam"
    case Test => "test"
    case Credit => "credit"
    case Coursework => "coursework"
    case Practice => "practice"
  }

  /** The grades CHECK on grade_type: only the five names are stored. */
  function ParseGradeType(s: string): (r: Option<GradeType>)
    ensures r.Some? ==> GradeTypeName(r.value) == s
    ensures r.None? <==> s !in {"exam", "test", "credit", "coursework", "practice"}
  {
    match s
    case "exam" => Some(Exam)
    case "test" => Some(Test)
    case "credit" => Some(Credit)
    case "coursework" => Some(Coursework)
    case "practice" => Some(Practice)
    case _ => None
  }

  lemma ParseGradeTypeName(t: GradeType)
    ensures ParseGradeType(GradeTypeName(t)) == Some(t)
  {
  }

  datatype Role = StudentRole | TeacherRole | AdminRole

  function RoleName(r: Role): string {
    match r
    case StudentRole => "student"
    case TeacherRole => "teacher"
    case AdminRole => "admin"
  }

  /** The users CHECK on role. */
  function ParseRole(s: string): (r: Option<Role>)
    ensures r.Some? ==> RoleName(r.value) == s
    ensures r.None? <==> s !in {"student", "teacher", "admin"}
  {
    match s
    case "student" => Some(StudentRole)
    case "teacher" => Some(TeacherRole)
    case "admin" => Some(AdminRole)
    case _ => None
  }

  datatype LessonType = Lecture | PracticeLesson | Lab | Seminar

  function LessonTypeName(t: LessonType): string {
    match t
    case Lecture => "lecture"
    case PracticeLesson => "practice"
    case Lab => "lab"
    case Seminar => "seminar"
  }

  /** The session_schedule event kinds. */
  datatype EventType = ExamEvent | TestEvent | CreditEvent | Consultation

  function EventTypeName(t: EventType): string {
    match t
    case ExamEvent => "exam"
    case TestEvent => "test"
    case CreditEvent => "credit"
    case Consultation => "consultation"
  }

  /** The session_schedule CHECK on event_type, and the handler's own list. */
  function ParseEventType(s: string): (r: Option<EventType>)
    ensures r.Some? ==> EventTypeName(r.value) == s
    ensures r.None? <==> s !in {"exam", "test", "credit", "consultation"}
  {
    match s
    case "exam" => Some(ExamEvent)
    case "test" => Some(TestEvent)
    case "credit" => Some(CreditEvent)
    case "consultation" => Some(Consultation)
    case _ => None
  }

  // ----- rows -----

  datatype Group = Group(id: nat, name: string, course: int, specialization: Option<string>)

  datatype Student = Student(
    id: nat, name: string, groupId: Option<int>, card: Option<string>,
    email: Option<string>, phone: Option<string>)

  datatype Teacher = Teacher(
    id: nat, name: string, email: Option<string>, department: Option<string>, position: Option<string>)

  datatype Subject = Subject(
    id: nat, name: string, hours: Option<int>, semester: Option<int>, teacherId: Option<int>)

  /** A grades row. Handlers only ever write non-NULL student and subject ids. */
  datatype GradeRow = GradeRow(
    id: nat, studentId: int, subjectId: int, grade: Option<int>, isPass: Option<int>,
    gradeType: GradeType, date: string, teacherId: Option<int>, notes: Option<string>)

  /** The grades UNIQUE key. */
  datatype GradeKey = GradeKey(studentId: int, subjectId: int, gradeType: GradeType)

  function KeyOf(g: GradeRow): GradeKey {
    GradeKey(g.studentId, g.subjectId, g.gradeType)
  }

  /**
   * A users row. `active` and `email` are the is_active and email columns the
   * login and profile routes read; the table created here does not declare them.
   */
  datatype User = User(
    id: nat, username: string, password: string, role: Role,
    studentId: Option<int>, teacherId: Option<int>, active: bool, email: Option<string>)

  datatype Lesson = Lesson(
    id: nat, groupId: Option<int>, subjectId: Option<int>, teacherId: Option<int>,
    dayOfWeek: int, startTime: string, endTime: string, classroom: Option<string>,
    lessonType: Option<LessonType>)

  datatype AttendanceRow = AttendanceRow(
    id: nat, studentId: Option<int>, subjectId: Option<int>, teacherId: Option<int>,
    date: string, status: string, notes: Option<string>)

  datatype SessionEvent = SessionEvent(
    id: nat, subjectId: int, groupId: int, teacherId: int, eventType: EventType,
    eventDate: string, startTime: string, endTime: string,
    classroom: Option<string>, notes: Option<string>)

  // ----- constraints -----

  /** No two rows agree on `key`: a UNIQUE column, or a primary key. */
  predicate DistinctBy<T, K(==)>(rows: seq<T>, key: T -> K) {
    forall i, j :: 0 <= i < j < |rows| ==> key(rows[i]) != key(rows[j])
  }

  /** grade BETWEEN 2 AND 5 OR grade IS NULL; is_pass IN (0, 1) (NULL passes a CHECK). */
  predicate GradeRowValid(g: GradeRow) {
    && (g.grade.None? || 2 <= g.grade.value <= 5)
    && (g.isPass.None? || g.isPass.value == 0 || g.isPass.value == 1)
  }

  predicate GradesValid(rows: seq<GradeRow>) {
    && (forall i :: 0 <= i < |rows| ==> GradeRowValid(rows[i]))
    && DistinctBy(rows, KeyOf)
    && DistinctBy(rows, (g: GradeRow) => g.id)
  }

  predicate LessonValid(l: Lesson) {
    1 <= l.dayOfWeek <= 6
  }

  /**
   * Two attendance schemas exist: the one `createTables` recreates at every
   * start, and the one the attendance migration script installs.
   */
  datatype AttendanceSchema = Initial | Migrated

  function StatusSet(schema: AttendanceSchema): set<string> {
    match schema
    case Initial => {"present", "absent", "late", "sick"}
    case Migrated => {"present", "absent", "late", "excused"}
  }

  /**
   * Whether an INSERT of `r` succeeds. The initial table has no teacher_id
   * column, so an INSERT that names one fails; the migrated table makes
   * student_id, subject_id and teacher_id NOT NULL.
   */
  predicate AttendanceAccepts(schema: AttendanceSchema, r: AttendanceRow) {
    && r.status in StatusSet(schema)
    && match schema
       case Initial => r.teacherId.None?
       case Migrated => r.studentId.Some? && r.subjectId.Some? && r.teacherId.Some?
  }

  predicate AttendanceValid(schema: AttendanceSchema, rows: seq<AttendanceRow>) {
    && (forall i :: 0 <= i < |rows| ==> AttendanceAccepts(schema, rows[i]))
    && DistinctBy(rows, (a: AttendanceRow) => a.id)
  }

  /** The whole store. */
  datatype Db = Db(
    groups: seq<Group>, students: seq<Student>, teachers: seq<Teacher>,
    subjects: seq<Subject>, grades: seq<GradeRow>, users: seq<User>,
    schedule: seq<Lesson>, attendance: seq<AttendanceRow>, sessions: seq<SessionEvent>)

  predicate Valid(db: Db, schema: AttendanceSchema) {
    && DistinctBy(db.groups, (g: Group) => g.name)
    && DistinctBy(db.users, (u: User) => u.username)
    && GradesValid(db.grades)
    && (forall i :: 0 <= i < |db.schedule| ==> LessonValid(db.schedule[i]))
    && AttendanceValid(schema, db.attendance)
    && DistinctBy(db.sessions, (e: SessionEvent) => e.id)
  }

  /**
   * `WHERE id = ?` on a table whose rows carry ids `idOf`: the position of the
   * first row with that id, or None when no row has it.
   */
  function IndexOfId<T>(rows: seq<T>, idOf: T -> int, id: int): (r: Option<nat>)
    ensures r.Some? ==> r.value < |rows| && idOf(rows[r.value]) == id
    ensures r.Some? ==> forall k :: 0 <= k < r.value ==> idOf(rows[k]) != id
    ensures r.None? <==> forall k :: 0 <= k < |rows| ==> idOf(rows[k]) != id
  {
    if |rows| == 0 then None
    else if idOf(rows[0]) == id then Some(0)
    else match IndexOfId(rows[1..], idOf, id)
      case None => None
      case Some(k) => Some(k + 1)
  }

  /** The name of the group with that id (`id` is the primary key). */
  function GroupName(groups: seq<Group>, id: int): Option<string> {
    match IndexOfId(groups, (g: Group) => g.id, id)
    case None => None
    case Some(k) => Some(groups[k].name)
  }

  /** The name of the subject with that id. */
  function SubjectName(subjects: seq<Subject>, id: int): Option<string> {
    match IndexOfId(subjects, (s: Subject) => s.id, id)
    case None => None
    case Some(k) => Some(subjects[k].name)
  }

  /** The name of the teacher with that id. */
  function TeacherName(teachers: seq<Teacher>, id: int): Option<string> {
    match IndexOfId(teachers, (t: Teacher) => t.id, id)
    case None => None
    case Some(k) => Some(teachers[k].name)
  }

  /**
   * The id AUTOINCREMENT hands out next, abstracted to one more than the
   * largest live id: larger than every id in the table.
   */
  function FreshId<T>(rows: seq<T>, idOf: T -> nat): (id: nat)
    ensures id > 0
    ensures forall i :: 0 <= i < |rows| ==> idOf(rows[i]) < id
  {
    if |rows| == 0 then 1
    else
      var m := FreshId(rows[..|rows| - 1], idOf);
      var last := idOf(rows[|rows| - 1]);
      if last >= m then last + 1 else m
  }

  /** Appending a row whose id is fresh keeps ids distinct. */
  lemma {:induction false} AppendFreshKeepsIdsDistinct<T>(rows: seq<T>, idOf: T -> nat, r: T)
    requires DistinctBy(rows, idOf)
    requires idOf(r) == FreshId(rows, idOf)
    ensures DistinctBy(rows + [r], idOf)
  {
    var rows' := rows + [r];
    forall i, j | 0 <= i < j < |rows'|
      ensures idOf(rows'[i]) != idOf(rows'[j])
    {
      if j == |rows| {
        assert rows'[i] == rows[i];
      } else {
        assert rows'[i] == rows[i] && rows'[j] == rows[j];
      }
    }
  }
}
