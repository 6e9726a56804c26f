/**
 * server.js `POST /api/auth/login`: a users row is looked up by username,
 * LEFT JOINed to its student and teacher rows, its password checked with an
 * opaque bcrypt comparison, and a token signed over five claims.
 */
module ServerLogin {
  import opened Wrappers
  import opened Js
  import opened Schema
  import opened Tokens

  datatype LoginRequest = LoginRequest(username: Option<string>, password: Option<string>)

  /**
   * The user object returned without its password column. The student and
   * teacher ids are the joined rows' ids (`s.id as student_id`, `t.id as
   * teacher_id` shadow the users columns), so a dangling link reads as NULL.
   */
  datatype UserView = UserView(
    id: nat, username: string, role: Role, studentId: Option<int>,
    teacherId: Option<int>, groupId: Option<int>)

  datatype LoginReply =
    | MissingCredentials                 // 400
    | BadCredentials(message: string)    // 401
    | LoggedIn(token: string, user: UserView)

  const InvalidLogin: string := "Неверный логин или пароль"

  /** The LEFT JOIN on `u.student_id = s.id`: no row for a NULL id. */
  function FindStudent(rows: seq<Student>, id: Option<int>): Option<Student> {
    if id.None? then None
    else match IndexOfId(rows, (s: Student) => s.id, id.value)
      case None => None
      case Some(k) => Some(rows[k])
  }

  /** The LEFT JOIN on `u.teacher_id = t.id`. */
  function FindTeacher(rows: seq<Teacher>, id: Option<int>): Option<Teacher> {
    if id.None? then None
    else match IndexOfId(rows, (t: Teacher) => t.id, id.value)
      case None => None
      case Some(k) => Some(rows[k])
  }

  /** `WHERE u.username = ?`, first row. */
  function FindUser(users: seq<User>, username: string): (r: Option<User>)
    ensures r.Some? ==> r.value in users && r.value.username == username
    ensures r.None? ==> forall k :: 0 <= k < |users| ==> users[k].username != username
  {
    if |users| == 0 then None
    else if users[0].username == username then Some(users[0])
    else FindUser(users[1..], username)
  }

  /** The row FindUser returns is the first one carrying the username. */
  lemma {:induction false} FindUserFirst(users: seq<User>, username: string, k: nat)
    requires k < |users| && users[k].username == username
    requires forall j :: 0 <= j < k ==> users[j].username != username
    ensures FindUser(users, username) == Some(users[k])
  {
    if k > 0 {
      FindUserFirst(users[1..], username, k - 1);
    }
  }

  /**
   * The user object of a login: the users row's id, name and role, with the
   * ids of the student and teacher rows the LEFT JOINs found.
   */
  function ViewOf(db: Db, u: User): (v: UserView)
    ensures v.id == u.id && v.username == u.username && v.role == u.role
    ensures v.studentId.Some? <==>
      u.studentId.Some? && exists k :: 0 <= k < |db.students| && db.students[k].id == u.studentId.value
    ensures v.studentId.Some? ==> v.studentId == u.studentId
    ensures v.teacherId.Some? <==>
      u.teacherId.Some? && exists k :: 0 <= k < |db.teachers| && db.teachers[k].id == u.teacherId.value
    ensures v.teacherId.Some? ==> v.teacherId == u.teacherId
    ensures v.groupId.Some? ==>
      exists k :: 0 <= k < |db.students| && Some(db.students[k].id as int) == u.studentId && db.students[k].groupId == v.groupId
  {
    var s := FindStudent(db.students, u.studentId);
    var t := FindTeacher(db.teachers, u.teacherId);
    UserView(u.id, u.username, u.role,
             if s.Some? then Some(s.value.id as int) else None,
             if t.Some? then Some(t.value.id as int) else None,
             if s.Some? then s.value.groupId else None)
  }

  /** The five claims signed at login, taken from the joined row. */
  function LoginClaims(v: UserView): Claims {
    Claims(v.id, v.username, RoleName(v.role), v.studentId, v.teacherId)
  }

  function Login(db: Db, req: LoginRequest, compare: (string, string) -> bool,
                 sign: (Claims, string) -> string): (r: LoginReply)
    ensures r.MissingCredentials? <==> !TruthyStr(req.username) || !TruthyStr(req.password)
    ensures r.BadCredentials? ==> r.message == InvalidLogin
    ensures r.LoggedIn? <==>
      && TruthyStr(req.username) && TruthyStr(req.password)
      && FindUser(db.users, req.username.value).Some?
      && compare(req.password.value, FindUser(db.users, req.username.value).value.password)
    ensures r.LoggedIn? ==>
      && r.user == ViewOf(db, FindUser(db.users, req.username.value).value)
      && r.token == sign(LoginClaims(r.user), ExpiresIn)
    ensures r.LoggedIn? ==>
      exists u :: u in db.users && u.username == req.username.value && compare(req.password.value, u.password)
                  && r.user.id == u.id && r.user.username == u.username && r.user.role == u.role
                  && r.token == sign(Claims(u.id, u.username, RoleName(u.role), r.user.studentId, r.user.teacherId), ExpiresIn)
    ensures r.LoggedIn? ==> r.user.studentId.Some? ==> exists s :: s in db.students && r.user.studentId == Some(s.id as int)
  {
    if !TruthyStr(req.username) || !TruthyStr(req.password) then MissingCredentials
    else
      match FindUser(db.users, req.username.value)
      case None => BadCredentials(InvalidLogin)
      case Some(u) =>
        if !compare(req.password.value, u.password) then BadCredentials(InvalidLogin)
        else
          var v := ViewOf(db, u);
          LoggedIn(sign(LoginClaims(v), ExpiresIn), v)
  }

  /**
   * An unknown username and a wrong password produce the very same reply, so
   * the response does not reveal which usernames exist.
   */
  lemma FailuresLookAlike(db: Db, name: string, pw: string, compare: (string, string) -> bool,
                          sign: (Claims, string) -> string)
    requires name != "" && pw != ""
    ensures var r := Login(db, LoginRequest(Some(name), Some(pw)), compare, sign);
      (forall k :: 0 <= k < |db.users| && db.users[k].username == name ==> !compare(pw, db.users[k].password))
      ==> r == BadCredentials(InvalidLogin)
  {
  }

  /**
   * Complete credentials whose password the comparison accepts for the first
   * row with that username log in as that row, joined to its student and
   * teacher; rejected by the comparison, they get the generic 401.
   */
  lemma FirstRowDecides(db: Db, name: string, pw: string, k: nat, compare: (string, string) -> bool,
                        sign: (Claims, string) -> string)
    requires name != "" && pw != ""
    requires k < |db.users| && db.users[k].username == name
    requires forall j :: 0 <= j < k ==> db.users[j].username != name
    ensures var r := Login(db, LoginRequest(Some(name), Some(pw)), compare, sign);
      && (compare(pw, db.users[k].password) ==>
            r == LoggedIn(sign(LoginClaims(ViewOf(db, db.users[k])), ExpiresIn), ViewOf(db, db.users[k])))
      && (!compare(pw, db.users[k].password) ==> r == BadCredentials(InvalidLogin))
  {
    FindUserFirst(db.users, name, k);
  }
}
