/**
 * routes/auth.js, mounted at `/api/auth`: login against active users only,
 * the current-user read, and the profile update. Password hashing and
 * comparison (bcrypt) and token signing (JWT) are parameters.
 */
module AuthRoutes {
  import opened Wrappers
  import opened Js
  import opened Schema
  import opened Tokens
  import ServerLogin

  const UserNotFound: string := "Пользователь не найден"
  const WrongPassword: string := "Неверный пароль"
  const AdminName: string := "Администратор"

  datatype Credentials = Credentials(username: Option<string>, password: Option<string>)

  /** The `userResponse` object: no password, and a display name. */
  datatype Profile = Profile(id: nat, username: string, role: Role, name: string, email: Option<string>)

  datatype LoginReply =
    | MissingCredentials                // 400 "Логин и пароль обязательны"
    | Rejected(message: string)         // 401, with one of two messages
    | LoggedIn(token: string, user: Profile)

  /** `WHERE u.username = ? AND u.is_active = 1`, first row. */
  function FindActive(users: seq<User>, username: string): (r: Option<nat>)
    ensures r.Some? ==> r.value < |users| && users[r.value].username == username && users[r.value].active
    ensures r.Some? ==> forall k :: 0 <= k < r.value ==> !(users[k].username == username && users[k].active)
    ensures r.None? <==> forall k :: 0 <= k < |users| ==> !(users[k].username == username && users[k].active)
  {
    if |users| == 0 then None
    else if users[0].username == username && users[0].active then Some(0)
    else match FindActive(users[1..], username)
      case None => None
      case Some(k) => Some(k + 1)
  }

  /** `student_name || teacher_name || 'Администратор'` over the two LEFT JOINs. */
  function DisplayName(db: Db, u: User): (r: string)
    ensures TruthyStr(StudentName(db, u)) ==> r == StudentName(db, u).value
    ensures !TruthyStr(StudentName(db, u)) && TruthyStr(TeacherName(db, u)) ==> r == TeacherName(db, u).value
    ensures !TruthyStr(StudentName(db, u)) && !TruthyStr(TeacherName(db, u)) ==> r == AdminName
    ensures r != ""
  {
    OrStr(StudentName(db, u), OrStr(TeacherName(db, u), AdminName))
  }

  function StudentName(db: Db, u: User): Option<string> {
    var s := ServerLogin.FindStudent(db.students, u.studentId);
    if s.Some? then Some(s.value.name) else None
  }

  function TeacherName(db: Db, u: User): Option<string> {
    var t := ServerLogin.FindTeacher(db.teachers, u.teacherId);
    if t.Some? then Some(t.value.name) else None
  }

  function ProfileOf(db: Db, u: User): Profile {
    Profile(u.id, u.username, u.role, DisplayName(db, u), u.email)
  }

  /** The token's payload: the users row's own columns, not the joined rows'. */
  function SignedClaims(u: User): Claims {
    Claims(u.id, u.username, RoleName(u.role), u.studentId, u.teacherId)
  }

  /** `POST /login`. The `last_login` timestamp write is not modelled. */
  function Login(db: Db, req: Credentials, compare: (string, string) -> bool,
                 sign: (Claims, string) -> string): (r: LoginReply)
    ensures r.MissingCredentials? <==> !TruthyStr(req.username) || !TruthyStr(req.password)
    ensures r == Rejected(UserNotFound) <==>
      TruthyStr(req.username) && TruthyStr(req.password)
      && forall k :: 0 <= k < |db.users| ==> !(db.users[k].username == req.username.value && db.users[k].active)
    ensures r == Rejected(WrongPassword) <==>
      TruthyStr(req.username) && TruthyStr(req.password)
      && FindActive(db.users, req.username.value).Some?
      && !compare(req.password.value, db.users[FindActive(db.users, req.username.value).value].password)
    ensures r.Rejected? ==> r.message in {UserNotFound, WrongPassword}
    ensures r.LoggedIn? ==>
      exists k :: 0 <= k < |db.users| && db.users[k].active && db.users[k].username == req.username.value
        && compare(req.password.value, db.users[k].password)
        && r.user == ProfileOf(db, db.users[k])
        && r.token == sign(SignedClaims(db.users[k]), ExpiresIn)
  {
    if !TruthyStr(req.username) || !TruthyStr(req.password) then MissingCredentials
    else
      match FindActive(db.users, req.username.value)
      case None => Rejected(UserNotFound)
      case Some(k) =>
        var u := db.users[k];
        if !compare(req.password.value, u.password) then Rejected(WrongPassword)
        else LoggedIn(sign(SignedClaims(u), ExpiresIn), ProfileOf(db, u))
  }

  /** A deactivated account cannot log in, whatever the password. */
  lemma InactiveCannotLogin(db: Db, name: string, pw: string, compare: (string, string) -> bool,
                            sign: (Claims, string) -> string)
    requires forall k :: 0 <= k < |db.users| && db.users[k].username == name ==> !db.users[k].active
    ensures !Login(db, Credentials(Some(name), Some(pw)), compare, sign).LoggedIn?
  {
  }

  // ---------------------------------------------------------------------
  // GET /me

  datatype MeReply = MeNotFound | Me(user: Profile, studentId: Option<int>, teacherId: Option<int>)

  /** `WHERE u.id = ?` without the is_active filter, first row. */
  function FindById(users: seq<User>, id: int): Option<nat> {
    IndexOfId(users, (u: User) => u.id, id)
  }

  function Current(db: Db, c: Claims): (r: MeReply)
    ensures r.MeNotFound? <==> forall k :: 0 <= k < |db.users| ==> db.users[k].id != c.id
    ensures r.Me? ==>
      exists k :: && 0 <= k < |db.users| && db.users[k].id == c.id
                  && r.user == ProfileOf(db, db.users[k])
                  && r.studentId == db.users[k].studentId && r.teacherId == db.users[k].teacherId
  {
    match FindById(db.users, c.id)
    case None => MeNotFound
    case Some(k) => Me(ProfileOf(db, db.users[k]), db.users[k].studentId, db.users[k].teacherId)
  }

  /** A token issued at login names a user that `/me` finds, with the same profile. */
  lemma LoginThenMe(db: Db, req: Credentials, compare: (string, string) -> bool, sign: (Claims, string) -> string)
    requires Login(db, req, compare, sign).LoggedIn?
    requires forall i, j :: 0 <= i < j < |db.users| ==> db.users[i].id != db.users[j].id
    ensures Current(db, SignedClaims(db.users[FindActive(db.users, req.username.value).value])).Me?
    ensures Current(db, SignedClaims(db.users[FindActive(db.users, req.username.value).value])).user
            == Login(db, req, compare, sign).user
  {
    var k := FindActive(db.users, req.username.value).value;
    var j := FindById(db.users, db.users[k].id).value;
    assert j == k;
  }

  // ---------------------------------------------------------------------
  // PUT /profile

  datatype ProfileRequest = ProfileRequest(email: Option<string>, currentPassword: Option<string>, newPassword: Option<string>)

  datatype ProfileReply =
    | CurrentPasswordRequired   // 400 "Текущий пароль обязателен для смены пароля"
    | CurrentPasswordWrong      // 400 "Неверный текущий пароль"
    | NoResponse                // `user.password` of a missing row throws inside the callback
    | ProfileSaved              // 200

  /** `UPDATE users SET ... WHERE id = ?`: every row with the id gets `f`. */
  function SetWhereId(users: seq<User>, id: int, password: Option<string>, email: Option<string>): (r: seq<User>)
    ensures |r| == |users|
    ensures forall k :: 0 <= k < |users| ==>
      r[k] == if users[k].id == id
              then users[k].(password := password.GetOr(users[k].password), email := email)
              else users[k]
  {
    seq(|users|, k requires 0 <= k < |users| =>
      if users[k].id == id then users[k].(password := password.GetOr(users[k].password), email := email) else users[k])
  }

  function UpdateProfile(db: Db, c: Claims, req: ProfileRequest, compare: (string, string) -> bool,
                         hash: string -> string): (r: (ProfileReply, Db))
    ensures r.1 == db.(users := r.1.users)
    ensures r.0 != ProfileSaved ==> r.1 == db
    ensures r.0 == CurrentPasswordRequired <==> TruthyStr(req.newPassword) && !TruthyStr(req.currentPassword)
    ensures r.0 == NoResponse <==>
      TruthyStr(req.newPassword) && TruthyStr(req.currentPassword) && FindById(db.users, c.id).None?
    ensures r.0 == CurrentPasswordWrong <==>
      TruthyStr(req.newPassword) && TruthyStr(req.currentPassword) && FindById(db.users, c.id).Some?
      && !compare(req.currentPassword.value, db.users[FindById(db.users, c.id).value].password)
    ensures r.0 == ProfileSaved ==> |r.1.users| == |db.users| && forall k :: 0 <= k < |db.users| ==>
      && r.1.users[k].username == db.users[k].username && r.1.users[k].active == db.users[k].active
      && (db.users[k].id != c.id ==> r.1.users[k] == db.users[k])
      && (db.users[k].id == c.id ==> r.1.users[k].email == req.email)
      && (db.users[k].id == c.id && TruthyStr(req.newPassword) ==> r.1.users[k].password == hash(req.newPassword.value))
      && (!TruthyStr(req.newPassword) ==> r.1.users[k].password == db.users[k].password)
      && (db.users[k].id == c.id ==>
            r.1.users[k] == db.users[k].(email := req.email,
                                         password := if TruthyStr(req.newPassword) then hash(req.newPassword.value)
                                                     else db.users[k].password))
  {
    if TruthyStr(req.newPassword) then
      if !TruthyStr(req.currentPassword) then (CurrentPasswordRequired, db)
      else match FindById(db.users, c.id)
        case None => (NoResponse, db)
        case Some(k) =>
          if !compare(req.currentPassword.value, db.users[k].password) then (CurrentPasswordWrong, db)
          else (ProfileSaved, db.(users := SetWhereId(db.users, c.id, Some(hash(req.newPassword.value)), req.email)))
    else
      (ProfileSaved, db.(users := SetWhereId(db.users, c.id, None, req.email)))
  }

  /**
   * The email column is always written, so a password change whose body
   * leaves out `email` clears the stored address.
   */
  lemma OmittedEmailIsCleared(db: Db, c: Claims, req: ProfileRequest, compare: (string, string) -> bool,
                              hash: string -> string, k: nat)
    requires k < |db.users| && db.users[k].id == c.id
    requires req.email.None?
    requires UpdateProfile(db, c, req, compare, hash).0 == ProfileSaved
    ensures UpdateProfile(db, c, req, compare, hash).1.users[k].email.None?
  {
  }

  /**
   * After a password change the new password logs in, provided the hash
   * comparison accepts what the hash produced (bcrypt's own promise).
   */
  lemma NewPasswordLogsIn(db: Db, c: Claims, req: ProfileRequest, compare: (string, string) -> bool,
                          hash: string -> string, sign: (Claims, string) -> string, k: nat)
    requires k < |db.users| && db.users[k].id == c.id && db.users[k].active
    requires DistinctBy(db.users, (u: User) => u.username)
    requires TruthyStr(req.newPassword) && compare(req.newPassword.value, hash(req.newPassword.value))
    requires UpdateProfile(db, c, req, compare, hash).0 == ProfileSaved
    requires db.users[k].username != ""
    ensures Login(UpdateProfile(db, c, req, compare, hash).1,
                  Credentials(Some(db.users[k].username), req.newPassword), compare, sign).LoggedIn?
  {
    var db' := UpdateProfile(db, c, req, compare, hash).1;
    var name := db.users[k].username;
    assert db'.users[k].username == name && db'.users[k].active;
    var f := FindActive(db'.users, name);
    assert f.Some?;
    assert f.value == k;
  }
}
