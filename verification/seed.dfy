/**
 * database.js `populateTestData`: each seed row goes in with
 * `INSERT OR IGNORE`, which skips a row whose UNIQUE column clashes with a
 * stored one. Rows are compared by content; the AUTOINCREMENT id a new row
 * receives is not part of this model. A key of None is a row with no UNIQUE
 * column to clash on (a NULL never clashes).
 */
module Seed {
  import opened Wrappers

  predicate Clashes<T, K(==)>(rows: seq<T>, key: T -> Option<K>, d: T) {
    key(d).Some? && exists k :: 0 <= k < |rows| && key(rows[k]) == key(d)
  }

  /** One `INSERT OR IGNORE`. */
  function InsertOrIgnore<T, K(==)>(rows: seq<T>, key: T -> Option<K>, d: T): (r: seq<T>)
    ensures Clashes(rows, key, d) ==> r == rows
    ensures !Clashes(rows, key, d) ==> r == rows + [d]
  {
    if key(d).Some? && exists k :: 0 <= k < |rows| && key(rows[k]) == key(d) then rows else rows + [d]
  }

  /** The `for ... of` loop over one seed array. */
  function SeedAll<T, K(==)>(rows: seq<T>, key: T -> Option<K>, data: seq<T>): seq<T>
    decreases |data|
  {
    if |data| == 0 then rows
    else SeedAll(InsertOrIgnore(rows, key, data[0]), key, data[1..])
  }

  /** Every key the seed rows carry. */
  predicate HasKey<T, K(==)>(rows: seq<T>, key: T -> Option<K>, x: K) {
    exists k :: 0 <= k < |rows| && key(rows[k]) == Some(x)
  }

  lemma {:induction false} SeedOnlyAppends<T, K>(rows: seq<T>, key: T -> Option<K>, data: seq<T>)
    ensures |SeedAll(rows, key, data)| >= |rows|
    ensures SeedAll(rows, key, data)[..|rows|] == rows
    decreases |data|
  {
    if |data| > 0 {
      var next := InsertOrIgnore(rows, key, data[0]);
      SeedOnlyAppends(next, key, data[1..]);
      assert next[..|rows|] == rows;
    }
  }

  lemma KeyKeptByPrefix<T, K>(rows: seq<T>, more: seq<T>, key: T -> Option<K>, x: K)
    requires |more| >= |rows| && more[..|rows|] == rows
    requires HasKey(rows, key, x)
    ensures HasKey(more, key, x)
  {
    var k :| 0 <= k < |rows| && key(rows[k]) == Some(x);
    assert more[k] == rows[k];
  }

  /** After seeding, every key of the seed data is stored. */
  lemma {:induction false} SeedStoresKeys<T, K>(rows: seq<T>, key: T -> Option<K>, data: seq<T>, i: nat)
    requires i < |data| && key(data[i]).Some?
    ensures HasKey(SeedAll(rows, key, data), key, key(data[i]).value)
    decreases |data|
  {
    var next := InsertOrIgnore(rows, key, data[0]);
    if i == 0 {
      assert HasKey(next, key, key(data[0]).value) by {
        if !Clashes(rows, key, data[0]) {
          assert next[|rows|] == data[0];
        }
      }
      SeedOnlyAppends(next, key, data[1..]);
      KeyKeptByPrefix(next, SeedAll(next, key, data[1..]), key, key(data[0]).value);
    } else {
      assert data[1..][i - 1] == data[i];
      SeedStoresKeys(next, key, data[1..], i - 1);
    }
  }

  /** Seeding rows whose keys are all stored already changes nothing. */
  lemma {:induction false} SeedStoredIsIdentity<T, K>(rows: seq<T>, key: T -> Option<K>, data: seq<T>)
    requires forall i :: 0 <= i < |data| ==> key(data[i]).Some? && HasKey(rows, key, key(data[i]).value)
    ensures SeedAll(rows, key, data) == rows
    decreases |data|
  {
    if |data| > 0 {
      assert HasKey(rows, key, key(data[0]).value);
      assert InsertOrIgnore(rows, key, data[0]) == rows;
      SeedStoredIsIdentity(rows, key, data[1..]);
    }
  }

  /** On a table with a UNIQUE column every seed row fills, re-running the seed adds nothing. */
  lemma ReseedIsIdempotent<T, K>(rows: seq<T>, key: T -> Option<K>, data: seq<T>)
    requires forall i :: 0 <= i < |data| ==> key(data[i]).Some?
    ensures SeedAll(SeedAll(rows, key, data), key, data) == SeedAll(rows, key, data)
  {
    var once := SeedAll(rows, key, data);
    forall i | 0 <= i < |data|
      ensures HasKey(once, key, key(data[i]).value)
    {
      SeedStoresKeys(rows, key, data, i);
    }
    SeedStoredIsIdentity(once, key, data);
  }

  /** Without a UNIQUE column nothing clashes: every run appends the whole seed. */
  lemma {:induction false} UnkeyedSeedAppends<T, K>(rows: seq<T>, key: T -> Option<K>, data: seq<T>)
    requires forall i :: 0 <= i < |data| ==> key(data[i]).None?
    ensures SeedAll(rows, key, data) == rows + data
    decreases |data|
  {
    if |data| > 0 {
      UnkeyedSeedAppends(rows + [data[0]], key, data[1..]);
      assert rows + [data[0]] + data[1..] == rows + data;
    }
  }

  // The seed tables that carry a UNIQUE column, and the one that does not.
  // A seed row is the column list of its INSERT: no id, since AUTOINCREMENT
  // assigns it, and only the columns the restart lemmas compare (a user's
  // role as the seed's string, no password hash). That is why these are not
  // the Schema row types.

  datatype GroupSeed = GroupSeed(name: string, course: int, specialization: string)
  datatype TeacherSeed = TeacherSeed(name: string, email: string, department: string, position: string)
  datatype StudentSeed = StudentSeed(name: string, groupId: int, card: string, email: string, phone: string)
  datatype SubjectSeed = SubjectSeed(name: string, hours: int, semester: int, teacherId: int)
  datatype UserSeed = UserSeed(username: string, role: string, studentId: Option<int>, teacherId: Option<int>)

  /** `name TEXT UNIQUE` */
  function GroupKey(g: GroupSeed): Option<string> { Some(g.name) }
  /** `email TEXT UNIQUE` */
  function TeacherKey(t: TeacherSeed): Option<string> { Some(t.email) }
  /** `student_card TEXT UNIQUE` */
  function StudentKey(s: StudentSeed): Option<string> { Some(s.card) }
  /** `username TEXT UNIQUE` */
  function UserKey(u: UserSeed): Option<string> { Some(u.username) }
  /** subjects declares no UNIQUE column. */
  function SubjectKey(s: SubjectSeed): Option<string> { None }

  const Groups: seq<GroupSeed> := [
    GroupSeed("ИТ-21", 2, "Информационные технологии"),
    GroupSeed("П-22", 1, "Программирование"),
    GroupSeed("К-21", 2, "Компьютерные сети")]

  const Teachers: seq<TeacherSeed> := [
    TeacherSeed("Иванова Мария Сергеевна", "ivanova@tech.ru", "Программирование", "Старший преподаватель"),
    TeacherSeed("Петров Алексей Владимирович", "petrov@tech.ru", "Базы данных", "Доцент"),
    TeacherSeed("Сидорова Елена Дмитриевна", "sidorova@tech.ru", "Математика", "Профессор")]

  const Students: seq<StudentSeed> := [
    StudentSeed("Иванов Алексей Сергеевич", 1, "СТ-001", "ivanov@student.tech.ru", "+79161234567"),
    StudentSeed("Петрова Мария Дмитриевна", 1, "СТ-002", "petrova@student.tech.ru", "+79161234568"),
    StudentSeed("Сидоров Дмитрий Иванович", 2, "СТ-003", "sidorov@student.tech.ru", "+79161234569"),
    StudentSeed("Козлова Анна Петровна", 2, "СТ-004", "kozlova@student.tech.ru", "+79161234570")]

  const Subjects: seq<SubjectSeed> := [
    SubjectSeed("Программирование на Python", 120, 1, 1),
    SubjectSeed("Базы данных", 90, 1, 2),
    SubjectSeed("Высшая математика", 150, 1, 3),
    SubjectSeed("Веб-технологии", 80, 2, 1)]

  const Users: seq<UserSeed> := [
    UserSeed("admin", "admin", None, None),
    UserSeed("teacher", "teacher", None, Some(1)),
    UserSeed("student", "student", Some(1), None)]

  /** A second start-up leaves groups, teachers, students and users as the first one left them. */
  lemma RestartKeepsKeyedTables(groups: seq<GroupSeed>, teachers: seq<TeacherSeed>,
                                students: seq<StudentSeed>, users: seq<UserSeed>)
    ensures SeedAll(SeedAll(groups, GroupKey, Groups), GroupKey, Groups) == SeedAll(groups, GroupKey, Groups)
    ensures SeedAll(SeedAll(teachers, TeacherKey, Teachers), TeacherKey, Teachers) == SeedAll(teachers, TeacherKey, Teachers)
    ensures SeedAll(SeedAll(students, StudentKey, Students), StudentKey, Students) == SeedAll(students, StudentKey, Students)
    ensures SeedAll(SeedAll(users, UserKey, Users), UserKey, Users) == SeedAll(users, UserKey, Users)
  {
    ReseedIsIdempotent(groups, GroupKey, Groups);
    ReseedIsIdempotent(teachers, TeacherKey, Teachers);
    ReseedIsIdempotent(students, StudentKey, Students);
    ReseedIsIdempotent(users, UserKey, Users);
  }

  /** Each start-up appends the four subjects again. */
  lemma RestartDuplicatesSubjects(subjects: seq<SubjectSeed>)
    ensures |SeedAll(SeedAll(subjects, SubjectKey, Subjects), SubjectKey, Subjects)| == |subjects| + 8
  {
    UnkeyedSeedAppends(subjects, SubjectKey, Subjects);
    UnkeyedSeedAppends(subjects + Subjects, SubjectKey, Subjects);
  }
}
