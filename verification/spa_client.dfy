/**
 * The pure helpers of the single-page client (public/js/app.js): badge and
 * label maps, the attendance tally, the form checks, and the two list
 * manipulations around the attendance form. Rendering and `toFixed`
 * formatting are not modelled; percentages and averages are reals.
 */
module SpaClient {
  import opened Wrappers
  import opened Js
  import opened Schema
  import GroupStatistics
  import ServerAttendance

  // ---------------------------------------------------------------------
  // getGradeBadgeClass

  datatype Badge = Danger | Warning | Primary | Success

  function BadgeName(b: Badge): string {
    match b
    case Danger => "bg-danger"
    case Warning => "bg-warning"
    case Primary => "bg-primary"
    case Success => "bg-success"
  }

  /** How good a badge looks: danger < warning < primary < success. */
  function Rank(b: Badge): nat {
    match b
    case Danger => 0
    case Warning => 1
    case Primary => 2
    case Success => 3
  }

  function GradeBadge(grade: real): (r: Badge)
    ensures r == Success <==> grade >= 4.5
    ensures r == Primary <==> 3.5 <= grade < 4.5
    ensures r == Warning <==> 2.5 <= grade < 3.5
    ensures r == Danger <==> grade < 2.5
  {
    if grade >= 4.5 then Success
    else if grade >= 3.5 then Primary
    else if grade >= 2.5 then Warning
    else Danger
  }

  /** A higher grade never gets a worse-looking badge. */
  lemma BadgeMonotone(a: real, b: real)
    requires a <= b
    ensures Rank(GradeBadge(a)) <= Rank(GradeBadge(b))
  {
  }

  /** Every whole grade of the 2..5 scale gets its own badge. */
  lemma WholeGradesDistinguished()
    ensures GradeBadge(5.0) == Success && GradeBadge(4.0) == Primary
    ensures GradeBadge(3.0) == Warning && GradeBadge(2.0) == Danger
  {
  }

  // ---------------------------------------------------------------------
  // Label and badge maps

  const GradeTypeLabels: map<string, string> := map[
    "exam" := "Экзамен", "test" := "Зачёт", "coursework" := "Курсовая", "practice" := "Практика"]

  /** `types[type] || type` */
  function GradeTypeText(t: string): (r: Value)
    ensures t in GradeTypeLabels ==> r == Str(GradeTypeLabels[t])
    ensures t !in GradeTypeLabels && t !in InheritedKeys ==> r == Str(t)
  {
    var v := Lookup(GradeTypeLabels, t);
    if Truthy(v) then v else Str(t)
  }

  /** 'credit' is a stored grade type with no label: it is shown as is. */
  lemma CreditShownRaw()
    ensures ParseGradeType("credit") == Some(Credit)
    ensures GradeTypeText("credit") == Str("credit")
  {
    assert "credit" !in GradeTypeLabels;
  }

  const AttendanceBadges: map<string, string> := map[
    "present" := "bg-success", "absent" := "bg-danger", "late" := "bg-warning", "sick" := "bg-info"]

  const AttendanceLabels: map<string, string> := map[
    "present" := "Присутствовал", "absent" := "Отсутствовал", "late" := "Опоздал", "sick" := "Болел"]

  /** `badges[status] || 'bg-secondary'` */
  function AttendanceBadge(status: string): (r: Value)
    ensures status in StatusSet(Initial) ==> r == Str(AttendanceBadges[status])
    ensures status !in StatusSet(Initial) && status !in InheritedKeys ==> r == Str("bg-secondary")
  {
    assert AttendanceBadges.Keys == StatusSet(Initial);
    var v := Lookup(AttendanceBadges, status);
    if Truthy(v) then v else Str("bg-secondary")
  }

  /** `statuses[status] || status` */
  function AttendanceText(status: string): (r: Value)
    ensures status in StatusSet(Initial) ==> r == Str(AttendanceLabels[status])
    ensures status !in StatusSet(Initial) && status !in InheritedKeys ==> r == Str(status)
  {
    assert AttendanceLabels.Keys == StatusSet(Initial);
    var v := Lookup(AttendanceLabels, status);
    if Truthy(v) then v else Str(status)
  }

  /** The maps cover the initial schema; the migrated schema's 'excused' gets the fallbacks. */
  lemma ExcusedFallsThrough()
    ensures "excused" in StatusSet(Migrated)
    ensures AttendanceBadge("excused") == Str("bg-secondary")
    ensures AttendanceText("excused") == Str("excused")
  {
  }

  // ---------------------------------------------------------------------
  // calculateAttendanceStats

  /** `attendance.filter(a => a.status === s).length` */
  function CountStatus(statuses: seq<string>, s: string): (r: nat)
    ensures r <= |statuses|
    ensures r == multiset(statuses)[s]
  {
    if |statuses| == 0 then 0
    else
      assert statuses == [statuses[0]] + statuses[1..];
      (if statuses[0] == s then 1 else 0) + CountStatus(statuses[1..], s)
  }

  datatype AttendanceStats = AttendanceStats(
    present: nat, absent: nat, late: nat, sick: nat, total: nat,
    presentPct: real, absentPct: real, latePct: real, sickPct: real)

  /** `(count / total) * 100`, and 0 for an empty list. */
  function Pct(count: nat, total: nat): (r: real)
    requires count <= total
    ensures total == 0 ==> r == 0.0
    ensures 0.0 <= r <= 100.0
    ensures total > 0 && count == total ==> r == 100.0
  {
    if total > 0 then
      GroupStatistics.MeanBetween(100.0 * count as real, total as real, 0.0, 100.0);
      100.0 * count as real / total as real
    else 0.0
  }

  function AttendanceSummary(statuses: seq<string>): (r: AttendanceStats)
    ensures r.total == |statuses|
    ensures r.present == multiset(statuses)["present"] && r.absent == multiset(statuses)["absent"]
    ensures r.late == multiset(statuses)["late"] && r.sick == multiset(statuses)["sick"]
    ensures r.total == 0 ==> r.presentPct == r.absentPct == r.latePct == r.sickPct == 0.0
  {
    var p := CountStatus(statuses, "present");
    var a := CountStatus(statuses, "absent");
    var l := CountStatus(statuses, "late");
    var s := CountStatus(statuses, "sick");
    AttendanceStats(p, a, l, s, |statuses|,
                    Pct(p, |statuses|), Pct(a, |statuses|), Pct(l, |statuses|), Pct(s, |statuses|))
  }

  predicate Known(s: string) {
    s in StatusSet(Initial)
  }

  lemma {:induction false} FourCountsBound(statuses: seq<string>)
    ensures CountStatus(statuses, "present") + CountStatus(statuses, "absent")
          + CountStatus(statuses, "late") + CountStatus(statuses, "sick") <= |statuses|
    ensures CountStatus(statuses, "present") + CountStatus(statuses, "absent")
          + CountStatus(statuses, "late") + CountStatus(statuses, "sick") == |statuses|
        <==> forall i :: 0 <= i < |statuses| ==> Known(statuses[i])
  {
    if |statuses| > 0 {
      var tail := statuses[1..];
      FourCountsBound(tail);
      assert forall i :: 1 <= i < |statuses| ==> statuses[i] == tail[i - 1];
      if Known(statuses[0]) && forall i :: 0 <= i < |tail| ==> Known(tail[i]) {
        forall i | 0 <= i < |statuses| ensures Known(statuses[i]) {
          if i > 0 {
            assert Known(tail[i - 1]);
          }
        }
      }
    }
  }

  /** The four counts add up to the total exactly when every status is one of the four. */
  lemma CountsCoverTotal(statuses: seq<string>)
    ensures var r := AttendanceSummary(statuses); r.present + r.absent + r.late + r.sick <= r.total
    ensures var r := AttendanceSummary(statuses);
      r.present + r.absent + r.late + r.sick == r.total <==> forall i :: 0 <= i < |statuses| ==> Known(statuses[i])
  {
    FourCountsBound(statuses);
  }

  // ---------------------------------------------------------------------
  // renderAttendanceForm: the attendance map

  /** The student ids among the records. */
  function KeysOf<T>(records: seq<T>, key: T -> int): set<int> {
    set i | 0 <= i < |records| :: key(records[i])
  }

  /** `existing.forEach(r => map[r.student_id] = r)` */
  function BuildMap<T>(records: seq<T>, key: T -> int): (r: map<int, T>)
    ensures r.Keys == KeysOf(records, key)
  {
    if |records| == 0 then map[]
    else
      var init := records[..|records| - 1];
      var last := records[|records| - 1];
      var m := BuildMap(init, key);
      assert KeysOf(records, key) == KeysOf(init, key) + {key(last)} by {
        forall x | x in KeysOf(records, key) ensures x in KeysOf(init, key) + {key(last)} {
          var i :| 0 <= i < |records| && key(records[i]) == x;
          if i < |init| {
            assert init[i] == records[i];
          }
        }
        forall x | x in KeysOf(init, key) ensures x in KeysOf(records, key) {
          var i :| 0 <= i < |init| && key(init[i]) == x;
          assert records[i] == init[i];
        }
        assert records[|records| - 1] == last;
      }
      m[key(last) := last]
  }

  /** The map holds, for each student, the LAST record with that student id. */
  lemma {:induction false} LaterRecordWins<T>(records: seq<T>, key: T -> int, i: nat)
    requires i < |records|
    requires forall j :: i < j < |records| ==> key(records[j]) != key(records[i])
    ensures key(records[i]) in BuildMap(records, key)
    ensures BuildMap(records, key)[key(records[i])] == records[i]
  {
    var init := records[..|records| - 1];
    if i < |records| - 1 {
      forall j | i < j < |init| ensures key(init[j]) != key(init[i]) {
        assert init[j] == records[j];
      }
      assert init[i] == records[i];
      LaterRecordWins(init, key, i);
    }
  }

  // ---------------------------------------------------------------------
  // saveAttendance: the record zip

  /** `statuses[index]`: undefined past the end. */
  function At(xs: seq<string>, i: nat): (r: Option<string>)
    ensures i < |xs| <==> r.Some?
    ensures i < |xs| ==> r == Some(xs[i])
  {
    if i < |xs| then Some(xs[i]) else None
  }

  /** `studentIds.map((id, i) => ({student_id: parseInt(id), status: statuses[i], notes: notes[i]}))` */
  function ZipRecords(ids: seq<string>, statuses: seq<string>, notes: seq<string>,
                      parseInt: string -> Option<int>): (r: seq<ServerAttendance.Mark>)
    ensures |r| == |ids|
    ensures forall i :: 0 <= i < |ids| ==>
      r[i] == ServerAttendance.Mark(parseInt(ids[i]), At(statuses, i), At(notes, i))
  {
    seq(|ids|, i requires 0 <= i < |ids| => ServerAttendance.Mark(parseInt(ids[i]), At(statuses, i), At(notes, i)))
  }

  /**
   * Posting the zipped records to the replace-day endpoint stores, for the
   * i-th form row, the i-th student, status and note (an empty note as '').
   */
  lemma FormRowsReachTable(db: Db, schema: AttendanceSchema, date: string, subjectId: int, groupId: int,
                           ids: seq<string>, statuses: seq<string>, notes: seq<string>,
                           parseInt: string -> Option<int>, i: nat)
    requires date != "" && subjectId != 0 && groupId != 0
    requires |statuses| == |ids| == |notes| && i < |ids|
    requires ServerAttendance.ReplaceDay(db, schema,
               ServerAttendance.DaySubmission(Some(date), Some(subjectId), Some(groupId),
                                              Some(ZipRecords(ids, statuses, notes, parseInt)))).0.DaySaved?
    ensures var req := ServerAttendance.DaySubmission(Some(date), Some(subjectId), Some(groupId),
                                                      Some(ZipRecords(ids, statuses, notes, parseInt)));
            var after := ServerAttendance.ReplaceDay(db, schema, req).1.attendance;
            var n := |ServerAttendance.Spared(db, req)|;
            && n + i < |after|
            && after[n + i].studentId == parseInt(ids[i])
            && after[n + i].status == statuses[i]
            && after[n + i].notes == Some(notes[i])
            && after[n + i].subjectId == Some(subjectId) && after[n + i].date == date
  {
    var req := ServerAttendance.DaySubmission(Some(date), Some(subjectId), Some(groupId),
                                              Some(ZipRecords(ids, statuses, notes, parseInt)));
    ServerAttendance.ReplaceDayRows(db, schema, req);
    var n := |ServerAttendance.Spared(db, req)|;
    var after := ServerAttendance.ReplaceDay(db, schema, req).1.attendance;
    var m := req.records.value[i];
    assert m == ServerAttendance.Mark(parseInt(ids[i]), Some(statuses[i]), Some(notes[i]));
    StoredMark(after[n + i], m, subjectId, date);
  }

  /** A stored row whose columns are those of the INSERT for `m`. */
  lemma StoredMark(a: AttendanceRow, m: ServerAttendance.Mark, subjectId: int, date: string)
    requires ServerAttendance.Strip(a) == ServerAttendance.MarkRow(m, subjectId, date)
    requires m.status.Some? && m.notes.Some?
    ensures a.studentId == m.studentId && a.status == m.status.value && a.notes == m.notes
    ensures a.subjectId == Some(subjectId) && a.date == date
  {
    assert ServerAttendance.Strip(a).notes == Some(OrStr(m.notes, ""));
  }

  // ---------------------------------------------------------------------
  // renderStudentGrades: the average

  /** The grades that survive `grade && typeof grade.grade === 'number'`; None stands for the others. */
  function Numbers(grades: seq<Option<real>>): (r: seq<real>)
    ensures |r| <= |grades|
    ensures forall x :: x in r <==> Some(x) in grades
  {
    if |grades| == 0 then []
    else
      var rest := Numbers(grades[1..]);
      assert forall g :: g in grades <==> g == grades[0] || g in grades[1..];
      if grades[0].Some? then [grades[0].value] + rest else rest
  }

  function Total(xs: seq<real>): real {
    if |xs| == 0 then 0.0 else xs[0] + Total(xs[1..])
  }

  /** The shown average, before `toFixed(2)`: 0 when no grade is a number. */
  function ShownAverage(grades: seq<Option<real>>): (r: real)
    ensures |Numbers(grades)| == 0 ==> r == 0.0
    ensures |Numbers(grades)| > 0 ==> r * |Numbers(grades)| as real == Total(Numbers(grades))
  {
    var xs := Numbers(grades);
    if |xs| > 0 then Total(xs) / |xs| as real else 0.0
  }

  lemma {:induction false} TotalBounds(xs: seq<real>, lo: real, hi: real)
    requires forall i :: 0 <= i < |xs| ==> lo <= xs[i] <= hi
    ensures lo * |xs| as real <= Total(xs) <= hi * |xs| as real
  {
    if |xs| > 0 {
      TotalBounds(xs[1..], lo, hi);
      assert xs[0] in xs;
    }
  }

  /** With every numeric grade in 2..5 the average is in 2..5 as well. */
  lemma AverageOfValidGrades(grades: seq<Option<real>>)
    requires forall g :: Some(g) in grades ==> 2.0 <= g <= 5.0
    requires |Numbers(grades)| > 0
    ensures 2.0 <= ShownAverage(grades) <= 5.0
  {
    var xs := Numbers(grades);
    forall i | 0 <= i < |xs| ensures 2.0 <= xs[i] <= 5.0 {
      assert xs[i] in xs;
    }
    TotalBounds(xs, 2.0, 5.0);
    GroupStatistics.MeanBetween(Total(xs), |xs| as real, 2.0, 5.0);
  }

  // ---------------------------------------------------------------------
  // Form checks

  /** The saveGrade form: the ids are input strings, the grade is `parseInt`'s result (None for NaN). */
  datatype GradeForm = GradeForm(studentId: string, subjectId: string, grade: Option<int>, gradeType: string, date: string)

  predicate GradeFormAccepted(f: GradeForm) {
    f.studentId != "" && f.subjectId != "" && TruthyNum(f.grade) && f.gradeType != "" && f.date != ""
  }

  /** A grade field that does not parse, or parses to 0, is refused like an empty one. */
  lemma NaNGradeRefused(f: GradeForm)
    requires f.grade.None? || f.grade == Some(0)
    ensures !GradeFormAccepted(f)
  {
  }

  datatype StudentForm = StudentForm(name: string, groupId: string, card: string, email: string, phone: string)

  /** `addStudent` needs name, group and card; email and phone may be empty. */
  predicate StudentFormAccepted(f: StudentForm) {
    f.name != "" && f.groupId != "" && f.card != ""
  }

  lemma ContactsOptional(f: StudentForm)
    requires StudentFormAccepted(f)
    ensures StudentFormAccepted(f.(email := "", phone := ""))
  {
  }

  // ---------------------------------------------------------------------
  // updateNavigationForRole

  datatype Nav = Hide(ids: seq<string>) | Throws

  /**
   * `(elementsToHide[role] || []).forEach(...)`: the element ids hidden for a
   * role. An inherited key yields an object without `forEach`, which throws.
   */
  function HiddenFor(role: string): (r: Nav)
    ensures role == "student" ==> r == Hide(["studentsNavItem"])
    ensures role != "student" && role !in InheritedKeys ==> r == Hide([])
    ensures role in InheritedKeys ==> r == Throws
  {
    if role == "student" then Hide(["studentsNavItem"])
    else if role in {"teacher", "admin"} then Hide([])
    else if role in InheritedKeys then Throws
    else Hide([])
  }

  /** Of the three roles, only students lose a navigation item. */
  lemma OnlyStudentsLoseItems(r: Role)
    ensures HiddenFor(RoleName(r)).Hide?
    ensures |HiddenFor(RoleName(r)).ids| > 0 <==> r == StudentRole
  {
  }
}
