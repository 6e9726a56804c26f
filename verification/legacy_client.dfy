/**
 * The helpers of the older client script (public/app.js): the grade-type
 * label, the colour and status a grade is shown with, the date fallback and
 * the excellent/good counts. A grade value is a JavaScript number or null;
 * `null >= 4` is false and `null === 3` is false.
 */
module LegacyClient {
  import opened Wrappers
  import opened Js

  const TypeLabels: map<string, string> := map[
    "exam" := "Экзамен", "test" := "Зачёт", "coursework" := "Курсовая", "practice" := "Практика"]

  const Unspecified: string := "Не указан"

  /** `types[type] || type || 'Не указан'`, with None for undefined or null. */
  function GradeTypeText(t: Option<string>): (r: Value)
    ensures t.Some? && t.value in TypeLabels ==> r == Str(TypeLabels[t.value])
    ensures TruthyStr(t) && t.value !in TypeLabels && t.value !in InheritedKeys ==> r == Str(t.value)
    ensures !TruthyStr(t) ==> r == Str(Unspecified)
    ensures r.Str? ==> r.s != ""
  {
    var v := if t.Some? then Lookup(TypeLabels, t.value) else Undefined;
    if Truthy(v) then v else if TruthyStr(t) then Str(t.value) else Str(Unspecified)
  }

  /** The label is never empty: a missing type reads 'Не указан' rather than nothing. */
  lemma NeverBlank(t: Option<string>)
    ensures GradeTypeText(t).Str? ==> GradeTypeText(t).s != ""
    ensures GradeTypeText(t) == Str(Unspecified) <==> !TruthyStr(t) || t.value == Unspecified
  {
  }

  /** `getGradeColor`: >= 4 success, exactly 3 warning, anything else danger. */
  function GradeColor(grade: Option<real>): (r: string)
    ensures r == "success" <==> grade.Some? && grade.value >= 4.0
    ensures r == "warning" <==> grade == Some(3.0)
    ensures r == "danger" <==> !(grade.Some? && (grade.value >= 4.0 || grade.value == 3.0))
  {
    if grade.Some? && grade.value >= 4.0 then "success"
    else if grade == Some(3.0) then "warning"
    else "danger"
  }

  /** `getGradeStatus`: the same thresholds with a label and a badge. */
  function GradeStatus(grade: Option<real>): (r: (string, string))
    ensures r.1 == "Сдано" <==> grade.Some? && grade.value >= 4.0
    ensures r.1 == "Удовлетворительно" <==> grade == Some(3.0)
    ensures r.1 == "Не сдано" <==> !(grade.Some? && (grade.value >= 4.0 || grade.value == 3.0))
  {
    if grade.Some? && grade.value >= 4.0 then ("bg-success", "Сдано")
    else if grade == Some(3.0) then ("bg-warning", "Удовлетворительно")
    else ("bg-danger", "Не сдано")
  }

  /** The status badge always has the colour `getGradeColor` picks. */
  lemma StatusMatchesColor(grade: Option<real>)
    ensures GradeStatus(grade).0 == "bg-" + GradeColor(grade)
  {
  }

  /** Strict equality leaves a fractional grade between 3 and 4 with the failing colour. */
  lemma ThreeAndAHalfIsDanger()
    ensures GradeColor(Some(3.5)) == "danger"
    ensures GradeColor(Some(3.0)) == "warning"
  {
  }

  /** `formatDate`: '' for a falsy input, otherwise the locale rendering (a parameter). */
  function FormatDate(d: Option<string>, render: string -> string): (r: string)
    ensures !TruthyStr(d) ==> r == ""
    ensures TruthyStr(d) ==> r == render(d.value)
  {
    if TruthyStr(d) then render(d.value) else ""
  }

  /** `grades.filter(g => g.grade === v).length` */
  function CountGrade(grades: seq<Option<int>>, v: int): (r: nat)
    ensures r <= |grades|
    ensures r == multiset(grades)[Some(v)]
  {
    if |grades| == 0 then 0
    else
      assert grades == [grades[0]] + grades[1..];
      (if grades[0] == Some(v) then 1 else 0) + CountGrade(grades[1..], v)
  }

  /** The excellent and good tiles count disjoint grades, so together they never exceed the list. */
  lemma {:induction false} ExcellentAndGoodFit(grades: seq<Option<int>>)
    ensures CountGrade(grades, 5) + CountGrade(grades, 4) <= |grades|
  {
    if |grades| > 0 {
      ExcellentAndGoodFit(grades[1..]);
    }
  }
}
