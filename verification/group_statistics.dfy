/**
 * routes/statistics.js `GET /group/:groupId`: the per-subject rows the SQL
 * aggregate returns are folded, left to right, into one overall record.
 * The SQL aggregate itself (COUNT, AVG, ROUND) is not modelled; its rows are
 * the input. `average_grade` is a real, NULL for a subject none of whose
 * rows has a grade, and JavaScript's `null * n` is 0.
 */
module GroupStatistics {
  import opened Wrappers

  datatype SubjectRow = SubjectRow(totalStudents: nat, totalGrades: nat, average: Option<real>, excellent: nat)

  datatype Overall = Overall(
    totalSubjects: nat, totalGrades: nat, weighted: real, totalWeight: nat,
    excellentStudents: nat, totalStudents: nat)

  const Start: Overall := Overall(0, 0, 0.0, 0, 0, 0)

  function Max(a: nat, b: nat): nat {
    if a >= b then a else b
  }

  /** `row.average_grade * row.total_grades` */
  function Weight(row: SubjectRow): real {
    match row.average
    case None => 0.0
    case Some(a) => a * row.totalGrades as real
  }

  /** The reducer's arrow function. */
  function Step(acc: Overall, row: SubjectRow): Overall {
    Overall(acc.totalSubjects + 1, acc.totalGrades + row.totalGrades, acc.weighted + Weight(row),
            acc.totalWeight + row.totalGrades, Max(acc.excellentStudents, row.excellent),
            Max(acc.totalStudents, row.totalStudents))
  }

  /** `rows.reduce(Step, Start)` */
  function Fold(rows: seq<SubjectRow>): Overall {
    if |rows| == 0 then Start else Step(Fold(rows[..|rows| - 1]), rows[|rows| - 1])
  }

  // Reference definitions, stated independently of the accumulator.

  function SumGrades(rows: seq<SubjectRow>): nat {
    if |rows| == 0 then 0 else rows[0].totalGrades + SumGrades(rows[1..])
  }

  /** The largest of `f` over the rows, 0 when there are none. */
  predicate IsMaxOf(m: nat, xs: seq<nat>) {
    && (forall k :: 0 <= k < |xs| ==> xs[k] <= m)
    && (m == 0 || exists k :: 0 <= k < |xs| && xs[k] == m)
  }

  function Students(rows: seq<SubjectRow>): (r: seq<nat>)
    ensures |r| == |rows| && forall k :: 0 <= k < |rows| ==> r[k] == rows[k].totalStudents
  {
    seq(|rows|, k requires 0 <= k < |rows| => rows[k].totalStudents)
  }

  function Excellent(rows: seq<SubjectRow>): (r: seq<nat>)
    ensures |r| == |rows| && forall k :: 0 <= k < |rows| ==> r[k] == rows[k].excellent
  {
    seq(|rows|, k requires 0 <= k < |rows| => rows[k].excellent)
  }

  lemma {:induction false} SumGradesSnoc(rows: seq<SubjectRow>, row: SubjectRow)
    ensures SumGrades(rows + [row]) == SumGrades(rows) + row.totalGrades
  {
    if |rows| > 0 {
      assert (rows + [row])[1..] == rows[1..] + [row];
      SumGradesSnoc(rows[1..], row);
    }
  }

  lemma MaxSnoc(m: nat, xs: seq<nat>, x: nat)
    requires IsMaxOf(m, xs)
    ensures IsMaxOf(Max(m, x), xs + [x])
  {
    var ys := xs + [x];
    if m >= x && m != 0 {
      var k :| 0 <= k < |xs| && xs[k] == m;
      assert ys[k] == m;
    } else if m < x {
      assert ys[|xs|] == x;
    }
  }

  /** The fold computes the count, the sum and the two maxima it is meant to. */
  lemma {:induction false} FoldIsSummary(rows: seq<SubjectRow>)
    ensures Fold(rows).totalSubjects == |rows|
    ensures Fold(rows).totalGrades == SumGrades(rows) == Fold(rows).totalWeight
    ensures IsMaxOf(Fold(rows).totalStudents, Students(rows))
    ensures IsMaxOf(Fold(rows).excellentStudents, Excellent(rows))
  {
    if |rows| > 0 {
      var init := rows[..|rows| - 1];
      var last := rows[|rows| - 1];
      assert rows == init + [last];
      FoldIsSummary(init);
      SumGradesSnoc(init, last);
      assert Students(rows) == Students(init) + [last.totalStudents];
      assert Excellent(rows) == Excellent(init) + [last.excellent];
      MaxSnoc(Fold(init).totalStudents, Students(init), last.totalStudents);
      MaxSnoc(Fold(init).excellentStudents, Excellent(init), last.excellent);
    }
  }

  /** `totalWeight > 0 ? weightedAverage / totalWeight : 0`, before rounding. */
  function OverallAverage(o: Overall): (r: real)
    ensures o.totalWeight == 0 ==> r == 0.0
    ensures o.totalWeight > 0 ==> r * o.totalWeight as real == o.weighted
  {
    if o.totalWeight > 0 then o.weighted / o.totalWeight as real else 0.0
  }

  /**
   * What the grades table allows of a subject row: the grade column is NULL or
   * in 2..5, so AVG over the non-NULL grades is NULL or in 2..5. COUNT(g.id)
   * also counts rows whose grade is NULL (credits), so a subject whose rows all
   * lack a grade has a NULL average and a positive count.
   */
  predicate Plausible(row: SubjectRow) {
    row.average.None? || 2.0 <= row.average.value <= 5.0
  }

  /** A subject with grade rows has at least one non-NULL grade among them. */
  predicate Graded(row: SubjectRow) {
    row.average.Some? || row.totalGrades == 0
  }

  predicate AllGraded(rows: seq<SubjectRow>) {
    forall k :: 0 <= k < |rows| ==> Graded(rows[k])
  }

  lemma WeightBounds(row: SubjectRow)
    requires Plausible(row)
    ensures 0.0 <= Weight(row) <= 5.0 * row.totalGrades as real
    ensures Graded(row) ==> 2.0 * row.totalGrades as real <= Weight(row)
  {
    if row.average.Some? {
      var a := row.average.value;
      var g := row.totalGrades as real;
      assert (a - 2.0) * g >= 0.0;
      assert (5.0 - a) * g >= 0.0;
    }
  }

  lemma {:induction false} FoldWeightBounds(rows: seq<SubjectRow>)
    requires forall k :: 0 <= k < |rows| ==> Plausible(rows[k])
    ensures 0.0 <= Fold(rows).weighted <= 5.0 * Fold(rows).totalWeight as real
    ensures AllGraded(rows) ==> 2.0 * Fold(rows).totalWeight as real <= Fold(rows).weighted
  {
    if |rows| > 0 {
      FoldWeightBounds(rows[..|rows| - 1]);
      WeightBounds(rows[|rows| - 1]);
    }
  }

  /** A total of `t` values each in lo..hi has its mean in lo..hi. */
  lemma MeanBetween(w: real, t: real, lo: real, hi: real)
    requires t > 0.0 && lo * t <= w <= hi * t
    ensures lo <= w / t <= hi
  {
    var q := w / t;
    assert q * t == w;
    assert lo <= q by {
      if q < lo {
        ScaleBelow(q, lo, t);
      }
    }
    assert q <= hi by {
      if q > hi {
        ScaleBelow(hi, q, t);
      }
    }
  }

  lemma ScaleBelow(a: real, b: real, t: real)
    requires a < b && t > 0.0
    ensures a * t < b * t
  {
    assert (b - a) * t > 0.0;
  }

  /**
   * The overall average is 0 without grade rows and otherwise lies in 0..5; it
   * reaches 2..5 when no subject's rows are all without a grade.
   */
  lemma AverageInRange(rows: seq<SubjectRow>)
    requires forall k :: 0 <= k < |rows| ==> Plausible(rows[k])
    ensures SumGrades(rows) == 0 ==> OverallAverage(Fold(rows)) == 0.0
    ensures SumGrades(rows) > 0 ==> 0.0 <= OverallAverage(Fold(rows)) <= 5.0
    ensures SumGrades(rows) > 0 && AllGraded(rows) ==> 2.0 <= OverallAverage(Fold(rows)) <= 5.0
  {
    WeightIsSum(rows);
    FoldWeightBounds(rows);
    var o := Fold(rows);
    if o.totalWeight > 0 {
      assert 0.0 * o.totalWeight as real == 0.0;
      AverageBetween(o, 0.0, 5.0);
      if AllGraded(rows) {
        AverageBetween(o, 2.0, 5.0);
      }
    }
  }

  lemma WeightIsSum(rows: seq<SubjectRow>)
    ensures Fold(rows).totalWeight == SumGrades(rows)
  {
    FoldIsSummary(rows);
  }

  lemma AverageBetween(o: Overall, lo: real, hi: real)
    requires o.totalWeight > 0
    requires lo * o.totalWeight as real <= o.weighted <= hi * o.totalWeight as real
    ensures lo <= OverallAverage(o) <= hi
  {
    MeanBetween(o.weighted, o.totalWeight as real, lo, hi);
  }

  /**
   * A subject with one grade of 5 next to a subject with ten credit rows and
   * no grade: the credit rows enter the weight but not the weighted sum, so
   * the overall average is 5/11, below every grade.
   */
  lemma UngradedRowsDragAverage()
    ensures var rows := [SubjectRow(1, 1, Some(5.0), 1), SubjectRow(1, 10, None, 0)];
            && (forall k :: 0 <= k < |rows| ==> Plausible(rows[k]))
            && OverallAverage(Fold(rows)) == 5.0 / 11.0 < 2.0
  {
    var rows := [SubjectRow(1, 1, Some(5.0), 1), SubjectRow(1, 10, None, 0)];
    assert rows[..1] == [rows[0]];
    assert rows[..0] == [];
    assert Fold(rows).weighted == 5.0 && Fold(rows).totalWeight == 11;
  }
}
