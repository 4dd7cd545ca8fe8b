/**
 * A student's grade point averages over published results: the
 * credit-weighted per-semester GPA and CGPA, and the unweighted per-semester
 * trend, with semesters ordered by (year, semester_id).
 */
module Gpa {
  import opened GradeScale
  import opened Seqs
  import opened Ranking
  import opened Rows

  /**
   * SUM(gp * credit) / NULLIF(SUM(credit), 0), read back with `or 0`:
   * 0 when there are no rows or the credits sum to 0.
   */
  function WeightedGpa(rs: seq<Row>): (g: real)
    ensures SumOf(rs, CreditOf) == 0.0 ==> g == 0.0
  {
    var credits := SumOf(rs, CreditOf);
    if credits == 0.0 then 0.0 else SumOf(rs, WeightedPointOf) / credits
  }

  /** CGPA over all of the student's published results, not over semester summaries. */
  function CumulativeGpa(rows: seq<Row>, s: int): (g: real)
    ensures TotalCredits(rows, s) == 0.0 ==> g == 0.0
    ensures Graded(rows) ==> 0.0 <= g <= 4.0
  {
    var p := PublishedFor(rows, s);
    assert Graded(rows) ==> 0.0 <= WeightedGpa(p) <= 4.0 by {
      if Graded(rows) {
        WeightedGpaBounds(p);
      }
    }
    WeightedGpa(p)
  }

  /** The credits of the student's published results. */
  function TotalCredits(rows: seq<Row>, s: int): (c: real)
    ensures Graded(rows) ==> c >= 0.0
  {
    var p := PublishedFor(rows, s);
    assert Graded(rows) ==> SumOf(p, CreditOf) >= 0.0 by {
      if Graded(rows) {
        WeightedSumBounds(p);
      }
    }
    SumOf(p, CreditOf)
  }

  function InSemester(sem: int): Row -> bool {
    (r: Row) => r.semesterId == sem
  }

  /** The student's published rows of one semester. */
  function SemesterRows(rows: seq<Row>, s: int, sem: int): (rs: seq<Row>)
    ensures forall r :: r in rs <==> r in rows && r.published && r.studentId == s && r.semesterId == sem
  {
    Filter(PublishedFor(rows, s), InSemester(sem))
  }

  /** The credit-weighted GPA of one semester. */
  function SemesterGpa(rows: seq<Row>, s: int, sem: int): (g: real)
    ensures SemesterCredits(rows, s, sem) == 0.0 ==> g == 0.0
    ensures Graded(rows) ==> 0.0 <= g <= 4.0
  {
    var rs := SemesterRows(rows, s, sem);
    assert Graded(rows) ==> 0.0 <= WeightedGpa(rs) <= 4.0 by {
      if Graded(rows) {
        WeightedGpaBounds(rs);
      }
    }
    WeightedGpa(rs)
  }

  /** The credits of one semester's published results. */
  function SemesterCredits(rows: seq<Row>, s: int, sem: int): (c: real)
    ensures Graded(rows) ==> c >= 0.0
  {
    var rs := SemesterRows(rows, s, sem);
    assert Graded(rows) ==> SumOf(rs, CreditOf) >= 0.0 by {
      if Graded(rows) {
        WeightedSumBounds(rs);
      }
    }
    SumOf(rs, CreditOf)
  }

  /** The year of a semester, as carried by its first row (0 if it has none). */
  function YearOf(rs: seq<Row>, sem: int): int {
    if rs == [] then 0 else if rs[0].semesterId == sem then rs[0].year else YearOf(rs[1..], sem)
  }

  /** ORDER BY sem.year, sem.semester_id */
  function SemesterKey(rs: seq<Row>): int -> Key {
    (sem: int) => Key(YearOf(rs, sem) as real, sem as real)
  }

  /**
   * The student's semesters with a published result (GROUP BY semester_id),
   * each once, ordered by (year, semester_id).
   */
  function SemesterOrder(rows: seq<Row>, s: int): (o: seq<int>)
    ensures NoDuplicates(o)
    ensures SortedBy(o, SemesterKey(PublishedFor(rows, s)))
  {
    var p := PublishedFor(rows, s);
    var ids := Distinct(MapSeq(p, SemesterIdOf));
    var o := SortBy(ids, SemesterKey(p));
    PermutationNoDuplicates(ids, o);
    o
  }

  datatype SemesterSummary = SemesterSummary(semesterId: int, gpa: real, credits: real)

  /**
   * The semesters list of student_cgpa: one summary per semester, in semester
   * order, each with a GPA in [0, 4] and non-negative credits.
   */
  function Transcript(rows: seq<Row>, s: int): (t: seq<SemesterSummary>)
    ensures |t| == |SemesterOrder(rows, s)|
    ensures forall i :: 0 <= i < |t| ==> t[i].semesterId == SemesterOrder(rows, s)[i]
    ensures Graded(rows) ==> forall i :: 0 <= i < |t| ==> 0.0 <= t[i].gpa <= 4.0 && t[i].credits >= 0.0
  {
    MapSeq(SemesterOrder(rows, s), sem => SemesterSummary(sem, SemesterGpa(rows, s, sem), SemesterCredits(rows, s, sem)))
  }

  datatype TrendPoint = TrendPoint(semesterId: int, gpa: real)

  /**
   * student_gpa_trend: the plain AVG(grade_point) of each semester, not
   * credit-weighted, over the same semesters in the same order as the
   * transcript; each value lies in [0, 4].
   */
  function Trend(rows: seq<Row>, s: int): (t: seq<TrendPoint>)
    ensures |t| == |SemesterOrder(rows, s)|
    ensures forall i :: 0 <= i < |t| ==> t[i].semesterId == SemesterOrder(rows, s)[i]
    ensures Graded(rows) ==> forall i :: 0 <= i < |t| ==> 0.0 <= t[i].gpa <= 4.0
  {
    assert Graded(rows) ==> forall sem :: 0.0 <= Mean(SemesterRows(rows, s, sem), GradePointOf) <= 4.0 by {
      if Graded(rows) {
        forall sem ensures 0.0 <= Mean(SemesterRows(rows, s, sem), GradePointOf) <= 4.0 {
          var rs := SemesterRows(rows, s, sem);
          if rs != [] {
            MeanBounds(rs, GradePointOf, 0.0, 4.0);
          }
        }
      }
    }
    MapSeq(SemesterOrder(rows, s), sem => TrendPoint(sem, Mean(SemesterRows(rows, s, sem), GradePointOf)))
  }

  lemma RowPointsBound(r: Row)
    requires 0.0 <= r.gradePoint <= 4.0 && r.credit >= 0.0
    ensures 0.0 <= WeightedPointOf(r) <= 4.0 * CreditOf(r)
  {
    assert (4.0 - r.gradePoint) * r.credit >= 0.0;
  }

  /** Each course adds between 0 and 4 points per credit. */
  lemma {:induction false} WeightedSumBounds(rs: seq<Row>)
    requires forall r :: r in rs ==> 0.0 <= r.gradePoint <= 4.0 && r.credit >= 0.0
    ensures 0.0 <= SumOf(rs, CreditOf)
    ensures 0.0 <= SumOf(rs, WeightedPointOf) <= 4.0 * SumOf(rs, CreditOf)
  {
    if rs != [] {
      assert rs[0] in rs;
      RowPointsBound(rs[0]);
      WeightedSumBounds(rs[1..]);
    }
  }

  /** With grade points in [0, 4] and non-negative credits, a weighted GPA is in [0, 4]. */
  lemma WeightedGpaBounds(rs: seq<Row>)
    requires forall r :: r in rs ==> 0.0 <= r.gradePoint <= 4.0 && r.credit >= 0.0
    ensures 0.0 <= WeightedGpa(rs) <= 4.0
  {
    WeightedSumBounds(rs);
    var c := SumOf(rs, CreditOf);
    if c != 0.0 {
      assert c > 0.0;
      DivBounds(SumOf(rs, WeightedPointOf), c, 0.0, 4.0);
    }
  }

  /** Drafts and other students' rows do not move the CGPA, transcript or trend. */
  lemma AggregatesIgnoreInvisibleRows(rows: seq<Row>, extra: Row, s: int)
    requires !extra.published || extra.studentId != s
    ensures CumulativeGpa(rows + [extra], s) == CumulativeGpa(rows, s)
    ensures TotalCredits(rows + [extra], s) == TotalCredits(rows, s)
    ensures Transcript(rows + [extra], s) == Transcript(rows, s)
    ensures Trend(rows + [extra], s) == Trend(rows, s)
  {
    PublishedForIgnores(rows, extra, s);
  }

  /** When every course of a semester carries the same positive credit, the trend value equals the weighted GPA. */
  lemma {:induction false} EqualCreditsTrendAgrees(rs: seq<Row>, c: real)
    requires rs != [] && c > 0.0
    requires forall r :: r in rs ==> r.credit == c
    ensures WeightedGpa(rs) == Mean(rs, GradePointOf)
  {
    SumOfScale(rs, GradePointOf, WeightedPointOf, c);
    SumOfConst(rs, CreditOf, c);
    var n := |rs| as real;
    var g := SumOf(rs, GradePointOf);
    var q := g / n;
    assert g == q * n;
    assert c * g == q * (n * c);
    assert n * c > 0.0;
  }

  /**
   * CGPA weights every course by its credit over all semesters: credits 3 and
   * 4 with grade points 4.0 and 2.0 in two semesters give 20/7, not the 3.0
   * mean of the two semester GPAs. The unweighted trend of a semester with
   * credits 3 and 1 and grade points 4.0 and 2.0 is 3.0 where its GPA is 3.5.
   */
  lemma {:induction false} WeightingExamples()
    ensures var r1 := Row(1, 7, 10, 1, 2024, 3.0, 85.0, APlus, 4.00, true);
            var r2 := Row(2, 7, 11, 2, 2024, 4.0, 42.0, D, 2.00, true);
            CumulativeGpa([r1, r2], 7) == 20.0 / 7.0
            && SemesterGpa([r1, r2], 7, 1) == 4.0 && SemesterGpa([r1, r2], 7, 2) == 2.0
    ensures var r1 := Row(1, 7, 10, 1, 2024, 3.0, 85.0, APlus, 4.00, true);
            var r2 := Row(2, 7, 11, 1, 2024, 1.0, 42.0, D, 2.00, true);
            SemesterGpa([r1, r2], 7, 1) == 3.5 && Mean(SemesterRows([r1, r2], 7, 1), GradePointOf) == 3.0
  {
    var r1 := Row(1, 7, 10, 1, 2024, 3.0, 85.0, APlus, 4.00, true);
    var r2 := Row(2, 7, 11, 2, 2024, 4.0, 42.0, D, 2.00, true);
    var r3 := Row(2, 7, 11, 1, 2024, 1.0, 42.0, D, 2.00, true);
    var p := [r1, r2];
    var q := [r1, r3];
    assert p[1..] == [r2] && q[1..] == [r3];
    assert [r1][1..] == [] && [r2][1..] == [] && [r3][1..] == [];
    assert Filter([r2], PublishedOf(7)) == [r2];
    assert PublishedFor(p, 7) == p;
    assert Filter([r3], PublishedOf(7)) == [r3];
    assert PublishedFor(q, 7) == q;
    assert SumOf([r2], CreditOf) == 4.0;
    assert SumOf(p, CreditOf) == 7.0;
    assert SumOf([r2], WeightedPointOf) == 8.0;
    assert SumOf(p, WeightedPointOf) == 20.0;
    assert Filter([r2], InSemester(1)) == [];
    assert SemesterRows(p, 7, 1) == [r1];
    assert Filter([r2], InSemester(2)) == [r2];
    assert Filter(p, InSemester(2)) == [r2];
    assert SemesterRows(p, 7, 2) == [r2];
    assert Filter([r3], InSemester(1)) == [r3];
    assert SemesterRows(q, 7, 1) == q;
    assert SumOf([r3], CreditOf) == 1.0;
    assert SumOf(q, CreditOf) == 4.0;
    assert SumOf([r3], WeightedPointOf) == 2.0;
    assert SumOf(q, WeightedPointOf) == 14.0;
    assert SumOf([r3], GradePointOf) == 2.0;
    assert SumOf(q, GradePointOf) == 6.0;
  }

  /**
   * The semesters listed (by the transcript and the trend alike) are exactly
   * those with a published result of the student.
   */
  lemma SemesterOrderShape(rows: seq<Row>, s: int)
    ensures forall sem :: sem in SemesterOrder(rows, s) <==> exists r :: r in PublishedFor(rows, s) && r.semesterId == sem
  {
    var p := PublishedFor(rows, s);
    var ids := Distinct(MapSeq(p, SemesterIdOf));
    var order := SemesterOrder(rows, s);
    forall sem ensures sem in order <==> exists r :: r in p && r.semesterId == sem {
      SortByMembers(ids, SemesterKey(p), sem);
      if exists r :: r in p && r.semesterId == sem {
        var r :| r in p && r.semesterId == sem;
        var k :| 0 <= k < |p| && p[k] == r;
        assert MapSeq(p, SemesterIdOf)[k] == sem;
      }
      if sem in order {
        var k :| 0 <= k < |p| && MapSeq(p, SemesterIdOf)[k] == sem;
        assert p[k] in p;
      }
    }
  }
}
