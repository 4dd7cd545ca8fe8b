/**
 * The student's academic risk label: average attendance over all of the
 * student's enrollments, and the average grade point and number of F grades
 * over the student's published results, classified by fixed thresholds.
 */
module Risk {
  import opened Wrappers
  import opened Seqs
  import opened Attendance
  import opened Rows

  datatype RiskLevel = Low | Medium | High

  /** Low < Medium < High. */
  function Severity(l: RiskLevel): nat {
    match l
    case Low => 0
    case Medium => 1
    case High => 2
  }

  /**
   * High when attendance is under 75%, the average grade point under 2.5 or
   * there are two or more F grades; otherwise Medium when attendance is under
   * 85%, the average under 3.0 or there is exactly one F; otherwise Low.
   * Low needs every measure on the safe side of the Medium threshold; Medium is
   * the band between the two sets of thresholds.
   */
  function Classify(avgAtt: real, avgGp: real, fCount: nat): (l: RiskLevel)
    ensures l == Low <==> avgAtt >= 85.0 && avgGp >= 3.0 && fCount == 0
    ensures l == Medium <==>
              75.0 <= avgAtt && 2.5 <= avgGp && fCount <= 1
              && (avgAtt < 85.0 || avgGp < 3.0 || fCount == 1)
  {
    if avgAtt < 75.0 || avgGp < 2.5 || fCount >= 2 then High
    else if avgAtt < 85.0 || avgGp < 3.0 || fCount == 1 then Medium
    else Low
  }

  /** Less attendance, a lower average or more F grades never lowers the label. */
  lemma ClassifyMonotone(att1: real, gp1: real, f1: nat, att2: real, gp2: real, f2: nat)
    requires att2 <= att1 && gp2 <= gp1 && f1 <= f2
    ensures Severity(Classify(att1, gp1, f1)) <= Severity(Classify(att2, gp2, f2))
  {
  }

  /** The worked cases: weak attendance alone is High; a 2.8 average alone is Medium. */
  lemma ClassifyExamples()
    ensures Classify(70.0, 3.5, 0) == High
    ensures Classify(90.0, 2.8, 0) == Medium
    ensures Classify(95.0, 3.8, 0) == Low
    ensures Classify(95.0, 3.8, 1) == Medium && Classify(95.0, 3.8, 2) == High
    ensures Classify(75.0, 2.5, 0) == Medium && Classify(85.0, 3.0, 0) == Low
  {
  }

  /** An attendance row joined with the student of its enrollment. */
  datatype AttendanceEntry = AttendanceEntry(studentId: int, enrollId: int, counts: AttendanceRow)

  function EntryPercent(e: AttendanceEntry): real {
    Percent(e.counts)
  }

  function OfStudent(s: int): AttendanceEntry -> bool {
    (e: AttendanceEntry) => e.studentId == s
  }

  /** The student's attendance rows, published results or not. */
  function AttendanceOf(att: seq<AttendanceEntry>, s: int): (es: seq<AttendanceEntry>)
    ensures forall e :: e in es <==> e in att && e.studentId == s
  {
    Filter(att, OfStudent(s))
  }

  /**
   * AVG of the per-enrollment percentages, a row with no classes held counting
   * as 0; 0 when the student has no attendance rows. Stored rows are well
   * formed, so the average is a percentage.
   */
  function AverageAttendance(att: seq<AttendanceEntry>, s: int): (a: real)
    ensures AttendanceOf(att, s) == [] ==> a == 0.0
    ensures (forall e :: e in att ==> WellFormed(e.counts)) ==> 0.0 <= a <= 100.0
  {
    var es := AttendanceOf(att, s);
    if |es| == 0 then 0.0
    else
      var avg := SumOf(es, EntryPercent) / |es| as real;
      assert (forall e :: e in att ==> WellFormed(e.counts)) ==> 0.0 <= avg <= 100.0 by {
        if forall e :: e in att ==> WellFormed(e.counts) {
          var zero: AttendanceEntry -> real := e => 0.0;
          var full: AttendanceEntry -> real := e => 100.0;
          SumOfMono(es, zero, EntryPercent);
          SumOfMono(es, EntryPercent, full);
          SumOfConst(es, zero, 0.0);
          SumOfConst(es, full, 100.0);
          DivBounds(SumOf(es, EntryPercent), |es| as real, 0.0, 100.0);
        }
      }
      avg
  }

  /**
   * A course with no classes held pulls the average down: 10 of 10 and 0 of
   * 0 average to 50, not 100.
   */
  lemma {:induction false} ZeroClassRowCounts()
    ensures var att := [AttendanceEntry(3, 1, AttendanceRow(10, 10)), AttendanceEntry(3, 2, AttendanceRow(0, 0))];
            AverageAttendance(att, 3) == 50.0
  {
    var e1 := AttendanceEntry(3, 1, AttendanceRow(10, 10));
    var e2 := AttendanceEntry(3, 2, AttendanceRow(0, 0));
    var att := [e1, e2];
    assert att[1..] == [e2] && [e2][1..] == [];
    assert Filter([e2], OfStudent(3)) == [e2];
    assert AttendanceOf(att, 3) == att;
    assert SumOf([e2], EntryPercent) == 0.0;
    assert SumOf(att, EntryPercent) == 100.0;
  }

  /** What the risk request answers. */
  datatype RiskReport =
    | Unknown
    | Report(level: RiskLevel, avgAttendance: real, avgGp: real, fCount: nat)

  /**
   * student_risk_status for the logged-in user: Unknown when the user has no
   * student record; otherwise the three measures and their classification.
   */
  function StudentRisk(student: Option<int>, att: seq<AttendanceEntry>, rows: seq<Row>): (r: RiskReport)
    ensures student.None? <==> r.Unknown?
  {
    match student
    case None => Unknown
    case Some(s) =>
      var avgAtt := AverageAttendance(att, s);
      var published := PublishedFor(rows, s);
      var avgGp := Mean(published, GradePointOf);
      var fCount := FailCount(published);
      Report(Classify(avgAtt, avgGp, fCount), avgAtt, avgGp, fCount)
  }

  /** With no published result the average grade point reads as 0, so the label is High. */
  lemma NoPublishedResultsIsHigh(att: seq<AttendanceEntry>, rows: seq<Row>, s: int)
    requires forall r :: r in rows ==> !(r.published && r.studentId == s)
    ensures StudentRisk(Some(s), att, rows) == Report(High, AverageAttendance(att, s), 0.0, 0)
  {
    FilterNone(rows, PublishedOf(s));
  }

  /** Two F grades among the published results make the label High whatever the rest. */
  lemma TwoFailsIsHigh(att: seq<AttendanceEntry>, rows: seq<Row>, s: int)
    requires FailCount(PublishedFor(rows, s)) >= 2
    ensures StudentRisk(Some(s), att, rows).level == High
  {
  }

  /** Drafts and other students' results do not change the student's report. */
  lemma RiskIgnoresInvisibleRows(att: seq<AttendanceEntry>, rows: seq<Row>, extra: Row, s: int)
    requires !extra.published || extra.studentId != s
    ensures StudentRisk(Some(s), att, rows + [extra]) == StudentRisk(Some(s), att, rows)
  {
    PublishedForIgnores(rows, extra, s);
  }

  /** Attendance counts for every enrollment, even a course whose result is still a draft. */
  lemma {:induction false} AttendanceCountsDraftCourses(att: seq<AttendanceEntry>, e: AttendanceEntry)
    ensures AttendanceOf(att + [e], e.studentId) == AttendanceOf(att, e.studentId) + [e]
  {
    FilterAppend(att, [e], OfStudent(e.studentId));
    assert [e][1..] == [];
  }
}
