/**
 * The link between the tables the request handlers keep and the joined rows
 * the read-only views take: a joined row repeats the stored result of its
 * enrollment, and an attendance entry repeats its enrollment's stored counts.
 * The invariants the handlers keep then give the views their bounds.
 */
module Join {
  import opened GradeScale
  import opened Results
  import opened Attendance
  import opened Rows
  import opened Risk
  import opened Gpa
  import opened Analytics

  /** Every joined row carries the percent, grade and flag stored for its enrollment. */
  ghost predicate RowsFrom(rows: seq<Row>, t: ResultTable) {
    forall r :: r in rows ==>
      r.enrollId in t
      && r.totalPercent == t[r.enrollId].totalPercent
      && r.letter == t[r.enrollId].letter
      && r.gradePoint == t[r.enrollId].gradePoint
      && r.published == t[r.enrollId].published
  }

  /** Every attendance entry carries the counts stored for its enrollment. */
  ghost predicate EntriesFrom(att: seq<AttendanceEntry>, t: AttendanceTable) {
    forall e :: e in att ==> e.enrollId in t && e.counts == t[e.enrollId]
  }

  /** Rows drawn from a consistent results table carry grade points from the scale. */
  lemma GradedFromTable(rows: seq<Row>, t: ResultTable)
    requires GradesConsistent(t) && RowsFrom(rows, t)
    requires forall r :: r in rows ==> r.credit >= 0.0
    ensures Graded(rows)
  {
    forall r | r in rows ensures r.gradePoint == CalcGrade(r.totalPercent).point {
      assert Grade(t[r.enrollId].letter, t[r.enrollId].gradePoint) == CalcGrade(t[r.enrollId].totalPercent);
    }
  }

  /**
   * Over tables that keep the handlers' invariants, the CGPA, every transcript
   * GPA and the average attendance are in range, and every result on the
   * admin drafts list is one of the drafts of the results table.
   */
  lemma ViewsOfConsistentTables(results: ResultTable, attendance: AttendanceTable,
                                rows: seq<Row>, att: seq<AttendanceEntry>, s: int)
    requires GradesConsistent(results) && AllWellFormed(attendance)
    requires RowsFrom(rows, results) && EntriesFrom(att, attendance)
    requires forall r :: r in rows ==> r.credit >= 0.0
    ensures 0.0 <= CumulativeGpa(rows, s) <= 4.0
    ensures forall i :: 0 <= i < |Transcript(rows, s)| ==> 0.0 <= Transcript(rows, s)[i].gpa <= 4.0
    ensures 0.0 <= AverageAttendance(att, s) <= 100.0
    ensures forall d :: d in DraftList(rows) ==> d.enrollId in Drafts(results)
  {
    GradedFromTable(rows, results);
  }
}
