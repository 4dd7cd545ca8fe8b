/**
 * The stored state the teacher and admin requests change: the marks, results
 * and attendance tables. Each request is one atomic step on this object.
 */
module Gradebook {
  import opened GradeScale
  import opened Sums
  import opened Marks
  import opened Results
  import opened Attendance

  /** What the publish request answers, whether or not the id matched a row. */
  datatype PublishMessage = Published | Unpublished

  /**
   * The total-percent loop of teacher_submit_marks: visit the course's
   * components in whatever order the dictionary yields them and add
   * (stored / max) * weight, a missing mark counting as 0 and max <= 0 adding 0.
   */
  method SumContributions(m: MarkTable, enroll: int, comps: map<int, Component>) returns (total: real)
    ensures total == TotalPercent(m, enroll, comps)
  {
    total := 0.0;
    var remaining := comps.Keys;
    while remaining != {}
      invariant remaining <= comps.Keys
      invariant total + PartialTotal(m, enroll, comps, remaining) == TotalPercent(m, enroll, comps)
      decreases remaining
    {
      HasMember(remaining);
      var c :| c in remaining;
      var mx := comps[c].maxMarks;
      var w := comps[c].weight;
      var obtained := if (enroll, c) in m then m[(enroll, c)] else 0.0;
      PartialTotalRemove(m, enroll, comps, remaining, c);
      total := total + (if mx > 0.0 then (obtained / mx) * w else 0.0);
      remaining := remaining - {c};
    }
    assert PartialTotal(m, enroll, comps, {}) == 0.0;
  }

  class Gradebook {
    var marks: MarkTable
    var results: ResultTable
    var attendance: AttendanceTable
    /** The results table's next auto-increment result_id. */
    var nextResultId: int

    ghost predicate Valid()
      reads this
    {
      GradesConsistent(results) && IdsUnique(results) && IdsBelow(results, nextResultId)
      && AllWellFormed(attendance)
    }

    constructor ()
      ensures Valid()
      ensures marks == map[] && results == map[] && attendance == map[]
    {
      marks := map[];
      results := map[];
      attendance := map[];
      nextResultId := 1;
    }

    /**
     * teacher_submit_marks: upsert each item of a known component, clamped to
     * [0, max]; sum the contributions of ALL the course's components from the
     * stored marks; then upsert the result row as a draft, leaving an existing
     * row's is_published flag as it was.
     */
    method SubmitMarks(enroll: int, rows: seq<ComponentRow>, items: seq<Item>)
      returns (totalPercent: real, letter: Letter, gradePoint: real)
      requires Valid()
      modifies this
      ensures Valid()
      ensures marks == ApplyItems(old(marks), enroll, CompMap(rows), items)
      ensures totalPercent == TotalPercent(marks, enroll, CompMap(rows))
      ensures Grade(letter, gradePoint) == CalcGrade(totalPercent)
      ensures results == UpsertResult(old(results), enroll, totalPercent, old(nextResultId))
      ensures nextResultId == if enroll in old(results) then old(nextResultId) else old(nextResultId) + 1
      ensures attendance == old(attendance)
    {
      var comps := CompMap(rows);

      var i := 0;
      while i < |items|
        invariant 0 <= i <= |items|
        invariant marks == ApplyItems(old(marks), enroll, comps, items[..i])
        invariant results == old(results) && attendance == old(attendance) && nextResultId == old(nextResultId)
      {
        var it := items[i];
        if it.compId in comps {
          var mx := comps[it.compId].maxMarks;
          var obtained := if it.obtained < mx then it.obtained else mx;
          obtained := if 0.0 > obtained then 0.0 else obtained;
          marks := marks[(enroll, it.compId) := obtained];
        }
        assert items[..i + 1][..i] == items[..i];
        i := i + 1;
      }
      assert items[..|items|] == items;

      totalPercent := SumContributions(marks, enroll, comps);

      var g := CalcGrade(totalPercent);
      letter, gradePoint := g.letter, g.point;
      if enroll in results {
        results := results[enroll := results[enroll].(totalPercent := totalPercent, letter := letter, gradePoint := gradePoint)];
      } else {
        results := results[enroll := ResultRow(nextResultId, totalPercent, letter, gradePoint, false)];
        nextResultId := nextResultId + 1;
      }
      assert results == UpsertResult(old(results), enroll, totalPercent, old(nextResultId));
      UpsertKeepsInvariants(old(results), enroll, totalPercent, old(nextResultId));
    }

    /**
     * teacher_submit_attendance: clamp both counts, upsert the row, and answer
     * the attendance percentage (0 when no classes were held).
     */
    method SubmitAttendance(enroll: int, totalClass: int, attendedClass: int) returns (percent: real)
      requires Valid()
      modifies this
      ensures Valid()
      ensures attendance == Record(old(attendance), enroll, totalClass, attendedClass)
      ensures percent == Percent(attendance[enroll]) && 0.0 <= percent <= 100.0
      ensures marks == old(marks) && results == old(results) && nextResultId == old(nextResultId)
    {
      var total := if totalClass > 0 then totalClass else 0;
      var attended := if attendedClass > 0 then attendedClass else 0;
      if attended > total {
        attended := total;
      }
      attendance := attendance[enroll := AttendanceRow(total, attended)];
      percent := if total > 0 then (attended as real / total as real) * 100.0 else 0.0;
    }

    /** The attendance initialisation done on enrollment: (0, 0) unless a row already exists. */
    method InitAttendance(enroll: int)
      requires Valid()
      modifies this
      ensures Valid()
      ensures attendance == Init(old(attendance), enroll)
      ensures marks == old(marks) && results == old(results) && nextResultId == old(nextResultId)
    {
      if enroll !in attendance {
        attendance := attendance[enroll := AttendanceRow(0, 0)];
      }
    }

    /**
     * admin_publish_result: set is_published on the row with that result_id.
     * An unknown id updates nothing and the answer is the same.
     */
    method PublishResult(resultId: int, publish: bool) returns (msg: PublishMessage)
      requires Valid()
      modifies this
      ensures Valid()
      ensures results == SetPublished(old(results), resultId, publish)
      ensures msg == if publish then Published else Unpublished
      ensures marks == old(marks) && attendance == old(attendance) && nextResultId == old(nextResultId)
    {
      results := map e | e in results :: if results[e].resultId == resultId then results[e].(published := publish) else results[e];
      PublishKeepsInvariants(old(results), resultId, publish, nextResultId);
      msg := if publish then Published else Unpublished;
    }
  }

  /**
   * Submitting the same marks twice leaves the marks and results tables as one
   * submission left them (in particular the is_published flag is unchanged).
   */
  lemma ResubmitIsIdempotent(m: MarkTable, t: ResultTable, enroll: int, comps: map<int, Component>, items: seq<Item>, next1: int, next2: int)
    ensures var m1 := ApplyItems(m, enroll, comps, items);
            var t1 := UpsertResult(t, enroll, TotalPercent(m1, enroll, comps), next1);
            var m2 := ApplyItems(m1, enroll, comps, items);
            var t2 := UpsertResult(t1, enroll, TotalPercent(m2, enroll, comps), next2);
            m2 == m1 && t2 == t1
  {
    ApplyItemsIdempotent(m, enroll, comps, items);
    var m1 := ApplyItems(m, enroll, comps, items);
    UpsertIdempotent(t, enroll, TotalPercent(m1, enroll, comps), next1, next2);
  }

  /**
   * The life of one result: a first submission creates a draft, publishing
   * its result_id takes it off the drafts, and a later resubmission keeps it
   * published with the recomputed grade.
   */
  lemma PublicationLifecycle(m: MarkTable, t: ResultTable, enroll: int, comps: map<int, Component>,
                             items1: seq<Item>, items2: seq<Item>, next: int)
    requires enroll !in t
    ensures var m1 := ApplyItems(m, enroll, comps, items1);
            var t1 := UpsertResult(t, enroll, TotalPercent(m1, enroll, comps), next);
            var t2 := SetPublished(t1, next, true);
            var m3 := ApplyItems(m1, enroll, comps, items2);
            var t3 := UpsertResult(t2, enroll, TotalPercent(m3, enroll, comps), next + 1);
            enroll in Drafts(t1) && t1[enroll].resultId == next
            && enroll !in Drafts(t2)
            && enroll !in Drafts(t3) && t3[enroll].resultId == next
            && Grade(t3[enroll].letter, t3[enroll].gradePoint) == CalcGrade(TotalPercent(m3, enroll, comps))
  {
  }
}
