/**
 * Attendance records, one per enrollment: classes held and classes attended,
 * clamped on submission, and the derived attendance percentage.
 */
module Attendance {

  datatype AttendanceRow = AttendanceRow(totalClass: int, attendedClass: int)

  /** enroll_id -> its attendance row. */
  type AttendanceTable = map<int, AttendanceRow>

  /** 0 <= attended <= total, the shape every stored row has. */
  predicate WellFormed(a: AttendanceRow) {
    0 <= a.attendedClass <= a.totalClass
  }

  /**
   * Both counts are raised to at least 0, then attended is capped at total.
   * Counts already in shape are kept as they are.
   */
  function ClampCounts(totalClass: int, attendedClass: int): (a: AttendanceRow)
    ensures WellFormed(a)
    ensures a.totalClass == (if totalClass < 0 then 0 else totalClass)
    ensures 0 <= attendedClass <= totalClass ==> a.attendedClass == attendedClass
    ensures attendedClass < 0 ==> a.attendedClass == 0
    ensures attendedClass > totalClass ==> a.attendedClass == a.totalClass
  {
    var t := if totalClass > 0 then totalClass else 0;
    var att := if attendedClass > 0 then attendedClass else 0;
    AttendanceRow(t, if att > t then t else att)
  }

  /** attended / total * 100, or 0 when no classes were held. */
  function Percent(a: AttendanceRow): (p: real)
    ensures WellFormed(a) ==> 0.0 <= p <= 100.0
    ensures a.totalClass <= 0 ==> p == 0.0
    ensures WellFormed(a) && a.totalClass > 0 ==> (p == 100.0 <==> a.attendedClass == a.totalClass)
  {
    if a.totalClass > 0 then (a.attendedClass as real / a.totalClass as real) * 100.0 else 0.0
  }

  /** The upsert of teacher_submit_attendance: the clamped row replaces any earlier one. */
  function Record(t: AttendanceTable, enroll: int, totalClass: int, attendedClass: int): (r: AttendanceTable)
    ensures r.Keys == t.Keys + {enroll}
    ensures r[enroll] == ClampCounts(totalClass, attendedClass)
    ensures forall e :: e in t && e != enroll ==> r[e] == t[e]
  {
    t[enroll := ClampCounts(totalClass, attendedClass)]
  }

  /** The enrollment-time initialisation: a (0, 0) row, only when none exists. */
  function Init(t: AttendanceTable, enroll: int): (r: AttendanceTable)
    ensures r.Keys == t.Keys + {enroll}
    ensures forall e :: e in t ==> r[e] == t[e]
    ensures enroll !in t ==> r[enroll] == AttendanceRow(0, 0)
  {
    if enroll in t then t else t[enroll := AttendanceRow(0, 0)]
  }

  /** Every stored row is well formed. */
  ghost predicate AllWellFormed(t: AttendanceTable) {
    forall e :: e in t ==> WellFormed(t[e])
  }

  /** Recording and initialising keep every row well formed. */
  lemma UpdatesKeepWellFormed(t: AttendanceTable, enroll: int, totalClass: int, attendedClass: int)
    requires AllWellFormed(t)
    ensures AllWellFormed(Record(t, enroll, totalClass, attendedClass))
    ensures AllWellFormed(Init(t, enroll))
  {
  }

  /** Resubmission overwrites: the last submission alone decides the row. */
  lemma RecordLastWins(t: AttendanceTable, enroll: int, t1: int, a1: int, t2: int, a2: int)
    ensures Record(Record(t, enroll, t1, a1), enroll, t2, a2) == Record(t, enroll, t2, a2)
  {
  }

  /** Initialising an enrollment that already has attendance leaves it as it was. */
  lemma InitAfterRecordKeepsCounts(t: AttendanceTable, enroll: int, totalClass: int, attendedClass: int)
    ensures var r := Record(t, enroll, totalClass, attendedClass);
            Init(r, enroll) == r
  {
  }

  /** Worked cases: no classes gives 0%; 15 of 10 is clamped to 10 of 10, 100%. */
  lemma PercentExamples()
    ensures Percent(ClampCounts(0, 0)) == 0.0
    ensures ClampCounts(10, 15) == AttendanceRow(10, 10) && Percent(ClampCounts(10, 15)) == 100.0
  {
  }
}
