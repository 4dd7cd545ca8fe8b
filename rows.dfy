/**
 * The joined row every student and analytics query reads: a results row with
 * its enrollment's student, course (and credit) and semester (and year).
 * Only published rows count in any aggregate.
 */
module Rows {
  import opened GradeScale
  import opened Seqs

  datatype Row = Row(enrollId: int, studentId: int, courseId: int, semesterId: int, year: int,
                     credit: real, totalPercent: real, letter: Letter, gradePoint: real, published: bool)

  function IsPublished(r: Row): bool { r.published }

  /** WHERE e.student_id = s AND r.is_published = 1 */
  function PublishedOf(s: int): Row -> bool {
    (r: Row) => r.published && r.studentId == s
  }

  /** A student's published rows. */
  function PublishedFor(rows: seq<Row>, s: int): (p: seq<Row>)
    ensures forall r :: r in p <==> r in rows && r.published && r.studentId == s
  {
    Filter(rows, PublishedOf(s))
  }

  /** What stored rows satisfy: the grade point comes from the scale and the credit is not negative. */
  predicate Graded(rows: seq<Row>) {
    forall r :: r in rows ==> r.gradePoint == CalcGrade(r.totalPercent).point && r.credit >= 0.0
  }

  function GradePointOf(r: Row): real { r.gradePoint }
  function CreditOf(r: Row): real { r.credit }
  function WeightedPointOf(r: Row): real { r.gradePoint * r.credit }
  function PercentOf(r: Row): real { r.totalPercent }
  function StudentIdOf(r: Row): int { r.studentId }
  function CourseIdOf(r: Row): int { r.courseId }
  function SemesterIdOf(r: Row): int { r.semesterId }

  /** letter_grade = 'F' */
  function IsFail(r: Row): bool { r.letter == F }

  /** SUM(CASE WHEN letter_grade = 'F' THEN 1 ELSE 0 END), 0 for no rows. */
  function FailCount(rs: seq<Row>): nat {
    CountWhere(rs, IsFail)
  }

  /** AVG(column) read back with `or 0`: the mean, and 0 when there are no rows. */
  function Mean(rs: seq<Row>, f: Row -> real): (m: real)
    ensures rs == [] ==> m == 0.0
  {
    if |rs| == 0 then 0.0 else SumOf(rs, f) / |rs| as real
  }

  /** Dividing by a positive count or credit keeps bounds that hold per unit. */
  lemma DivBounds(w: real, c: real, lo: real, hi: real)
    requires c > 0.0 && lo * c <= w <= hi * c
    ensures lo <= w / c <= hi
  {
    var q := w / c;
    assert w == q * c;
  }

  /** The mean of values in [lo, hi] lies in [lo, hi]. */
  lemma MeanBounds(rs: seq<Row>, f: Row -> real, lo: real, hi: real)
    requires rs != []
    requires forall r :: r in rs ==> lo <= f(r) <= hi
    ensures lo <= Mean(rs, f) <= hi
  {
    var n := |rs| as real;
    var low: Row -> real := r => lo;
    var high: Row -> real := r => hi;
    SumOfMono(rs, low, f);
    SumOfMono(rs, f, high);
    SumOfConst(rs, low, lo);
    SumOfConst(rs, high, hi);
    DivBounds(SumOf(rs, f), n, lo, hi);
  }

  /** A row that is unpublished or belongs to someone else is invisible to a student's queries. */
  lemma {:induction false} PublishedForIgnores(rows: seq<Row>, extra: Row, s: int)
    requires !extra.published || extra.studentId != s
    ensures PublishedFor(rows + [extra], s) == PublishedFor(rows, s)
  {
    FilterAppend(rows, [extra], PublishedOf(s));
    assert Filter([extra], PublishedOf(s)) == [];
  }
}
