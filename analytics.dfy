/**
 * The admin views over all students' results: the grade distribution, the
 * course difficulty, top-student and at-risk rankings, the drafts list and
 * the filter of the published-results export. Every GROUP BY is a list of
 * distinct key values with one statistic per key; every ORDER BY ... LIMIT is
 * a TopN.
 */
module Analytics {
  import opened Wrappers
  import opened GradeScale
  import opened Seqs
  import opened Ranking
  import opened Rows
  import opened Risk

  /** WHERE r.is_published = 1 */
  function Published(rows: seq<Row>): (p: seq<Row>)
    ensures forall r :: r in p <==> r in rows && r.published
  {
    Filter(rows, IsPublished)
  }

  // ---------------------------------------------------------------- grade distribution

  datatype LetterCount = LetterCount(letter: Letter, count: nat)

  function LetterOf(r: Row): Letter { r.letter }

  function HasLetter(l: Letter): Row -> bool {
    (r: Row) => r.letter == l
  }

  /** The letters that occur among the published results, each once. */
  function LetterKeys(rows: seq<Row>): seq<Letter> {
    Distinct(MapSeq(Published(rows), LetterOf))
  }

  /** COUNT(*) of the published results with letter `l`. */
  function LetterCountOf(rows: seq<Row>, l: Letter): LetterCount {
    LetterCount(l, CountWhere(Published(rows), HasLetter(l)))
  }

  function LetterCountFn(rows: seq<Row>): Letter -> LetterCount {
    (l: Letter) => LetterCountOf(rows, l)
  }

  /** ORDER BY cnt DESC */
  function DistributionKey(c: LetterCount): Key {
    Key(-(c.count as real), 0.0)
  }

  /** admin_grade_distribution: one (letter, count) pair per letter present, most frequent first. */
  function GradeDistribution(rows: seq<Row>): (d: seq<LetterCount>)
    ensures |d| == |LetterKeys(rows)|
    ensures SortedBy(d, DistributionKey)
  {
    SortBy(MapSeq(LetterKeys(rows), LetterCountFn(rows)), DistributionKey)
  }

  /** A row that is kept by a filter makes the filtered list non-empty. */
  lemma CountPositive(p: seq<Row>, keep: Row -> bool, r: Row)
    requires r in p && keep(r)
    ensures CountWhere(p, keep) > 0
  {
    assert r in Filter(p, keep);
  }

  lemma LetterKeysMember(rows: seq<Row>, l: Letter)
    ensures l in LetterKeys(rows) <==> exists r :: r in rows && r.published && r.letter == l
  {
    var p := Published(rows);
    if l in MapSeq(p, LetterOf) {
      MapSeqMember(p, LetterOf, l);
    }
    if exists r :: r in rows && r.published && r.letter == l {
      var r :| r in rows && r.published && r.letter == l;
      MapSeqHas(p, LetterOf, r);
    }
  }

  /**
   * A letter is listed exactly when some published result has it, with the
   * number of such results, which is never 0; no pair is listed twice.
   */
  lemma GradeDistributionShape(rows: seq<Row>)
    ensures forall c :: c in GradeDistribution(rows) ==> c == LetterCountOf(rows, c.letter) && c.count > 0
    ensures forall l :: LetterCountOf(rows, l) in GradeDistribution(rows) <==> exists r :: r in rows && r.published && r.letter == l
    ensures NoDuplicates(GradeDistribution(rows))
  {
    var ks := LetterKeys(rows);
    var m := MapSeq(ks, LetterCountFn(rows));
    var d := GradeDistribution(rows);
    forall c | c in d ensures c == LetterCountOf(rows, c.letter) && c.count > 0 {
      SortByMembers(m, DistributionKey, c);
      MapSeqMember(ks, LetterCountFn(rows), c);
      LetterKeysMember(rows, c.letter);
      var r :| r in rows && r.published && r.letter == c.letter;
      CountPositive(Published(rows), HasLetter(c.letter), r);
    }
    forall l ensures LetterCountOf(rows, l) in d <==> exists r :: r in rows && r.published && r.letter == l {
      LetterKeysMember(rows, l);
      SortByMembers(m, DistributionKey, LetterCountOf(rows, l));
      if l in ks {
        MapSeqHas(ks, LetterCountFn(rows), l);
      }
      if LetterCountOf(rows, l) in m {
        MapSeqMember(ks, LetterCountFn(rows), LetterCountOf(rows, l));
      }
    }
    MapSeqNoDuplicates(ks, LetterCountFn(rows), (c: LetterCount) => c.letter);
    PermutationNoDuplicates(m, d);
  }

  function CountOf(c: LetterCount): real { c.count as real }

  /** How many of the rows `p` carry each letter. */
  function LetterTally(p: seq<Row>): Letter -> real {
    (l: Letter) => CountWhere(p, HasLetter(l)) as real
  }

  function Indicator(l: Letter): Letter -> real {
    (x: Letter) => if x == l then 1.0 else 0.0
  }

  /** A letter listed once contributes 1 to a sum of its indicator. */
  lemma {:induction false} IndicatorSum(ks: seq<Letter>, l: Letter)
    requires NoDuplicates(ks) && l in ks
    ensures SumOf(ks, Indicator(l)) == 1.0
  {
    NoDuplicatesTail(ks);
    if ks[0] == l {
      SumOfConst(ks[1..], Indicator(l), 0.0);
    } else {
      IndicatorSum(ks[1..], l);
    }
  }

  /** Every row is counted under exactly one of a complete list of distinct letters. */
  lemma {:induction false} TallyPartition(p: seq<Row>, ks: seq<Letter>)
    requires NoDuplicates(ks)
    requires forall r :: r in p ==> r.letter in ks
    ensures SumOf(ks, LetterTally(p)) == |p| as real
  {
    if p == [] {
      SumOfConst(ks, LetterTally(p), 0.0);
    } else {
      assert p[0] in p;
      TallyPartition(p[1..], ks);
      IndicatorSum(ks, p[0].letter);
      SumOfAdd(ks, Indicator(p[0].letter), LetterTally(p[1..]), LetterTally(p));
    }
  }

  /** The counts of the distribution add up to the number of published results. */
  lemma GradeDistributionTotal(rows: seq<Row>)
    ensures SumOf(GradeDistribution(rows), CountOf) == |Published(rows)| as real
  {
    var p := Published(rows);
    var ks := LetterKeys(rows);
    var m := MapSeq(ks, LetterCountFn(rows));
    SumOfPermutation(m, GradeDistribution(rows), CountOf);
    SumOfMap(ks, LetterCountFn(rows), CountOf, LetterTally(p));
    forall r | r in p ensures r.letter in ks {
      LetterKeysMember(rows, r.letter);
    }
    TallyPartition(p, ks);
  }

  // ---------------------------------------------------------------- course difficulty

  datatype CourseStat = CourseStat(courseId: int, avgPercent: real, failCount: nat, totalCount: nat)

  function InCourse(c: int): Row -> bool {
    (r: Row) => r.courseId == c
  }

  /** The published results of one course. */
  function CourseRows(rows: seq<Row>, c: int): (rs: seq<Row>)
    ensures forall r :: r in rs <==> r in rows && r.published && r.courseId == c
  {
    Filter(Published(rows), InCourse(c))
  }

  function CourseStatOf(rows: seq<Row>, c: int): CourseStat {
    var rs := CourseRows(rows, c);
    CourseStat(c, Mean(rs, PercentOf), FailCount(rs), |rs|)
  }

  function CourseStatFn(rows: seq<Row>): int -> CourseStat {
    (c: int) => CourseStatOf(rows, c)
  }

  /** The courses with a published result, each once. */
  function CourseIds(rows: seq<Row>): seq<int> {
    Distinct(MapSeq(Published(rows), CourseIdOf))
  }

  /** fail_count / total_count, as an exact fraction. */
  function FailRate(st: CourseStat): (q: real)
    ensures st.failCount <= st.totalCount ==> 0.0 <= q <= 1.0
  {
    if st.totalCount == 0 then 0.0
    else
      var q := st.failCount as real / st.totalCount as real;
      assert st.failCount <= st.totalCount ==> 0.0 <= q <= 1.0 by {
        if st.failCount <= st.totalCount {
          DivBounds(st.failCount as real, st.totalCount as real, 0.0, 1.0);
        }
      }
      q
  }

  /** ORDER BY fail rate DESC, avg_percent ASC */
  function DifficultyKey(st: CourseStat): Key {
    Key(-FailRate(st), st.avgPercent)
  }

  function HasResults(st: CourseStat): bool { st.totalCount > 0 }

  /**
   * admin_course_difficulty: at most ten courses, each with published results,
   * the highest fail rate first.
   */
  function CourseDifficulty(rows: seq<Row>): (l: seq<CourseStat>)
    ensures |l| <= 10
    ensures forall st :: st in l ==> st.totalCount > 0
    ensures SortedBy(l, DifficultyKey)
  {
    TopN(Filter(MapSeq(CourseIds(rows), CourseStatFn(rows)), HasResults), DifficultyKey, 10)
  }

  lemma CourseIdsMember(rows: seq<Row>, c: int)
    ensures c in CourseIds(rows) <==> exists r :: r in rows && r.published && r.courseId == c
  {
    var p := Published(rows);
    if c in MapSeq(p, CourseIdOf) {
      MapSeqMember(p, CourseIdOf, c);
    }
    if exists r :: r in rows && r.published && r.courseId == c {
      var r :| r in rows && r.published && r.courseId == c;
      MapSeqHas(p, CourseIdOf, r);
    }
  }

  /** The failed results of a course are among its results. */
  lemma FailsWithinTotal(rs: seq<Row>)
    ensures FailCount(rs) <= |rs|
  {
  }

  /**
   * Each listed course shows its own statistics, with a fail rate in [0, 1];
   * no course is listed twice.
   */
  lemma CourseDifficultySound(rows: seq<Row>)
    ensures forall st :: st in CourseDifficulty(rows) ==>
              st == CourseStatOf(rows, st.courseId) && 0.0 <= FailRate(st) <= 1.0
    ensures forall i, j :: 0 <= i < j < |CourseDifficulty(rows)| ==>
              CourseDifficulty(rows)[i].courseId != CourseDifficulty(rows)[j].courseId
  {
    var ids := CourseIds(rows);
    var m := MapSeq(ids, CourseStatFn(rows));
    var cands := Filter(m, HasResults);
    var l := CourseDifficulty(rows);
    forall st | st in l ensures st == CourseStatOf(rows, st.courseId) {
      MapSeqMember(ids, CourseStatFn(rows), st);
    }
    forall st | st in l ensures 0.0 <= FailRate(st) <= 1.0 {
      FailsWithinTotal(CourseRows(rows, st.courseId));
    }
    MapSeqNoDuplicates(ids, CourseStatFn(rows), (st: CourseStat) => st.courseId);
    FilterNoDuplicates(m, HasResults);
    TopNNoDuplicates(cands, DifficultyKey, 10);
    forall i, j | 0 <= i < j < |l| ensures l[i].courseId != l[j].courseId {
      assert l[i] in l && l[j] in l;
    }
  }

  /** A course with published results is left out only when ten listed courses rank at or above it. */
  lemma CourseDifficultyComplete(rows: seq<Row>, r: Row)
    requires r in rows && r.published
    requires CourseStatOf(rows, r.courseId) !in CourseDifficulty(rows)
    ensures |CourseDifficulty(rows)| == 10
    ensures forall st :: st in CourseDifficulty(rows) ==> KeyLe(DifficultyKey(st), DifficultyKey(CourseStatOf(rows, r.courseId)))
  {
    var c := r.courseId;
    var ids := CourseIds(rows);
    var m := MapSeq(ids, CourseStatFn(rows));
    CourseIdsMember(rows, c);
    MapSeqHas(ids, CourseStatFn(rows), c);
    CountPositive(Published(rows), InCourse(c), r);
    TopNComplete(Filter(m, HasResults), DifficultyKey, 10, CourseStatOf(rows, c));
  }

  // ---------------------------------------------------------------- per-student rankings

  /** A student's published results summarised (GROUP BY the student). */
  datatype StudentStat = StudentStat(studentId: int, avgGp: real, fCount: nat, coursesCount: nat)

  function StudentStatOf(rows: seq<Row>, s: int): StudentStat {
    var p := PublishedFor(rows, s);
    StudentStat(s, Mean(p, GradePointOf), FailCount(p), |p|)
  }

  function StudentStatFn(rows: seq<Row>): int -> StudentStat {
    (s: int) => StudentStatOf(rows, s)
  }

  /** The students with a published result, each once. */
  function StudentIds(rows: seq<Row>): seq<int> {
    Distinct(MapSeq(Published(rows), StudentIdOf))
  }

  function StudentStats(rows: seq<Row>): seq<StudentStat> {
    MapSeq(StudentIds(rows), StudentStatFn(rows))
  }

  lemma StudentIdsMember(rows: seq<Row>, s: int)
    ensures s in StudentIds(rows) <==> exists r :: r in rows && r.published && r.studentId == s
  {
    var p := Published(rows);
    if s in MapSeq(p, StudentIdOf) {
      MapSeqMember(p, StudentIdOf, s);
    }
    if exists r :: r in rows && r.published && r.studentId == s {
      var r :| r in rows && r.published && r.studentId == s;
      MapSeqHas(p, StudentIdOf, r);
    }
  }

  /** The summaries are those of the students with published results, one each. */
  lemma StudentStatsShape(rows: seq<Row>)
    ensures forall st :: st in StudentStats(rows) ==> st == StudentStatOf(rows, st.studentId) && st.coursesCount > 0
    ensures NoDuplicates(StudentStats(rows))
  {
    var ids := StudentIds(rows);
    forall st | st in StudentStats(rows) ensures st == StudentStatOf(rows, st.studentId) && st.coursesCount > 0 {
      MapSeqMember(ids, StudentStatFn(rows), st);
      StudentIdsMember(rows, st.studentId);
      var r :| r in rows && r.published && r.studentId == st.studentId;
      CountPositive(rows, PublishedOf(st.studentId), r);
    }
    MapSeqNoDuplicates(ids, StudentStatFn(rows), (st: StudentStat) => st.studentId);
  }

  /** A student with a published result has a summary. */
  lemma StudentStatsHas(rows: seq<Row>, r: Row)
    requires r in rows && r.published
    ensures StudentStatOf(rows, r.studentId) in StudentStats(rows)
  {
    StudentIdsMember(rows, r.studentId);
    MapSeqHas(StudentIds(rows), StudentStatFn(rows), r.studentId);
  }

  /** HAVING courses_count >= 2 */
  function TwoOrMoreCourses(st: StudentStat): bool { st.coursesCount >= 2 }

  /** ORDER BY avg_gp DESC, courses_count DESC */
  function TopKey(st: StudentStat): Key {
    Key(-st.avgGp, -(st.coursesCount as real))
  }

  /**
   * admin_top_students: at most ten students, each with two or more published
   * results, the best average first, a tie going to more courses.
   */
  function TopStudents(rows: seq<Row>): (l: seq<StudentStat>)
    ensures |l| <= 10
    ensures forall st :: st in l ==> st.coursesCount >= 2
    ensures SortedBy(l, TopKey)
  {
    TopN(Filter(StudentStats(rows), TwoOrMoreCourses), TopKey, 10)
  }

  /** Each listed student shows their own statistics; nobody is listed twice. */
  lemma TopStudentsSound(rows: seq<Row>)
    ensures forall st :: st in TopStudents(rows) ==> st == StudentStatOf(rows, st.studentId)
    ensures forall i, j :: 0 <= i < j < |TopStudents(rows)| ==> TopStudents(rows)[i].studentId != TopStudents(rows)[j].studentId
  {
    var l := TopStudents(rows);
    StudentStatsShape(rows);
    FilterNoDuplicates(StudentStats(rows), TwoOrMoreCourses);
    TopNNoDuplicates(Filter(StudentStats(rows), TwoOrMoreCourses), TopKey, 10);
    forall i, j | 0 <= i < j < |l| ensures l[i].studentId != l[j].studentId {
      assert l[i] in l && l[j] in l;
    }
  }

  /** A student with two or more published results is left out only when ten listed students rank at or above them. */
  lemma TopStudentsComplete(rows: seq<Row>, s: int)
    requires |PublishedFor(rows, s)| >= 2
    requires StudentStatOf(rows, s) !in TopStudents(rows)
    ensures |TopStudents(rows)| == 10
    ensures forall st :: st in TopStudents(rows) ==> KeyLe(TopKey(st), TopKey(StudentStatOf(rows, s)))
  {
    var r := PublishedFor(rows, s)[0];
    assert r in PublishedFor(rows, s);
    StudentStatsHas(rows, r);
    TopNComplete(Filter(StudentStats(rows), TwoOrMoreCourses), TopKey, 10, StudentStatOf(rows, s));
  }

  /** HAVING AVG(grade_point) < 2.50 OR f_count >= 2 */
  function AtRiskEligible(st: StudentStat): bool { st.avgGp < 2.5 || st.fCount >= 2 }

  /** ORDER BY avg_gp ASC, f_count DESC */
  function AtRiskKey(st: StudentStat): Key {
    Key(st.avgGp, -(st.fCount as real))
  }

  /**
   * admin_at_risk: at most fifteen students, each with an average under 2.5
   * or two or more F grades, the lowest average first, a tie going to more F
   * grades.
   */
  function AtRisk(rows: seq<Row>): (l: seq<StudentStat>)
    ensures |l| <= 15
    ensures forall st :: st in l ==> st.avgGp < 2.5 || st.fCount >= 2
    ensures SortedBy(l, AtRiskKey)
  {
    TopN(Filter(StudentStats(rows), AtRiskEligible), AtRiskKey, 15)
  }

  /** Each listed student has published results and shows their own statistics; nobody is listed twice. */
  lemma AtRiskSound(rows: seq<Row>)
    ensures forall st :: st in AtRisk(rows) ==> st == StudentStatOf(rows, st.studentId) && st.coursesCount > 0
    ensures forall i, j :: 0 <= i < j < |AtRisk(rows)| ==> AtRisk(rows)[i].studentId != AtRisk(rows)[j].studentId
  {
    var l := AtRisk(rows);
    StudentStatsShape(rows);
    FilterNoDuplicates(StudentStats(rows), AtRiskEligible);
    TopNNoDuplicates(Filter(StudentStats(rows), AtRiskEligible), AtRiskKey, 15);
    forall i, j | 0 <= i < j < |l| ensures l[i].studentId != l[j].studentId {
      assert l[i] in l && l[j] in l;
    }
  }

  /**
   * A student with published results whose average is under 2.5 or who has
   * two or more F grades is left out only when fifteen listed students rank
   * at or before them.
   */
  lemma AtRiskComplete(rows: seq<Row>, r: Row)
    requires r in rows && r.published
    requires AtRiskEligible(StudentStatOf(rows, r.studentId))
    requires StudentStatOf(rows, r.studentId) !in AtRisk(rows)
    ensures |AtRisk(rows)| == 15
    ensures forall st :: st in AtRisk(rows) ==> KeyLe(AtRiskKey(st), AtRiskKey(StudentStatOf(rows, r.studentId)))
  {
    StudentStatsHas(rows, r);
    TopNComplete(Filter(StudentStats(rows), AtRiskEligible), AtRiskKey, 15, StudentStatOf(rows, r.studentId));
  }

  /** Everyone on the at-risk list is labelled High by their own risk status, whatever their attendance. */
  lemma AtRiskIsHigh(rows: seq<Row>, att: seq<AttendanceEntry>, st: StudentStat)
    requires st in AtRisk(rows)
    ensures StudentRisk(Some(st.studentId), att, rows).level == High
  {
    AtRiskSound(rows);
  }

  // ---------------------------------------------------------------- drafts list

  function IsDraft(r: Row): bool { !r.published }

  /** ORDER BY sem.year, sem.semester_id */
  function DraftKey(r: Row): Key {
    Key(r.year as real, r.semesterId as real)
  }

  /** admin_drafts: at most 200 unpublished results, oldest semester first. */
  function DraftList(rows: seq<Row>): (l: seq<Row>)
    ensures |l| <= 200
    ensures forall d :: d in l ==> d in rows && !d.published
    ensures SortedBy(l, DraftKey)
  {
    TopN(Filter(rows, IsDraft), DraftKey, 200)
  }

  /** An unpublished result is left out only when 200 listed ones come no later. */
  lemma DraftListComplete(rows: seq<Row>, r: Row)
    requires r in rows && !r.published && r !in DraftList(rows)
    ensures |DraftList(rows)| == 200
    ensures forall d :: d in DraftList(rows) ==> KeyLe(DraftKey(d), DraftKey(r))
  {
    TopNComplete(Filter(rows, IsDraft), DraftKey, 200, r);
  }

  /** Publishing a result takes it off the drafts list. */
  lemma PublishedNeverListed(rows: seq<Row>, i: int)
    requires 0 <= i < |rows| && rows[i].published
    ensures rows[i] !in DraftList(rows)
  {
  }

  // ---------------------------------------------------------------- export filter

  predicate IsDigit(c: char) { '0' <= c <= '9' }

  /** str.isdigit on ASCII text: non-empty and every character a digit. */
  predicate IsDigits(s: string) {
    |s| > 0 && forall i :: 0 <= i < |s| ==> IsDigit(s[i])
  }

  /** int() of a digit string, leading zeros allowed: the last digit is the units digit. */
  function DigitsValue(s: string): (v: nat)
    requires forall i :: 0 <= i < |s| ==> IsDigit(s[i])
    ensures s != [] ==> v % 10 == s[|s| - 1] as int - '0' as int
  {
    if s == [] then 0
    else
      assert IsDigit(s[|s| - 1]);
      DigitsValue(s[..|s| - 1]) * 10 + (s[|s| - 1] as int - '0' as int)
  }

  /** The decimal digits of n, without leading zeros. */
  function ShowNat(n: nat): (s: string)
    ensures IsDigits(s)
  {
    var d := (('0' as int) + n % 10) as char;
    if n < 10 then [d] else ShowNat(n / 10) + [d]
  }

  /** Reading back the digits of a number gives the number. */
  lemma {:induction false} DigitsRoundTrip(n: nat)
    ensures DigitsValue(ShowNat(n)) == n
  {
    var s := ShowNat(n);
    assert s[..|s| - 1] == if n < 10 then [] else ShowNat(n / 10);
    if n >= 10 {
      DigitsRoundTrip(n / 10);
    }
  }

  /**
   * The export's WHERE clause: published, and in the given semester and
   * course when the parameter is all digits; any other parameter is ignored.
   */
  function ExportKeep(semesterParam: string, courseParam: string): (keep: Row -> bool)
    ensures forall r :: keep(r) ==> r.published
    ensures forall r :: IsDigits(semesterParam) && keep(r) ==> r.semesterId == DigitsValue(semesterParam)
    ensures forall r :: IsDigits(courseParam) && keep(r) ==> r.courseId == DigitsValue(courseParam)
    ensures !IsDigits(semesterParam) && !IsDigits(courseParam) ==> forall r :: keep(r) == r.published
  {
    (r: Row) =>
      r.published
      && (IsDigits(semesterParam) ==> r.semesterId == DigitsValue(semesterParam))
      && (IsDigits(courseParam) ==> r.courseId == DigitsValue(courseParam))
  }

  function ExportRows(rows: seq<Row>, semesterParam: string, courseParam: string): (e: seq<Row>)
    ensures forall r :: r in e ==> r in rows && r.published
  {
    Filter(rows, ExportKeep(semesterParam, courseParam))
  }

  /** Parameters that are not all digits ("", "abc", "-3") filter nothing: every published result is exported. */
  lemma ExportIgnoresMalformedParams(rows: seq<Row>, semesterParam: string, courseParam: string)
    requires !IsDigits(semesterParam) && !IsDigits(courseParam)
    ensures ExportRows(rows, semesterParam, courseParam) == Published(rows)
  {
    FilterExt(rows, ExportKeep(semesterParam, courseParam), IsPublished);
  }

  /** A semester given as digits keeps exactly that semester's published results, leading zeros allowed. */
  lemma ExportBySemester(rows: seq<Row>, n: nat)
    ensures forall r :: r in ExportRows(rows, ShowNat(n), "") <==> r in rows && r.published && r.semesterId == n
    ensures forall r :: r in ExportRows(rows, "0" + ShowNat(n), "") <==> r in rows && r.published && r.semesterId == n
  {
    DigitsRoundTrip(n);
    var z := "0" + ShowNat(n);
    assert IsDigits(z);
    assert DigitsValue(z) == n by {
      LeadingZero(ShowNat(n));
    }
  }

  /** A course given as digits keeps exactly that course's published results. */
  lemma ExportByCourse(rows: seq<Row>, n: nat)
    ensures forall r :: r in ExportRows(rows, "", ShowNat(n)) <==> r in rows && r.published && r.courseId == n
  {
    DigitsRoundTrip(n);
  }

  /** Both parameters given as digits: the two filters apply together. */
  lemma ExportBySemesterAndCourse(rows: seq<Row>, sem: nat, course: nat)
    ensures forall r :: r in ExportRows(rows, ShowNat(sem), ShowNat(course)) <==>
              r in rows && r.published && r.semesterId == sem && r.courseId == course
  {
    DigitsRoundTrip(sem);
    DigitsRoundTrip(course);
  }

  /** A leading zero does not change the value read. */
  lemma {:induction false} LeadingZero(s: string)
    requires forall i :: 0 <= i < |s| ==> IsDigit(s[i])
    ensures DigitsValue("0" + s) == DigitsValue(s)
  {
    if s != [] {
      var t := "0" + s;
      assert t[..|t| - 1] == "0" + s[..|s| - 1];
      LeadingZero(s[..|s| - 1]);
    }
  }
}
