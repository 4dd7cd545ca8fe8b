# Result computation and publication engine

This Dafny project models the grading core of a small Flask and MySQL
student-results application, `backend/app.py`. It covers:

- **The grade scale.** `calc_grade` maps a total percentage to a letter and a
  grade point, as a first-match descending threshold table.
- **Mark submission.**
  - The course's components become a map from `comp_id` to (max, weight).
  - Each submitted item for a known component is clamped to `[0, max]` and
    upserted into the marks table keyed by `(enroll_id, comp_id)`.
  - The total percentage is then summed over all of the course's components
    from the stored marks.
  - The result row is upserted as a draft. An existing row keeps its
    `is_published` flag.
- **Publication.**
  - `is_published` is set or cleared on the row with a given `result_id`.
  - The drafts view lists unpublished results.
- **Attendance.**
  - Submitted counts are clamped and upserted.
  - The percentage is derived from the counts.
  - Enrolling adds a `(0, 0)` row, only when none exists.
- **Student aggregates over published results.**
  - The credit-weighted semester GPA and CGPA.
  - The unweighted GPA trend, with semesters ordered by (year, semester_id).
  - The risk label, computed from average attendance, average grade point and
    F count.
- **Admin analytics.**
  - The grade distribution.
  - Course difficulty (top 10).
  - Top students (two or more courses, top 10).
  - The at-risk list (top 15).
  - The drafts list (200).
  - The export filter.

## How the model is organised

The stateful request handlers live in `gradebook.dfy`. The class
`Gradebook.Gradebook` holds three tables as maps, plus the next auto-increment
`result_id`:

- marks: `(enroll_id, comp_id) -> obtained`;
- results: `enroll_id -> row`;
- attendance: `enroll_id -> counts`.

Its methods are the bodies of `teacher_submit_marks`,
`teacher_submit_attendance`, `admin_publish_result` and the attendance
initialisation of `admin_api_enroll`. They keep the loops of the source. Each
method's postcondition ties the new state to a pure function of the old state:

- `Marks.ApplyItems` and `Marks.TotalPercent`;
- `Results.UpsertResult` and `Results.SetPublished`;
- `Attendance.Record` and `Attendance.Init`.

The properties are proved about those functions. The class invariant is
`Valid()`:

- stored letters and grade points equal `CalcGrade` of the stored percentage;
- result ids are unique and below the next id;
- attendance rows satisfy `0 <= attended <= total`.

The total-percent loop visits `comp_map` in dictionary order. The model visits
the keys in an arbitrary order (`:|`) and proves the result equal to a sum over
the key set, which does not depend on the order (`Sums.SumOverRemove`).

The SQL queries are pure functions over `seq<Row>`. A `Row` is a results row
joined with its enrollment's student, course (with credit) and semester (with
year). Each SQL construct has a counterpart:

| SQL | Dafny |
|---|---|
| `WHERE` | `Seqs.Filter` |
| `SUM` | `Seqs.SumOf` |
| `AVG` | `Rows.Mean`, 0 for no rows, as the code's `or 0` does |
| `GROUP BY` | `Seqs.Distinct` of the key column, one statistic per key |
| `ORDER BY ... LIMIT n` | `Ranking.TopN`: a stable insertion sort on a lexicographic pair key, then a prefix |

A DESC column is negated in the pair key.

`join.dfy` connects the two halves. `Join.RowsFrom` says that joined rows repeat
the results table, and `Join.EntriesFrom` says the same of attendance entries.
`Join.ViewsOfConsistentTables` shows that the invariants kept by `Valid()` give
the views their bounds. It also shows that the drafts list only shows drafts of
the table.

### Behaviours at the edges

- **Grade boundary.** The thresholds are tested with `>=`, so 79.999
  satisfies `>= 75` and gets ("A", 3.75); only 80 and above get "A+"
  (`GradeScale.BoundaryExamples`).
- **Resubmission.** The `ON DUPLICATE KEY UPDATE` of the result row rewrites
  the percent, letter and grade point only, so a resubmission leaves
  `is_published` as it was (`Results.ResubmitKeepsPublication`).
- **Publishing.** Publishing writes only `is_published`; no timestamp is
  written. An unknown `result_id` matches no row, the table is unchanged and
  the reply is the same as for a known id (`Results.PublishUnknownIsNoop`,
  `Gradebook.Gradebook.PublishResult`).
- **Unknown components.** An item naming a component outside the course is
  skipped, not reported (`Marks.UnknownItemsIgnored`).

## Model

| member | source | states |
|---|---|---|
| GradeScale.CalcGrade | backend/app.py:14-24 | for every real p, the letter is the one whose bracket [lower, upper) holds p, the point is that letter's point, and it lies in [0, 4] |
| GradeScale.CalcGradeIsTableLookup | backend/app.py:14-24 | the chain of comparisons equals a first-match lookup in the descending threshold table (80/A+ … 40/D, else F) |
| GradeScale.BracketUnique | backend/app.py:14-24 | no percentage lies in two brackets, so the letter is determined by p |
| GradeScale.Extremes | backend/app.py:14-24 | p < 40 gives ("F", 0.00); p >= 80 gives ("A+", 4.00) |
| GradeScale.PointMonotone | backend/app.py:14-24 | the grade point never decreases as the percentage grows |
| GradeScale.BoundaryExamples | backend/app.py:14-24 | 79.999 gives ("A", 3.75); 80 gives A+; -5 gives F; 150 gives A+ |
| Marks.CompMap | backend/app.py:371-377 | the component map's keys are exactly the comp_ids of the course's component rows |
| Marks.CompMapLastWins | backend/app.py:377 | a comp_id that occurs twice maps to its later row |
| Marks.Clamp | backend/app.py:387 | max(0, min(x, max)): the result is in [0, max] when max >= 0; a value already in range is kept; above max gives max; a negative value or a negative max gives 0 |
| Marks.LastObtained | backend/app.py:380-393 | none exactly when no item names the component; otherwise the value of the last item that names it |
| Marks.Known | backend/app.py:382-384 | the items kept are exactly those whose component belongs to the course |
| Marks.UpsertMark | backend/app.py:380-393 | one loop step: an item for an unknown component leaves the table as it is; a known one stores a value in [0, max] (for max >= 0) under (enroll_id, comp_id) and no other key changes |
| Marks.ApplyItems | backend/app.py:380-393 | the marks table after the items loop: no row is deleted, and only this enrollment's rows for the course's components are added or changed |
| Marks.ApplyItemsAt | backend/app.py:380-393 | after the items loop, a known component named by some item holds the clamped value of its last item; every other key (other enrollments, unknown or unsubmitted components) is unchanged |
| Marks.UnknownItemsIgnored | backend/app.py:382-384 | dropping the items for components outside the course gives the same marks table |
| Marks.ApplyItemsIdempotent | backend/app.py:380-393 | submitting the same items twice leaves the table as one submission did |
| Marks.SubmissionKeepsRange | backend/app.py:380-393 | if every stored mark of the enrollment was in [0, max] before, it still is after the submission |
| Marks.SubmittedMarkInRange | backend/app.py:386-393 | a submitted component with max >= 0 ends with a stored mark in [0, max] |
| Marks.Contribution | backend/app.py:403 | a mark in [0, max] with a non-negative weight contributes between 0 and the weight |
| Sums.SumOverRemove | backend/app.py:396-397 | the sum over the component keys can take out any component first, so the dictionary's iteration order does not change the total |
| Marks.PartialTotalRemove | backend/app.py:396-403 | one loop step adds exactly that component's contribution, read from the stored mark (0 if missing) |
| Marks.TotalPercent | backend/app.py:395-403 | the total over all of the course's components lies in [0, sum of weights] when the weights are non-negative and the stored marks in range |
| Marks.TotalDependsOnlyOnOwnMarks | backend/app.py:398-402 | the total reads only this enrollment's stored marks for the course's components |
| Marks.ContributionAfterSubmit | backend/app.py:380-403 | a component omitted from the submission keeps its earlier mark and still counts; a submitted one counts with its clamped last value |
| Marks.TotalExample | backend/app.py:371-403 | weights 30 and 70 over max 50, with 25 and 60 (clamped to 50) submitted, total 85 |
| Gradebook.SumContributions | backend/app.py:395-403 | the loop over comp_map in any order returns the sum over all components of (stored / max) * weight |
| Gradebook.Gradebook.SubmitMarks | backend/app.py:358-425 | the marks table becomes ApplyItems of the old one; the total is TotalPercent of the new marks; letter and point are CalcGrade of it; the results table becomes UpsertResult of the old one; the next id advances only for a new row; attendance is unchanged; Valid() is kept |
| Gradebook.Gradebook.SubmitAttendance | backend/app.py:427-450 | the attendance table becomes Record of the old one; the returned percentage is that of the stored row and lies in [0, 100]; nothing else changes |
| Gradebook.Gradebook.InitAttendance | backend/app.py:958-962 | the attendance table becomes Init of the old one; nothing else changes |
| Gradebook.Gradebook.PublishResult | backend/app.py:655-669 | the results table becomes SetPublished of the old one; the message is Published or Unpublished by the flag alone, matched row or not; nothing else changes |
| Gradebook.ResubmitIsIdempotent | backend/app.py:380-415 | submitting the same marks twice leaves marks and results as one submission did, the is_published flag included |
| Gradebook.PublicationLifecycle | backend/app.py:405-415 | a first submission creates a draft with the fresh id; publishing that id takes it off the drafts; a resubmission keeps it published, with the same id and the grade of the new total |
| Results.UpsertResult | backend/app.py:405-415 | a new row is a draft with the fresh id; an existing row keeps its id and its is_published flag; percent, letter and point are the new values and agree with CalcGrade; no other row changes |
| Results.UpsertKeepsInvariants | backend/app.py:405-415 | the upsert keeps grades consistent, ids unique and below the next id |
| Results.ResubmitKeepsPublication | backend/app.py:411-415 | recomputing a published result leaves it published and out of the drafts |
| Results.UpsertIdempotent | backend/app.py:407-415 | upserting the same percent twice equals upserting it once |
| Results.SetPublished | backend/app.py:666 | no row is added or removed |
| Results.PublishChangesOnlyFlag | backend/app.py:660-667 | only is_published changes, and only on rows with that result_id; id, percent, letter and point stay |
| Results.PublishUnknownIsNoop | backend/app.py:666-669 | an id matching no row leaves the table unchanged |
| Results.PublishLastWins | backend/app.py:666 | repeating a call is idempotent; of two calls on one id the last decides |
| Results.UnpublishUndoesPublish | backend/app.py:660-666 | publishing a draft and then unpublishing it restores the table |
| Results.PublishKeepsInvariants | backend/app.py:666 | publishing keeps grades consistent and ids unique |
| Results.Drafts | backend/app.py:647 | an enrollment is a draft exactly when it has a result row that is not published |
| Results.DraftsAfterPublish | backend/app.py:647-666 | after the call, the row with that id is a draft exactly when it was unpublished; other rows keep their status |
| Attendance.ClampCounts | backend/app.py:434-437 | both counts are raised to at least 0 and attended is capped at total, giving 0 <= attended <= total; counts already in shape are kept |
| Attendance.Percent | backend/app.py:450 | attended / total * 100 is in [0, 100] for a stored row, 0 when no classes were held, and 100 exactly when every class was attended |
| Attendance.Record | backend/app.py:441-446 | the clamped row is stored for the enrollment and no other row changes |
| Attendance.Init | backend/app.py:958-962 | an enrollment without attendance gets (0, 0); existing rows are kept |
| Attendance.UpdatesKeepWellFormed | backend/app.py:434-446 | recording and initialising keep every row within 0 <= attended <= total |
| Attendance.RecordLastWins | backend/app.py:441-446 | of two submissions for one enrollment the last alone decides the row |
| Attendance.InitAfterRecordKeepsCounts | backend/app.py:958-962 | enrolling again after attendance was recorded leaves the counts as they were |
| Attendance.PercentExamples | backend/app.py:434-449 | no classes gives 0%; 15 of 10 is clamped to 10 of 10, 100% |
| Rows.PublishedFor | backend/app.py:192 | a row is kept exactly when it is in the table, published and the student's |
| Rows.Mean | backend/app.py:195 | AVG read with `or 0`: 0 for no rows |
| Rows.MeanBounds | backend/app.py:188-195 | the mean of values in [lo, hi] lies in [lo, hi] |
| Rows.PublishedForIgnores | backend/app.py:192 | an unpublished row or another student's row does not change the student's published rows |
| Gpa.WeightedGpa | backend/app.py:137-157 | SUM(gp * credit) / NULLIF(SUM(credit), 0), read with `or 0`: 0 when the credits sum to 0 |
| Gpa.SemesterRows | backend/app.py:122-131 | a row belongs to the semester group exactly when it is the student's, published and in that semester |
| Gpa.WeightedSumBounds | backend/app.py:124 | the weighted points lie between 0 and 4 times the credits |
| Gpa.WeightedGpaBounds | backend/app.py:137-157 | with grade points in [0, 4] and non-negative credits, a weighted GPA is in [0, 4] |
| Gpa.CumulativeGpa | backend/app.py:136-157 | the CGPA is 0 when the published credits sum to 0, and lies in [0, 4] when stored grade points come from the scale and credits are non-negative |
| Gpa.TotalCredits | backend/app.py:136-157 | the total credits of the published results are non-negative for non-negative course credits |
| Gpa.SemesterGpa | backend/app.py:122-152 | a semester GPA is 0 when that semester's credits sum to 0, and lies in [0, 4] for grade points from the scale |
| Gpa.SemesterCredits | backend/app.py:122-153 | a semester's credits are non-negative for non-negative course credits |
| Gpa.SemesterOrder | backend/app.py:122-132 | each semester appears once, and the list is ordered by (year, semester_id) |
| Gpa.Transcript | backend/app.py:122-154 | one summary per semester of SemesterOrder, in that order, each with a GPA in [0, 4] and non-negative credits for stored rows |
| Gpa.AggregatesIgnoreInvisibleRows | backend/app.py:89-155 | a draft or another student's result changes neither the CGPA, the total credits, the semester list nor the trend |
| Gpa.EqualCreditsTrendAgrees | backend/app.py:89-124 | when every course in a semester has the same positive credit, the unweighted trend value equals the weighted GPA |
| Gpa.WeightingExamples | backend/app.py:89-155 | credits 3 and 4 with points 4.0 and 2.0 give a CGPA of 20/7, not the mean of the semester GPAs; credits 3 and 1 give a GPA of 3.5 but a trend value of 3.0 |
| Gpa.SemesterOrderShape | backend/app.py:122-132 | the semesters listed are exactly those with a published result of the student |
| Gpa.Trend | backend/app.py:89-103 | one point per semester of SemesterOrder, in the same order as the transcript, each an unweighted average in [0, 4] for stored rows |
| Risk.Classify | backend/app.py:200-204 | the label is low exactly when attendance >= 85, average >= 3.0 and no F; it is medium exactly when all the high tests fail and one medium test holds |
| Risk.ClassifyMonotone | backend/app.py:200-204 | less attendance, a lower average or more F grades never lowers the label |
| Risk.ClassifyExamples | backend/app.py:200-204 | (70, 3.5, 0) is high; (90, 2.8, 0) is medium; (95, 3.8, 0) is low; the thresholds themselves fall on the safer side |
| Risk.AttendanceOf | backend/app.py:179-182 | the student's attendance rows are exactly those of the student's enrollments, whether results are published or not |
| Risk.AverageAttendance | backend/app.py:178-185 | 0 when the student has no attendance rows; in [0, 100] when the stored rows are well formed |
| Risk.ZeroClassRowCounts | backend/app.py:179 | a row with no classes held counts as 0%: 10 of 10 and 0 of 0 average to 50 |
| Risk.StudentRisk | backend/app.py:169-174 | the answer is unknown exactly when the user has no student record |
| Risk.NoPublishedResultsIsHigh | backend/app.py:188-202 | a student without published results has average 0 and F count 0, and so is labelled high |
| Risk.TwoFailsIsHigh | backend/app.py:188-202 | two or more published F grades give high whatever the rest |
| Risk.RiskIgnoresInvisibleRows | backend/app.py:188-192 | a draft or another student's result does not change the report |
| Risk.AttendanceCountsDraftCourses | backend/app.py:179-182 | an attendance row of the student's enrollment is averaged in, whether its result is published or not |
| Analytics.Published | backend/app.py:470 | a row is kept exactly when it is published |
| Analytics.LetterKeysMember | backend/app.py:467-471 | a letter is a group exactly when some published result has it |
| Analytics.GradeDistribution | backend/app.py:467-480 | one pair per letter present among published results, ordered by count, most frequent first |
| Analytics.GradeDistributionShape | backend/app.py:467-473 | each listed pair holds a letter present among published results and its nonzero count; every present letter is listed once |
| Analytics.GradeDistributionTotal | backend/app.py:467-473 | the counts add up to the number of published results |
| Analytics.CourseRows | backend/app.py:494-498 | a row is in a course's group exactly when it is published and of that course |
| Analytics.FailRate | backend/app.py:500 | fail_count / total_count lies in [0, 1] |
| Analytics.CourseIdsMember | backend/app.py:494-498 | a course is a group exactly when it has a published result |
| Analytics.CourseDifficulty | backend/app.py:489-510 | at most 10 courses, each with published results, ordered by fail rate, highest first, then by average percentage |
| Analytics.CourseDifficultySound | backend/app.py:489-508 | each listed course shows its own statistics, with a fail rate in [0, 1]; no course is listed twice |
| Analytics.CourseDifficultyComplete | backend/app.py:489-501 | a course with published results is left out only when 10 listed courses rank at or above it |
| Analytics.StudentIdsMember | backend/app.py:519-528 | a student is a group exactly when they have a published result |
| Analytics.StudentStatsShape | backend/app.py:519-528 | every summary is that student's own, with at least one course, and each student is summarised once |
| Analytics.StudentStatsHas | backend/app.py:519-528 | every student with a published result is summarised |
| Analytics.TopStudents | backend/app.py:519-538 | at most 10 students, each with two or more published results, ordered by average grade point, highest first, then by course count |
| Analytics.TopStudentsSound | backend/app.py:519-531 | each listed student shows their own statistics; no student is listed twice |
| Analytics.TopStudentsComplete | backend/app.py:519-531 | a student with two or more published results is left out only when 10 listed students rank at or above them |
| Analytics.AtRisk | backend/app.py:547-568 | at most 15 students, each with an average under 2.5 or two or more F grades, ordered by average, lowest first, then by F count |
| Analytics.AtRiskSound | backend/app.py:547-560 | each listed student has published results and shows their own statistics; no student is listed twice |
| Analytics.AtRiskComplete | backend/app.py:547-560 | a student with published results, an average under 2.5 or two or more F grades is left out only when 15 listed students rank at or before them |
| Analytics.AtRiskIsHigh | backend/app.py:547-560 | every listed student's own risk label is high, whatever their attendance |
| Analytics.DraftList | backend/app.py:637-653 | at most 200 results, all unpublished rows of the table, ordered by (year, semester_id) |
| Analytics.DraftListComplete | backend/app.py:647-649 | an unpublished result is left out only when 200 listed ones come no later |
| Analytics.PublishedNeverListed | backend/app.py:647 | a published result is never in the drafts list |
| Analytics.ShowNat | backend/app.py:1039 | the decimal digits of a number form an all-digit string |
| Analytics.DigitsValue | backend/app.py:1039-1044 | int() of a digit string: its last digit is the units digit; with ShowNat it round-trips and ignores a leading zero |
| Analytics.DigitsRoundTrip | backend/app.py:1039-1041 | reading back the digits of n gives n |
| Analytics.LeadingZero | backend/app.py:1041 | a leading zero does not change the value read |
| Analytics.ExportKeep | backend/app.py:1036-1044 | a kept row is published and, for each parameter written in digits, in that semester or course; with neither parameter in digits, exactly the published rows are kept |
| Analytics.ExportRows | backend/app.py:1032-1050 | only published results are exported |
| Analytics.ExportIgnoresMalformedParams | backend/app.py:1039-1044 | parameters that are not all digits filter nothing: every published result is exported |
| Analytics.ExportBySemester | backend/app.py:1039-1041 | a semester parameter written in digits, with or without a leading zero, keeps exactly that semester's published results |
| Analytics.ExportByCourse | backend/app.py:1042-1044 | a course parameter written in digits keeps exactly that course's published results |
| Analytics.ExportBySemesterAndCourse | backend/app.py:1036-1044 | with both parameters in digits, exactly the published results of that semester and course are kept |
| Join.GradedFromTable | backend/app.py:405-415 | rows joined from a results table whose grades come from the scale carry grade points from the scale |
| Join.ViewsOfConsistentTables | backend/app.py:122-204 | over tables that keep the handlers' invariants, the CGPA and every transcript GPA are in [0, 4], the average attendance is in [0, 100], and every row on the drafts list is a draft of the results table |

## Left out

- Authentication and sessions are not modelled: `require_role`, login and logout, password hashing and reset. They depend on the Flask session and on werkzeug.
- Flask and database plumbing is not modelled: routes, JSON parsing and replies, HTTP status codes, connections and cursors. The tables are maps, or joined row sequences, passed in or held by `Gradebook.Gradebook`.
- The component rows of the course are a parameter of `SubmitMarks`, not a table in the model. The item fields arrive already converted to numbers; `int()`/`float()` failures on the payload are not modelled.
- The mapping from the session user to a student record is not modelled for the GPA and trend views: they take the student id directly. For the risk view the missing record is modelled, as an `Option`.
- Presentation rounding (`round(..., 2)`, `round(..., 3)`) is not modelled, nor is Python float arithmetic. All arithmetic is exact over `real`.
- Risk.AverageAttendance: the per-row ratio is the exact real `attended / total`. The query at `backend/app.py:179` divides inside MySQL, and with integer count columns each quotient is a DECIMAL rounded to 4 places before the `* 100`. The source's average can therefore differ from the model's in the third decimal place, enough to move it across the 75 and 85 thresholds of `Risk.Classify`. For example, 39 of 44 and 48 of 59 average 85.00 in the source (label low when the other measures allow it) but 84.996 in the model (medium).
- Analytics.FailRate: the exact ratio is used. MySQL's integer division yields a 4-place decimal, so two courses whose rates differ only beyond that can tie in the source but not in the model.
- Ranking.TopN: rows with equal keys keep their input order. SQL leaves their order unspecified, so the lemmas state only sortedness, membership and the limit, never positions among ties.
- Analytics.DraftList: the source also orders by course code and student name after (year, semester_id). Names and codes are not part of `Row`, so ties beyond the semester keep their input order.
- Analytics.ExportRows: the `q` name/email `LIKE` filter, the `strip()` of parameters, Unicode digits accepted by `str.isdigit`, and the CSV column ordering and writing are not modelled.
- The PDF marksheet, the CSV writer and all JavaScript files are not modelled: they only render rows that have already been computed.
- The course, student, enrollment and assign-course CRUD are not modelled; their only rules are database uniqueness and non-empty checks. The exception is the attendance initialisation on enrollment, which is modelled.
- Gradebook.Gradebook.SubmitMarks: `nextResultId` advances only when a new result row is inserted. InnoDB's `INSERT ... ON DUPLICATE KEY UPDATE` can also use up an auto-increment value when it updates an existing row, so real result ids can skip numbers. The model's ids are one valid allocation; the lemmas rely only on ids being unique and below the next id.
- Column types and storage rounding are not modelled; the table schema is not part of this model. If `results.total_percent` is a fixed-scale DECIMAL, the stored percent is rounded while the letter comes from the unrounded total. For example, 79.996 would be stored as 80.00 with letter "A". `Results.GradesConsistent`, part of `Gradebook.Gradebook.Valid`, then describes the values as computed, not as stored at bracket edges.
- `published_at` is not modelled: the publish code never writes it.
- Top-student and at-risk groups are keyed by student id; the source groups by the student's user id, which maps one-to-one onto it. Names and emails are not carried.
- Concurrency and transactions are not modelled: each request is one atomic step.
