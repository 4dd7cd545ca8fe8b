/**
 * The results table, one row per enrollment: the computed percent, letter and
 * grade point, and the is_published visibility flag. Upsert from a mark
 * submission, publish/unpublish by result_id, and the draft view.
 */
module Results {
  import opened GradeScale

  datatype ResultRow = ResultRow(resultId: int, totalPercent: real, letter: Letter, gradePoint: real, published: bool)

  /** enroll_id -> its result row (enroll_id is a unique key of the table). */
  type ResultTable = map<int, ResultRow>

  /** Every stored letter and grade point is the scale's value for the stored percent. */
  ghost predicate GradesConsistent(t: ResultTable) {
    forall e :: e in t ==> Grade(t[e].letter, t[e].gradePoint) == CalcGrade(t[e].totalPercent)
  }

  /** result_id is a key: no two rows share one. */
  ghost predicate IdsUnique(t: ResultTable) {
    forall e1, e2 :: e1 in t && e2 in t && e1 != e2 ==> t[e1].resultId != t[e2].resultId
  }

  /** Every result_id handed out so far is below the next auto-increment value. */
  ghost predicate IdsBelow(t: ResultTable, next: int) {
    forall e :: e in t ==> t[e].resultId < next
  }

  /**
   * INSERT ... VALUES (..., 0) ON DUPLICATE KEY UPDATE percent, letter, point:
   * a new row is a draft with the fresh id; an existing row keeps its id and
   * its is_published flag. No other row changes.
   */
  function UpsertResult(t: ResultTable, enroll: int, percent: real, freshId: int): (r: ResultTable)
    ensures r.Keys == t.Keys + {enroll}
    ensures r[enroll].totalPercent == percent
    ensures Grade(r[enroll].letter, r[enroll].gradePoint) == CalcGrade(percent)
    ensures enroll !in t ==> r[enroll].resultId == freshId && !r[enroll].published
    ensures enroll in t ==> r[enroll].resultId == t[enroll].resultId && r[enroll].published == t[enroll].published
    ensures forall e :: e in t && e != enroll ==> r[e] == t[e]
  {
    var g := CalcGrade(percent);
    if enroll in t then
      t[enroll := t[enroll].(totalPercent := percent, letter := g.letter, gradePoint := g.point)]
    else
      t[enroll := ResultRow(freshId, percent, g.letter, g.point, false)]
  }

  /** UPDATE results SET is_published = publish WHERE result_id = id. */
  function SetPublished(t: ResultTable, id: int, publish: bool): (r: ResultTable)
    ensures r.Keys == t.Keys
  {
    map e | e in t :: if t[e].resultId == id then t[e].(published := publish) else t[e]
  }

  /** The drafts view: the enrollments whose result is not published. */
  function Drafts(t: ResultTable): (d: set<int>)
    ensures forall e :: e in d <==> e in t && !t[e].published
  {
    set e | e in t && !t[e].published
  }

  /** The upsert keeps the table's invariants when it is handed the next auto-increment id. */
  lemma UpsertKeepsInvariants(t: ResultTable, enroll: int, percent: real, next: int)
    requires GradesConsistent(t) && IdsUnique(t) && IdsBelow(t, next)
    ensures var r := UpsertResult(t, enroll, percent, next);
            GradesConsistent(r) && IdsUnique(r) && IdsBelow(r, next + 1)
  {
  }

  /** A resubmission does not revoke publication: the flag survives the recompute. */
  lemma ResubmitKeepsPublication(t: ResultTable, enroll: int, percent: real, freshId: int)
    requires enroll in t
    ensures UpsertResult(t, enroll, percent, freshId)[enroll].published == t[enroll].published
    ensures t[enroll].published ==> enroll !in Drafts(UpsertResult(t, enroll, percent, freshId))
  {
  }

  /** Upserting the same percent twice gives the same table as once, whatever id the second call is offered. */
  lemma UpsertIdempotent(t: ResultTable, enroll: int, percent: real, id1: int, id2: int)
    ensures var once := UpsertResult(t, enroll, percent, id1);
            UpsertResult(once, enroll, percent, id2) == once
  {
  }

  /**
   * Publishing changes only the flag, and only on rows with that result_id;
   * percent, letter, point and id stay as they were.
   */
  lemma PublishChangesOnlyFlag(t: ResultTable, id: int, publish: bool, e: int)
    requires e in t
    ensures var r := SetPublished(t, id, publish);
            r[e].resultId == t[e].resultId && r[e].totalPercent == t[e].totalPercent
            && r[e].letter == t[e].letter && r[e].gradePoint == t[e].gradePoint
            && r[e].published == (if t[e].resultId == id then publish else t[e].published)
  {
  }

  /** An id that matches no row changes nothing (the caller is still told it succeeded). */
  lemma PublishUnknownIsNoop(t: ResultTable, id: int, publish: bool)
    requires forall e :: e in t ==> t[e].resultId != id
    ensures SetPublished(t, id, publish) == t
  {
    var r := SetPublished(t, id, publish);
    forall e | e in t ensures r[e] == t[e] {
    }
  }

  /** Repeating a publish call is idempotent, and of two calls on the same id the last wins. */
  lemma PublishLastWins(t: ResultTable, id: int, p: bool, q: bool)
    ensures SetPublished(SetPublished(t, id, p), id, q) == SetPublished(t, id, q)
    ensures SetPublished(SetPublished(t, id, p), id, p) == SetPublished(t, id, p)
  {
  }

  /** Unpublishing a result that was published from draft restores the table. */
  lemma UnpublishUndoesPublish(t: ResultTable, id: int)
    requires forall e :: e in t && t[e].resultId == id ==> !t[e].published
    ensures SetPublished(SetPublished(t, id, true), id, false) == t
  {
    var r := SetPublished(SetPublished(t, id, true), id, false);
    forall e | e in t ensures r[e] == t[e] {
    }
  }

  /** Publishing keeps the stored grades consistent and the ids unique. */
  lemma PublishKeepsInvariants(t: ResultTable, id: int, publish: bool, next: int)
    requires GradesConsistent(t) && IdsUnique(t) && IdsBelow(t, next)
    ensures var r := SetPublished(t, id, publish);
            GradesConsistent(r) && IdsUnique(r) && IdsBelow(r, next)
  {
  }

  /**
   * The drafts view after a publish call: the row with that id leaves it on
   * publish and enters it on unpublish; every other row keeps its status.
   */
  lemma DraftsAfterPublish(t: ResultTable, id: int, publish: bool)
    ensures var d := Drafts(SetPublished(t, id, publish));
            forall e :: e in t ==>
              (e in d <==> if t[e].resultId == id then !publish else e in Drafts(t))
  {
  }
}
