/**
 * Mark submission for one enrollment: each submitted item is clamped to its
 * component's range and upserted into the marks table, then the total
 * percentage is the weighted sum over all of the course's components.
 */
module Marks {
  import opened Wrappers
  import opened Sums

  /** A mark_components row as read for one course. */
  datatype ComponentRow = ComponentRow(compId: int, maxMarks: real, weight: real)

  /** What the submission keeps of a component row. */
  datatype Component = Component(maxMarks: real, weight: real)

  /** One submitted item: a component id and a raw obtained value. */
  datatype Item = Item(compId: int, obtained: real)

  /** The marks table: (enroll_id, comp_id) -> obtained_marks. */
  type MarkTable = map<(int, int), real>

  /** The course's components keyed by id; a later row with the same id replaces an earlier one. */
  function CompMap(rows: seq<ComponentRow>): (m: map<int, Component>)
    ensures m.Keys == set i | 0 <= i < |rows| :: rows[i].compId
  {
    if rows == [] then map[]
    else
      var last := rows[|rows| - 1];
      CompMap(rows[..|rows| - 1])[last.compId := Component(last.maxMarks, last.weight)]
  }

  /** The last row carrying an id is the one the map keeps for it. */
  lemma {:induction false} CompMapLastWins(rows: seq<ComponentRow>, i: int)
    requires 0 <= i < |rows|
    requires forall j :: i < j < |rows| ==> rows[j].compId != rows[i].compId
    ensures CompMap(rows)[rows[i].compId] == Component(rows[i].maxMarks, rows[i].weight)
  {
    if i < |rows| - 1 {
      var init := rows[..|rows| - 1];
      assert forall j :: i < j < |init| ==> init[j] == rows[j];
      CompMapLastWins(init, i);
    }
  }

  /** max(0, min(x, mx)): the obtained value forced into [0, mx]. */
  function Clamp(x: real, mx: real): (r: real)
    ensures mx >= 0.0 ==> 0.0 <= r <= mx
    ensures 0.0 <= x <= mx ==> r == x
    ensures 0.0 <= mx < x ==> r == mx
    ensures x < 0.0 || mx < 0.0 ==> r == 0.0
  {
    var low := if x < mx then x else mx;
    if 0.0 > low then 0.0 else low
  }

  /**
   * One item of the loop: an unknown component leaves the table as it is; a
   * known one stores a value in [0, max] under (enroll, comp) and no other
   * key changes.
   */
  function UpsertMark(m: MarkTable, enroll: int, comps: map<int, Component>, it: Item): (r: MarkTable)
    ensures it.compId !in comps ==> r == m
    ensures it.compId in comps ==> r.Keys == m.Keys + {(enroll, it.compId)}
    ensures it.compId in comps && comps[it.compId].maxMarks >= 0.0 ==>
              0.0 <= r[(enroll, it.compId)] <= comps[it.compId].maxMarks
    ensures forall k :: k in m && k != (enroll, it.compId) ==> r[k] == m[k]
  {
    if it.compId !in comps then m
    else m[(enroll, it.compId) := Clamp(it.obtained, comps[it.compId].maxMarks)]
  }

  /**
   * The marks table after the items have been processed in order: no row is
   * deleted, and only this enrollment's rows for the course's components are
   * added or changed.
   */
  function ApplyItems(m: MarkTable, enroll: int, comps: map<int, Component>, items: seq<Item>): (r: MarkTable)
    ensures forall k :: k in m ==> k in r
    ensures forall k :: k in r && (k !in m || r[k] != m[k]) ==> k.0 == enroll && k.1 in comps
    decreases |items|
  {
    if items == [] then m
    else UpsertMark(ApplyItems(m, enroll, comps, items[..|items| - 1]), enroll, comps, items[|items| - 1])
  }

  /** The value carried by the last item for component `c`, if any. */
  function LastObtained(items: seq<Item>, c: int): (r: Option<real>)
    ensures r.None? <==> forall i :: 0 <= i < |items| ==> items[i].compId != c
    ensures r.Some? ==> exists i :: 0 <= i < |items| && items[i].compId == c && items[i].obtained == r.value
                                   && forall j :: i < j < |items| ==> items[j].compId != c
  {
    if items == [] then None
    else if items[|items| - 1].compId == c then Some(items[|items| - 1].obtained)
    else LastObtained(items[..|items| - 1], c)
  }

  /** The items whose component belongs to the course. */
  function Known(comps: map<int, Component>, items: seq<Item>): (r: seq<Item>)
    ensures forall i :: 0 <= i < |r| ==> r[i].compId in comps
    ensures forall it :: it in r <==> it in items && it.compId in comps
  {
    if items == [] then []
    else
      var rest := Known(comps, items[..|items| - 1]);
      if items[|items| - 1].compId in comps then rest + [items[|items| - 1]] else rest
  }

  /**
   * What a submission does to each key of the marks table: a known component
   * named by some item ends with the clamped value of its LAST item; every other
   * key (other enrollments, unknown or unsubmitted components) is untouched.
   */
  lemma {:induction false} ApplyItemsAt(m: MarkTable, enroll: int, comps: map<int, Component>, items: seq<Item>, k: (int, int))
    ensures var r := ApplyItems(m, enroll, comps, items);
            if k.0 == enroll && k.1 in comps && LastObtained(items, k.1).Some? then
              k in r && r[k] == Clamp(LastObtained(items, k.1).value, comps[k.1].maxMarks)
            else
              (k in r <==> k in m) && (k in m ==> r[k] == m[k])
    decreases |items|
  {
    if items != [] {
      ApplyItemsAt(m, enroll, comps, items[..|items| - 1], k);
    }
  }

  /** Items for components outside the course change nothing: dropping them gives the same table. */
  lemma {:induction false} UnknownItemsIgnored(m: MarkTable, enroll: int, comps: map<int, Component>, items: seq<Item>)
    ensures ApplyItems(m, enroll, comps, items) == ApplyItems(m, enroll, comps, Known(comps, items))
    decreases |items|
  {
    if items != [] {
      var init := items[..|items| - 1];
      var last := items[|items| - 1];
      UnknownItemsIgnored(m, enroll, comps, init);
      if last.compId in comps {
        var kn := Known(comps, init) + [last];
        assert kn[..|kn| - 1] == Known(comps, init);
      }
    }
  }

  /** Submitting the same items twice leaves the same marks table as submitting them once. */
  lemma ApplyItemsIdempotent(m: MarkTable, enroll: int, comps: map<int, Component>, items: seq<Item>)
    ensures ApplyItems(ApplyItems(m, enroll, comps, items), enroll, comps, items) == ApplyItems(m, enroll, comps, items)
  {
    var once := ApplyItems(m, enroll, comps, items);
    var twice := ApplyItems(once, enroll, comps, items);
    forall k | k in once || k in twice
      ensures k in once && k in twice && twice[k] == once[k]
    {
      ApplyItemsAt(m, enroll, comps, items, k);
      ApplyItemsAt(once, enroll, comps, items, k);
    }
  }

  /** Every stored mark of this enrollment for a component with max >= 0 lies in [0, max]. */
  ghost predicate MarksInRange(m: MarkTable, enroll: int, comps: map<int, Component>) {
    forall c :: c in comps && (enroll, c) in m && comps[c].maxMarks >= 0.0 ==>
      0.0 <= m[(enroll, c)] <= comps[c].maxMarks
  }

  /** A submission keeps the stored marks in range, and every mark it writes is in range. */
  lemma SubmissionKeepsRange(m: MarkTable, enroll: int, comps: map<int, Component>, items: seq<Item>)
    requires MarksInRange(m, enroll, comps)
    ensures MarksInRange(ApplyItems(m, enroll, comps, items), enroll, comps)
  {
    var r := ApplyItems(m, enroll, comps, items);
    forall c | c in comps && (enroll, c) in r && comps[c].maxMarks >= 0.0
      ensures 0.0 <= r[(enroll, c)] <= comps[c].maxMarks
    {
      ApplyItemsAt(m, enroll, comps, items, (enroll, c));
    }
  }

  /** A submitted mark for a known component with max >= 0 is stored within [0, max]. */
  lemma SubmittedMarkInRange(m: MarkTable, enroll: int, comps: map<int, Component>, items: seq<Item>, c: int)
    requires c in comps && comps[c].maxMarks >= 0.0
    requires exists i :: 0 <= i < |items| && items[i].compId == c
    ensures (enroll, c) in ApplyItems(m, enroll, comps, items)
    ensures 0.0 <= ApplyItems(m, enroll, comps, items)[(enroll, c)] <= comps[c].maxMarks
  {
    ApplyItemsAt(m, enroll, comps, items, (enroll, c));
  }

  /** The stored mark of a component, or 0 when there is none. */
  function Stored(m: MarkTable, enroll: int, c: int): real {
    if (enroll, c) in m then m[(enroll, c)] else 0.0
  }

  /** (obtained / max) * weight, or 0 without dividing when max <= 0. */
  function Contribution(comp: Component, obtained: real): (r: real)
    ensures 0.0 <= obtained <= comp.maxMarks && comp.weight >= 0.0 ==> 0.0 <= r <= comp.weight
  {
    if comp.maxMarks > 0.0 then (obtained / comp.maxMarks) * comp.weight else 0.0
  }

  /** Each component's contribution for this enrollment, read from the marks table. */
  function ContribFn(m: MarkTable, enroll: int, comps: map<int, Component>): int -> real {
    c => if c in comps then Contribution(comps[c], Stored(m, enroll, c)) else 0.0
  }

  /** The running total over some of the components. */
  ghost function PartialTotal(m: MarkTable, enroll: int, comps: map<int, Component>, keys: set<int>): real {
    SumOver(keys, ContribFn(m, enroll, comps))
  }

  /**
   * total_percent: the sum over all of the course's components. With
   * non-negative weights and marks in range, it lies in [0, sum of weights].
   */
  ghost function TotalPercent(m: MarkTable, enroll: int, comps: map<int, Component>): (t: real)
    ensures (forall c :: c in comps ==> comps[c].weight >= 0.0) && MarksInRange(m, enroll, comps) ==>
              0.0 <= t <= WeightSum(comps)
  {
    var f := ContribFn(m, enroll, comps);
    assert (forall c :: c in comps ==> comps[c].weight >= 0.0) && MarksInRange(m, enroll, comps) ==>
             0.0 <= SumOver(comps.Keys, f) <= WeightSum(comps) by {
      if (forall c :: c in comps ==> comps[c].weight >= 0.0) && MarksInRange(m, enroll, comps) {
        var zero: int -> real := c => 0.0;
        forall c | c in comps.Keys ensures zero(c) <= f(c) <= WeightFn(comps)(c) {
          if comps[c].maxMarks > 0.0 {
            assert 0.0 <= Stored(m, enroll, c) <= comps[c].maxMarks;
          }
        }
        SumOverMono(comps.Keys, f, WeightFn(comps));
        SumOverMono(comps.Keys, zero, f);
        SumOverZero(comps.Keys, zero);
      }
    }
    PartialTotal(m, enroll, comps, comps.Keys)
  }

  function WeightFn(comps: map<int, Component>): int -> real {
    c => if c in comps then comps[c].weight else 0.0
  }

  /** The sum of the course's weights (100 when the course is configured as intended). */
  ghost function WeightSum(comps: map<int, Component>): real {
    SumOver(comps.Keys, WeightFn(comps))
  }

  /** Taking one component out of the running total. */
  lemma PartialTotalRemove(m: MarkTable, enroll: int, comps: map<int, Component>, keys: set<int>, c: int)
    requires c in keys && c in comps
    ensures PartialTotal(m, enroll, comps, keys)
         == Contribution(comps[c], Stored(m, enroll, c)) + PartialTotal(m, enroll, comps, keys - {c})
  {
    SumOverRemove(keys, ContribFn(m, enroll, comps), c);
  }

  /** The total reads only this enrollment's marks for the course's components. */
  lemma TotalDependsOnlyOnOwnMarks(m1: MarkTable, m2: MarkTable, enroll: int, comps: map<int, Component>)
    requires forall c :: c in comps ==> Stored(m1, enroll, c) == Stored(m2, enroll, c)
    ensures TotalPercent(m1, enroll, comps) == TotalPercent(m2, enroll, comps)
  {
    SumOverExt(comps.Keys, ContribFn(m1, enroll, comps), ContribFn(m2, enroll, comps));
  }

  /**
   * A component left out of the submission keeps its previously stored mark and
   * still contributes with it; a submitted one contributes its clamped last value.
   */
  lemma ContributionAfterSubmit(m: MarkTable, enroll: int, comps: map<int, Component>, items: seq<Item>, c: int)
    requires c in comps
    ensures var r := ApplyItems(m, enroll, comps, items);
            Stored(r, enroll, c) ==
              match LastObtained(items, c)
              case None => Stored(m, enroll, c)
              case Some(v) => Clamp(v, comps[c].maxMarks)
  {
    ApplyItemsAt(m, enroll, comps, items, (enroll, c));
  }

  /**
   * Worked case: max 50 / weight 30 with 25 obtained, and max 50 / weight 70
   * with 60 submitted (clamped to 50), total 15 + 70 = 85.
   */
  lemma {:induction false} TotalExample(m: MarkTable, enroll: int)
    ensures var comps := map[1 := Component(50.0, 30.0), 2 := Component(50.0, 70.0)];
            TotalPercent(ApplyItems(m, enroll, comps, [Item(1, 25.0), Item(2, 60.0)]), enroll, comps) == 85.0
  {
    var comps := map[1 := Component(50.0, 30.0), 2 := Component(50.0, 70.0)];
    var items := [Item(1, 25.0), Item(2, 60.0)];
    var r := ApplyItems(m, enroll, comps, items);
    assert items[..1][..0] == [];
    assert ApplyItems(m, enroll, comps, items[..1]) == m[(enroll, 1) := 25.0];
    assert r == m[(enroll, 1) := 25.0][(enroll, 2) := 50.0];
    assert comps.Keys == {1, 2};
    PartialTotalRemove(r, enroll, comps, {1, 2}, 1);
    assert {1, 2} - {1} == {2};
    PartialTotalRemove(r, enroll, comps, {2}, 2);
    assert {2} - {2} == {};
  }
}
