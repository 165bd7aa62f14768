/**
 * The values the dashboard works on: runner profiles, activity records,
 * loaded weeks, cumulative totals, and the goal table with its lookup and
 * the per-entry metrics derived from a goal and a distance.
 */
module Records {
  import opened Wrappers

  /** A display profile in the registry of runners, keyed by athlete id. */
  datatype Profile = Profile(firstname: string, lastname: string, picture: Option<string>)

  /**
   * An activity record of one week, and also a row of the weekly table:
   * `distance` is in metres, `rank` is whatever the record carried until the
   * table assigns it.
   */
  datatype Runner = Runner(
    athleteId: string,
    firstname: string,
    lastname: string,
    picture: Option<string>,
    distance: nat,
    rank: int)

  /** A loaded week file: its id (`week4`), display name (`Week 4`), number and records. */
  datatype Week = Week(id: string, name: string, weekNum: nat, data: seq<Runner>)

  /** A row of the all-time table. */
  datatype Totals = Totals(
    athleteId: string,
    totalDistance: nat,
    totalMissed: real,
    totalGoal: real,
    firstname: string,
    lastname: string,
    picture: Option<string>,
    rank: int)

  /** Athlete id to goals in km, index 0 being the first goal column. */
  type GoalTable = map<string, seq<real>>

  /** No id is listed twice. */
  predicate DistinctKeys(order: seq<string>) {
    forall i, j :: 0 <= i < j < |order| ==> order[i] != order[j]
  }

  /** Every key of the goal table is in its key order, and only those. */
  predicate Covers(order: seq<string>, goals: GoalTable) {
    goals.Keys == (set id | id in order)
  }

  /** A JavaScript truthiness test of an optional URL: present and non-empty. */
  predicate Truthy(url: Option<string>) {
    url.Some? && url.value != ""
  }

  /**
   * `(goalsData[id] || [])[index] || 0`: the stored goal, and 0 for an
   * unknown athlete or an index outside the vector (including -1).
   */
  function GoalAt(goals: GoalTable, id: string, index: int): (g: real)
    ensures id !in goals || index < 0 || index >= |goals[id]| ==> g == 0.0
    ensures id in goals && 0 <= index < |goals[id]| ==> g == goals[id][index]
  {
    if id in goals && 0 <= index < |goals[id]| then goals[id][index] else 0.0
  }

  /** A distance in metres, as kilometres. */
  function Km(distance: nat): real {
    distance as real / 1000.0
  }

  /** `distanceKm >= goalKm`: the entry's goal counts as met. */
  predicate Met(goal: real, distance: nat) {
    Km(distance) >= goal
  }

  /**
   * `Math.max(0, goalKm - distanceKm)`: never negative, zero exactly when
   * the goal is met, and otherwise the shortfall.
   */
  function Missed(goal: real, distance: nat): (m: real)
    ensures m >= 0.0
    ensures m == 0.0 <==> Met(goal, distance)
    ensures !Met(goal, distance) ==> Km(distance) + m == goal
  {
    if goal - Km(distance) > 0.0 then goal - Km(distance) else 0.0
  }

  /** A runner with no goal (or a negative one) has met it, whatever the distance. */
  lemma NoGoalIsMet(goal: real, distance: nat)
    requires goal <= 0.0
    ensures Met(goal, distance) && Missed(goal, distance) == 0.0
  {
  }

  /** The ids among some records. */
  function IdsOf(recs: seq<Runner>): set<string> {
    set r | r in recs :: r.athleteId
  }

  lemma IdsOfAppend(a: seq<Runner>, b: seq<Runner>)
    ensures IdsOf(a + b) == IdsOf(a) + IdsOf(b)
  {
    forall id | id in IdsOf(a + b) ensures id in IdsOf(a) + IdsOf(b) {
      var r :| r in a + b && r.athleteId == id;
    }
  }

  lemma IdsOfLast(recs: seq<Runner>)
    requires |recs| > 0
    ensures IdsOf(recs) == IdsOf(recs[..|recs| - 1]) + {recs[|recs| - 1].athleteId}
  {
    assert recs == recs[..|recs| - 1] + [recs[|recs| - 1]];
    IdsOfAppend(recs[..|recs| - 1], [recs[|recs| - 1]]);
    assert IdsOf([recs[|recs| - 1]]) == {recs[|recs| - 1].athleteId};
  }

  /** The earliest record of `id`, if any. */
  function FirstRecord(recs: seq<Runner>, id: string): (r: Option<Runner>)
    ensures r.Some? ==> r.value in recs && r.value.athleteId == id
    ensures r.None? <==> id !in IdsOf(recs)
  {
    if |recs| == 0 then None
    else
      var earlier := FirstRecord(recs[..|recs| - 1], id);
      assert recs == recs[..|recs| - 1] + [recs[|recs| - 1]];
      if earlier.Some? then earlier
      else if recs[|recs| - 1].athleteId == id then Some(recs[|recs| - 1])
      else None
  }

  /** The record `FirstRecord` finds is preceded by no record of the same id. */
  lemma {:induction false} FirstRecordIsFirst(recs: seq<Runner>, id: string)
    requires id in IdsOf(recs)
    ensures exists k :: 0 <= k < |recs| && recs[k] == FirstRecord(recs, id).value && id !in IdsOf(recs[..k])
  {
    var init := recs[..|recs| - 1];
    IdsOfLast(recs);
    if id in IdsOf(init) {
      FirstRecordIsFirst(init, id);
      var k :| 0 <= k < |init| && init[k] == FirstRecord(init, id).value && id !in IdsOf(init[..k]);
      assert recs[..k] == init[..k];
    } else {
      assert recs[..|recs| - 1] == init;
    }
  }
}
