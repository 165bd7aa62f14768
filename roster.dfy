/**
 * The weekly view: the roster of a week (its records, then a zero-distance
 * row for every goal-table athlete who committed to a goal that week and has
 * no record), its ranked table, and the summary figures.
 */
module Roster {
  import opened Wrappers
  import opened Records
  import opened Registry
  import opened Ranking

  /** The goal index of a week in the weekly view: its number minus one. */
  function WeekIndex(week: Week): int {
    week.weekNum - 1
  }

  /** The zero-distance row of a committed athlete without a record; `rank` is the temporary 999. */
  function Placeholder(profiles: Profiles, id: string): (r: Runner)
    ensures r.athleteId == id && r.distance == 0 && r.rank == 999
    ensures id in profiles ==>
      r.firstname == profiles[id].firstname && r.lastname == profiles[id].lastname && r.picture == profiles[id].picture
    ensures id !in profiles ==> r.firstname == "Unknown" && r.lastname == "" && r.picture.None?
  {
    var p := Resolve(profiles, id);
    Runner(id, p.firstname, p.lastname, p.picture, 0, 999)
  }

  /** The goal-table ids, in order, whose goal at `index` is positive and that are not `present`. */
  function Synthesized(order: seq<string>, goals: GoalTable, profiles: Profiles, present: set<string>, index: int)
    : (s: seq<Runner>)
    ensures |s| <= |order|
    ensures forall i :: 0 <= i < |s| ==>
      && s[i] == Placeholder(profiles, s[i].athleteId)
      && s[i].athleteId in order
      && s[i].athleteId !in present
      && GoalAt(goals, s[i].athleteId, index) > 0.0
  {
    if |order| == 0 then []
    else
      var id := order[|order| - 1];
      Synthesized(order[..|order| - 1], goals, profiles, present, index)
        + (if GoalAt(goals, id, index) > 0.0 && id !in present then [Placeholder(profiles, id)] else [])
  }

  /** The roster of a week before sorting: its records in their order, then the synthesized rows. */
  function WeekRoster(week: Week, goals: GoalTable, order: seq<string>, profiles: Profiles): (r: seq<Runner>)
    ensures week.data <= r && |r| <= |week.data| + |order|
    ensures forall i :: |week.data| <= i < |r| ==> r[i].distance == 0 && r[i].athleteId !in IdsOf(week.data)
  {
    week.data + Synthesized(order, goals, profiles, IdsOf(week.data), WeekIndex(week))
  }

  /** No id occurs twice. */
  predicate DistinctIds(s: seq<Runner>) {
    forall i, j :: 0 <= i < j < |s| ==> s[i].athleteId != s[j].athleteId
  }

  // ---------------------------------------------------------------- roster properties

  /**
   * A goal-table id gets a synthesized row exactly when its goal for the
   * week is positive and the week has no record of it.
   */
  lemma {:induction false} SynthesizedExactly(order: seq<string>, goals: GoalTable, profiles: Profiles,
                                               present: set<string>, index: int, id: string)
    ensures id in IdsOf(Synthesized(order, goals, profiles, present, index))
        <==> id in order && GoalAt(goals, id, index) > 0.0 && id !in present
  {
    if |order| > 0 {
      var init := order[..|order| - 1];
      SynthesizedExactly(init, goals, profiles, present, index, id);
      assert order == init + [order[|order| - 1]];
      var prev := Synthesized(init, goals, profiles, present, index);
      var tail := if GoalAt(goals, order[|order| - 1], index) > 0.0 && order[|order| - 1] !in present
                  then [Placeholder(profiles, order[|order| - 1])] else [];
      IdsOfAppend(prev, tail);
    }
  }

  /** Distinct goal-table keys give distinct synthesized rows. */
  lemma {:induction false} SynthesizedDistinct(order: seq<string>, goals: GoalTable, profiles: Profiles,
                                                present: set<string>, index: int)
    requires DistinctKeys(order)
    ensures DistinctIds(Synthesized(order, goals, profiles, present, index))
  {
    if |order| > 0 {
      var init := order[..|order| - 1];
      var id := order[|order| - 1];
      SynthesizedDistinct(init, goals, profiles, present, index);
      var prev := Synthesized(init, goals, profiles, present, index);
      forall i | 0 <= i < |prev| ensures prev[i].athleteId != id {
        assert prev[i].athleteId in init;
      }
    }
  }

  /** A week whose records name each athlete once has a roster that names each athlete once. */
  lemma RosterDistinct(week: Week, goals: GoalTable, order: seq<string>, profiles: Profiles)
    requires DistinctIds(week.data) && DistinctKeys(order)
    ensures DistinctIds(WeekRoster(week, goals, order, profiles))
  {
    var syn := Synthesized(order, goals, profiles, IdsOf(week.data), WeekIndex(week));
    SynthesizedDistinct(order, goals, profiles, IdsOf(week.data), WeekIndex(week));
    var r := week.data + syn;
    forall i, j | 0 <= i < j < |r| ensures r[i].athleteId != r[j].athleteId {
      if i < |week.data| && j >= |week.data| {
        assert r[i] in week.data && r[j] == syn[j - |week.data|];
      } else if i >= |week.data| {
        assert r[i] == syn[i - |week.data|] && r[j] == syn[j - |week.data|];
      }
    }
  }

  /**
   * An athlete with goal `[10, 0, 5]` and no record gets no row in week 2
   * (goal 0) and a zero-distance row in week 3 (goal 5).
   */
  lemma CommitmentDecidesPresence(goals: GoalTable, order: seq<string>, profiles: Profiles, x: string,
                                  week2: Week, week3: Week)
    requires x in goals && goals[x] == [10.0, 0.0, 5.0] && x in order
    requires week2.weekNum == 2 && week3.weekNum == 3
    requires x !in IdsOf(week2.data) && x !in IdsOf(week3.data)
    ensures x !in IdsOf(WeekRoster(week2, goals, order, profiles))
    ensures Placeholder(profiles, x) in WeekRoster(week3, goals, order, profiles)
  {
    var syn2 := Synthesized(order, goals, profiles, IdsOf(week2.data), 1);
    var syn3 := Synthesized(order, goals, profiles, IdsOf(week3.data), 2);
    SynthesizedExactly(order, goals, profiles, IdsOf(week2.data), 1, x);
    SynthesizedExactly(order, goals, profiles, IdsOf(week3.data), 2, x);
    IdsOfAppend(week2.data, syn2);
    var r :| r in syn3 && r.athleteId == x;
  }

  // ---------------------------------------------------------------- ranking

  function Distance(r: Runner): int {
    r.distance
  }

  function WithRank(r: Runner, rank: int): Runner {
    r.(rank := rank)
  }

  /** Ranks by position: the i-th row gets rank i + 1. */
  function RankRows(s: seq<Runner>): (t: seq<Runner>)
    ensures |t| == |s|
    ensures forall i :: 0 <= i < |t| ==> t[i].rank == i + 1 && t[i] == s[i].(rank := i + 1)
  {
    seq(|s|, i requires 0 <= i < |s| => WithRank(s[i], i + 1))
  }

  /** The weekly table: the roster sorted by distance, longest first, then ranked. */
  function WeeklyTable(week: Week, goals: GoalTable, order: seq<string>, profiles: Profiles): (t: seq<Runner>)
    ensures |t| == |WeekRoster(week, goals, order, profiles)|
    ensures forall i :: 0 <= i < |t| ==> t[i].rank == i + 1
  {
    RankRows(StableSort(WeekRoster(week, goals, order, profiles), Distance))
  }

  /**
   * The table holds the roster's rows, each once, by non-increasing
   * distance, ranked 1..N, equal distances in roster order.
   */
  lemma WeeklyTableRanked(week: Week, goals: GoalTable, order: seq<string>, profiles: Profiles, d: int)
    ensures var roster := WeekRoster(week, goals, order, profiles);
      var sorted := StableSort(roster, Distance);
      var table := WeeklyTable(week, goals, order, profiles);
      && |table| == |roster|
      && multiset(sorted) == multiset(roster)
      && (forall i :: 0 <= i < |table| ==> table[i] == sorted[i].(rank := i + 1))
      && (forall i, j :: 0 <= i < j < |table| ==> table[i].distance >= table[j].distance)
      && WithKey(sorted, Distance, d) == WithKey(roster, Distance, d)
  {
    var roster := WeekRoster(week, goals, order, profiles);
    StableSortSorted(roster, Distance);
    StableSortPermutation(roster, Distance);
    StableSortStable(roster, Distance, d);
  }

  /** Two runners with the same distance: the one listed first is ranked first. */
  lemma TieKeepsRosterOrder(a: Runner, b: Runner)
    requires a.distance == b.distance
    ensures RankRows(StableSort([a, b], Distance)) == [a.(rank := 1), b.(rank := 2)]
  {
    assert [a, b][..1] == [a];
    assert [a][..0] == [];
    assert StableSort([a], Distance) == [a];
    assert Insert(b, [a], Distance) == [a] + Insert(b, [], Distance);
  }

  // ---------------------------------------------------------------- summary

  /** The summary's own roster: only ids and distances. */
  function IdsAndDistances(s: seq<Runner>): (p: seq<(string, nat)>)
    ensures |p| == |s|
    ensures forall i :: 0 <= i < |p| ==> p[i] == (s[i].athleteId, s[i].distance)
  {
    seq(|s|, i requires 0 <= i < |s| => (s[i].athleteId, s[i].distance))
  }

  function SumDistance(p: seq<(string, nat)>): nat {
    if |p| == 0 then 0 else SumDistance(p[..|p| - 1]) + p[|p| - 1].1
  }

  /** The sum of the week's goals of the roster's athletes, zeros included. */
  function SumGoal(p: seq<(string, nat)>, goals: GoalTable, index: int): real {
    if |p| == 0 then 0.0 else SumGoal(p[..|p| - 1], goals, index) + GoalAt(goals, p[|p| - 1].0, index)
  }

  /** How many rows have a positive goal that their distance reaches. */
  function CountMet(p: seq<(string, nat)>, goals: GoalTable, index: int): (n: nat)
    ensures n <= |p|
  {
    if |p| == 0 then 0
    else
      var g := GoalAt(goals, p[|p| - 1].0, index);
      CountMet(p[..|p| - 1], goals, index) + (if Met(g, p[|p| - 1].1) && g > 0.0 then 1 else 0)
  }

  /** How many rows have a positive goal. */
  function CountCommitted(p: seq<(string, nat)>, goals: GoalTable, index: int): nat {
    if |p| == 0 then 0
    else CountCommitted(p[..|p| - 1], goals, index) + (if GoalAt(goals, p[|p| - 1].0, index) > 0.0 then 1 else 0)
  }

  datatype WeekSummary = WeekSummary(totalRunners: nat, totalDistance: nat, totalGoal: real, goalsMet: nat)

  /** The summary figures of a roster. */
  function Summarize(p: seq<(string, nat)>, goals: GoalTable, index: int): (s: WeekSummary)
    ensures s.totalRunners == |p| && s.goalsMet <= s.totalRunners
  {
    WeekSummary(|p|, SumDistance(p), SumGoal(p, goals, index), CountMet(p, goals, index))
  }

  /** Only athletes with a positive goal can count as having met it. */
  lemma {:induction false} MetNeedsCommitment(p: seq<(string, nat)>, goals: GoalTable, index: int)
    ensures CountMet(p, goals, index) <= CountCommitted(p, goals, index)
  {
    if |p| > 0 {
      MetNeedsCommitment(p[..|p| - 1], goals, index);
    }
  }

  /** An athlete with goal 0 and distance 0 has met it, yet adds nothing to the goals met. */
  lemma ZeroGoalNotCounted(id: string, goals: GoalTable, index: int)
    requires GoalAt(goals, id, index) == 0.0
    ensures Met(GoalAt(goals, id, index), 0)
    ensures CountMet([(id, 0)], goals, index) == 0
  {
    assert [(id, 0)][..0] == [];
  }

  lemma {:induction false} SumDistanceAppend(a: seq<(string, nat)>, b: seq<(string, nat)>)
    ensures SumDistance(a + b) == SumDistance(a) + SumDistance(b)
  {
    if |b| > 0 {
      SumDistanceAppend(a, b[..|b| - 1]);
      assert (a + b)[..|a + b| - 1] == a + b[..|b| - 1];
    } else {
      assert a + b == a;
    }
  }

  lemma {:induction false} SumDistanceZero(p: seq<(string, nat)>)
    requires forall i :: 0 <= i < |p| ==> p[i].1 == 0
    ensures SumDistance(p) == 0
  {
    if |p| > 0 {
      SumDistanceZero(p[..|p| - 1]);
    }
  }

  /** The week's total distance is the distance of its records: synthesized rows add nothing. */
  lemma TotalDistanceIsRecorded(week: Week, goals: GoalTable, order: seq<string>, profiles: Profiles)
    ensures SumDistance(IdsAndDistances(WeekRoster(week, goals, order, profiles)))
         == SumDistance(IdsAndDistances(week.data))
  {
    var syn := Synthesized(order, goals, profiles, IdsOf(week.data), WeekIndex(week));
    assert IdsAndDistances(week.data + syn) == IdsAndDistances(week.data) + IdsAndDistances(syn);
    SumDistanceAppend(IdsAndDistances(week.data), IdsAndDistances(syn));
    SumDistanceZero(IdsAndDistances(syn));
  }

  // ---------------------------------------------------------------- the current week and the summary's rows

  /** `weeksData.find(w => w.id === currentWeekId)`: the first week with that id, none without a current week. */
  function FindWeek(weeks: seq<Week>, id: Option<string>): (w: Option<Week>)
    ensures w.Some? ==> id.Some? && w.value in weeks && w.value.id == id.value
    ensures w.None? <==> id.None? || forall k :: 0 <= k < |weeks| ==> weeks[k].id != id.value
    ensures w.Some? ==>
      exists k :: 0 <= k < |weeks| && weeks[k] == w.value && forall j :: 0 <= j < k ==> weeks[j].id != id.value
  {
    if id.None? || |weeks| == 0 then None
    else if weeks[0].id == id.value then
      assert weeks[0] == weeks[0];
      Some(weeks[0])
    else
      var w := FindWeek(weeks[1..], id);
      assert forall k :: 1 <= k < |weeks| ==> weeks[k] == weeks[1..][k - 1];
      if w.Some? then
        var k :| 0 <= k < |weeks| - 1 && weeks[1..][k] == w.value && forall j :: 0 <= j < k ==> weeks[1..][j].id != id.value;
        assert weeks[k + 1] == w.value;
        w
      else w
  }

  /** The summary's own rows for committed athletes without a record: the id and distance 0. */
  function Zeros(order: seq<string>, goals: GoalTable, present: set<string>, index: int): seq<(string, nat)> {
    if |order| == 0 then []
    else
      var id := order[|order| - 1];
      Zeros(order[..|order| - 1], goals, present, index)
        + (if GoalAt(goals, id, index) > 0.0 && id !in present then [(id, 0)] else [])
  }

  /** The rows the summary counts: the week's records, then the committed athletes without one. */
  function SummaryRows(week: Week, goals: GoalTable, order: seq<string>): (rows: seq<(string, nat)>)
    ensures IdsAndDistances(week.data) <= rows && |rows| <= |week.data| + |order|
    ensures forall i :: |week.data| <= i < |rows| ==> rows[i].1 == 0 && rows[i].0 !in IdsOf(week.data)
  {
    ZerosAreSynthesized(order, goals, map[], IdsOf(week.data), WeekIndex(week));
    IdsAndDistances(week.data) + Zeros(order, goals, IdsOf(week.data), WeekIndex(week))
  }

  lemma {:induction false} ZerosAreSynthesized(order: seq<string>, goals: GoalTable, profiles: Profiles,
                                                present: set<string>, index: int)
    ensures Zeros(order, goals, present, index) == IdsAndDistances(Synthesized(order, goals, profiles, present, index))
  {
    if |order| > 0 {
      var init, id := order[..|order| - 1], order[|order| - 1];
      ZerosAreSynthesized(init, goals, profiles, present, index);
      var prev := Synthesized(init, goals, profiles, present, index);
      var tail := if GoalAt(goals, id, index) > 0.0 && id !in present then [Placeholder(profiles, id)] else [];
      assert IdsAndDistances(prev + tail) == IdsAndDistances(prev) + IdsAndDistances(tail);
    }
  }

  /**
   * The summary rebuilds the roster on its own, yet counts the same ids
   * with the same distances, in the same order, as the table's roster.
   */
  lemma SummaryMatchesTable(week: Week, goals: GoalTable, order: seq<string>, profiles: Profiles)
    ensures SummaryRows(week, goals, order) == IdsAndDistances(WeekRoster(week, goals, order, profiles))
  {
    var syn := Synthesized(order, goals, profiles, IdsOf(week.data), WeekIndex(week));
    ZerosAreSynthesized(order, goals, profiles, IdsOf(week.data), WeekIndex(week));
    assert IdsAndDistances(week.data + syn) == IdsAndDistances(week.data) + IdsAndDistances(syn);
  }
}
