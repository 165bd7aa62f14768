/**
 * The all-time view: one entry per athlete across every loaded week. Goal
 * athletes are seeded first, every activity record is then folded in, the
 * full goal is charged for each week an athlete committed to and has no
 * record in, and the entries are sorted by total distance and ranked.
 *
 * Unlike the weekly view, a week's goal here is looked up by the week's
 * POSITION in the list of loaded weeks, not by its number.
 */
module AllTime {
  import opened Wrappers
  import opened Records
  import opened Registry
  import opened Ranking
  import opened Roster

  /** `goals.reduce((sum, goal) => sum + (goal || 0), 0)`. */
  function SumGoals(v: seq<real>): real {
    if |v| == 0 then 0.0 else SumGoals(v[..|v| - 1]) + v[|v| - 1]
  }

  /** The starting entry of a goal-table athlete: names from the registry, `'Unknown'`/`''` when missing. */
  function Seed(profiles: Profiles, id: string, goal: seq<real>): Totals {
    var first := if id in profiles && profiles[id].firstname != "" then profiles[id].firstname else "Unknown";
    var last := if id in profiles then profiles[id].lastname else "";
    var picture := if id in profiles then profiles[id].picture else None;
    Totals(id, 0, 0.0, SumGoals(goal), first, last, picture, 0)
  }

  /**
   * A seeded entry holds no distance and no shortfall yet, the whole vector as
   * its total goal, and the registry's names, never an empty first name.
   */
  lemma SeedFields(profiles: Profiles, id: string, goal: seq<real>)
    ensures var t := Seed(profiles, id, goal);
      && t.athleteId == id && t.totalDistance == 0 && t.totalMissed == 0.0 && t.rank == 0
      && t.totalGoal == SumGoals(goal)
      && t.firstname != ""
      && (id in profiles && profiles[id].firstname != "" ==> t.firstname == profiles[id].firstname)
      && (id in profiles && profiles[id].firstname == "" ==> t.firstname == "Unknown")
      && (id in profiles ==> t.lastname == profiles[id].lastname && t.picture == profiles[id].picture)
      && (id !in profiles ==> t.firstname == "Unknown" && t.lastname == "" && t.picture.None?)
  {
  }

  /** The starting entry of an athlete first met in an activity record. */
  function Fresh(r: Runner): Totals {
    Totals(r.athleteId, 0, 0.0, 0.0, r.firstname, r.lastname, r.picture, 0)
  }

  /** An entry with some distance and some shortfall added. */
  function Add(t: Totals, distance: nat, missed: real): Totals {
    t.(totalDistance := t.totalDistance + distance, totalMissed := t.totalMissed + missed)
  }

  /** The entries so far, and the order their keys were created in. */
  datatype Acc = Acc(totals: map<string, Totals>, keys: seq<string>)

  /** Each key listed once, the listed keys are the map's, and every entry carries its own id. */
  predicate Keyed(a: Acc) {
    && DistinctKeys(a.keys)
    && a.totals.Keys == (set id | id in a.keys)
    && (forall id :: id in a.totals ==> a.totals[id].athleteId == id)
  }

  // ---------------------------------------------------------------- first pass: goal athletes

  /** The entries after seeding the goal athletes in key order. */
  function SeedAll(order: seq<string>, goals: GoalTable, profiles: Profiles): (a: Acc)
    requires forall id :: id in order ==> id in goals
    ensures Keyed(a)
  {
    if |order| == 0 then Acc(map[], [])
    else
      var a := SeedAll(order[..|order| - 1], goals, profiles);
      var id := order[|order| - 1];
      var keys := if id in a.totals then a.keys else a.keys + [id];
      assert forall i :: 0 <= i < |a.keys| ==> a.keys[i] in a.totals;
      Acc(a.totals[id := Seed(profiles, id, goals[id])], keys)
  }

  // ---------------------------------------------------------------- second pass: the records

  /** Every record of every week, tagged with the week's position in the list. */
  function Tagged(weeks: seq<Week>): (t: seq<(nat, Runner)>)
    ensures forall k :: 0 <= k < |t| ==> t[k].0 < |weeks|
  {
    if |weeks| == 0 then []
    else Tagged(weeks[..|weeks| - 1]) + Tag(|weeks| - 1, weeks[|weeks| - 1].data)
  }

  function Tag(w: nat, data: seq<Runner>): (t: seq<(nat, Runner)>)
    ensures |t| == |data|
    ensures forall k :: 0 <= k < |t| ==> t[k] == (w, data[k])
  {
    seq(|data|, k requires 0 <= k < |data| => (w, data[k]))
  }

  /** One record: creates the athlete's entry if needed, adds the distance and the week's shortfall. */
  function Step(a: Acc, goals: GoalTable, w: nat, r: Runner): (b: Acc)
    ensures b.totals.Keys == a.totals.Keys + {r.athleteId}
    ensures b.keys == if r.athleteId in a.totals then a.keys else a.keys + [r.athleteId]
  {
    var id := r.athleteId;
    var t := if id in a.totals then a.totals[id] else Fresh(r);
    Acc(a.totals[id := Add(t, r.distance, Missed(GoalAt(goals, id, w), r.distance))],
        if id in a.totals then a.keys else a.keys + [id])
  }

  /** A record keeps the entries keyed. */
  lemma StepKeyed(a: Acc, goals: GoalTable, w: nat, r: Runner)
    requires Keyed(a)
    ensures Keyed(Step(a, goals, w, r))
  {
    assert forall i :: 0 <= i < |a.keys| ==> a.keys[i] in a.totals;
  }

  lemma {:induction false} FoldKeyed(a: Acc, goals: GoalTable, recs: seq<(nat, Runner)>)
    requires Keyed(a)
    ensures Keyed(Fold(a, goals, recs))
  {
    if |recs| > 0 {
      var last := recs[|recs| - 1];
      FoldKeyed(a, goals, recs[..|recs| - 1]);
      StepKeyed(Fold(a, goals, recs[..|recs| - 1]), goals, last.0, last.1);
    }
  }

  /** The records, folded in order. */
  function Fold(a: Acc, goals: GoalTable, recs: seq<(nat, Runner)>): Acc {
    if |recs| == 0 then a
    else
      var last := recs[|recs| - 1];
      Step(Fold(a, goals, recs[..|recs| - 1]), goals, last.0, last.1)
  }

  lemma FoldSnoc(a: Acc, goals: GoalTable, recs: seq<(nat, Runner)>, x: (nat, Runner))
    ensures Fold(a, goals, recs + [x]) == Step(Fold(a, goals, recs), goals, x.0, x.1)
  {
    assert (recs + [x])[..|recs|] == recs;
  }

  /** One more record of week `w` is one more step of the fold. */
  lemma FoldTagStep(a: Acc, goals: GoalTable, done: seq<(nat, Runner)>, w: nat, data: seq<Runner>, i: nat)
    requires i < |data|
    ensures Fold(a, goals, done + Tag(w, data[..i + 1])) == Step(Fold(a, goals, done + Tag(w, data[..i])), goals, w, data[i])
  {
    var before := done + Tag(w, data[..i]);
    assert done + Tag(w, data[..i + 1]) == before + [(w, data[i])];
    FoldSnoc(a, goals, before, (w, data[i]));
  }

  lemma TagEnds(done: seq<(nat, Runner)>, w: nat, data: seq<Runner>)
    ensures done + Tag(w, data[..0]) == done
    ensures Tag(w, data[..|data|]) == Tag(w, data)
  {
    assert data[..|data|] == data;
  }

  lemma TaggedPrefix(weeks: seq<Week>, w: nat)
    requires w < |weeks|
    ensures Tagged(weeks[..w + 1]) == Tagged(weeks[..w]) + Tag(w, weeks[w].data)
  {
    assert weeks[..w + 1][..w] == weeks[..w];
  }

  /** Some record is `id`'s. */
  predicate Mentions(recs: seq<(nat, Runner)>, id: string) {
    |recs| > 0 && (Mentions(recs[..|recs| - 1], id) || recs[|recs| - 1].1.athleteId == id)
  }

  /** `id`'s earliest record. */
  function FirstOf(recs: seq<(nat, Runner)>, id: string): (r: Option<Runner>)
    ensures r.Some? ==> r.value.athleteId == id
    ensures r.None? <==> !Mentions(recs, id)
  {
    if |recs| == 0 then None
    else
      var earlier := FirstOf(recs[..|recs| - 1], id);
      if earlier.Some? then earlier
      else if recs[|recs| - 1].1.athleteId == id then Some(recs[|recs| - 1].1)
      else None
  }

  /** The record `FirstOf` finds is in `recs`, and no record before it is `id`'s. */
  lemma {:induction false} FirstOfIsFirst(recs: seq<(nat, Runner)>, id: string)
    requires Mentions(recs, id)
    ensures exists k :: 0 <= k < |recs| && recs[k].1 == FirstOf(recs, id).value && !Mentions(recs[..k], id)
  {
    var init := recs[..|recs| - 1];
    if Mentions(init, id) {
      FirstOfIsFirst(init, id);
      var k :| 0 <= k < |init| && init[k].1 == FirstOf(init, id).value && !Mentions(init[..k], id);
      assert recs[..k] == init[..k];
    } else {
      assert recs[..|recs| - 1] == init;
    }
  }

  /** The ids in the order their first record comes, leaving out those in `seen`. */
  function Encounter(seen: set<string>, recs: seq<(nat, Runner)>): (e: seq<string>)
    ensures DistinctKeys(e)
    ensures forall id :: id in e <==> id !in seen && Mentions(recs, id)
  {
    if |recs| == 0 then []
    else
      var e := Encounter(seen, recs[..|recs| - 1]);
      var id := recs[|recs| - 1].1.athleteId;
      if id in seen || id in e then e else e + [id]
  }

  /** The sum of `id`'s distances. */
  function DistanceOf(recs: seq<(nat, Runner)>, id: string): nat {
    if |recs| == 0 then 0
    else
      var r := recs[|recs| - 1].1;
      DistanceOf(recs[..|recs| - 1], id) + (if r.athleteId == id then r.distance else 0)
  }

  /** The sum, over `id`'s records, of the shortfall against that record's week goal. */
  function RecordsMissed(recs: seq<(nat, Runner)>, goals: GoalTable, id: string): (m: real)
    ensures m >= 0.0
  {
    if |recs| == 0 then 0.0
    else
      var last := recs[|recs| - 1];
      RecordsMissed(recs[..|recs| - 1], goals, id)
        + (if last.1.athleteId == id then Missed(GoalAt(goals, id, last.0), last.1.distance) else 0.0)
  }

  // ---------------------------------------------------------------- third pass: weeks without a record

  /** The charge for week `w`: its whole goal if positive and the week has no record of `id`. */
  function Charge(weeks: seq<Week>, goals: GoalTable, id: string, w: nat): (c: real)
    requires w < |weeks|
    ensures c >= 0.0
    ensures c > 0.0 <==> GoalAt(goals, id, w) > 0.0 && id !in IdsOf(weeks[w].data)
  {
    var g := GoalAt(goals, id, w);
    if g > 0.0 && id !in IdsOf(weeks[w].data) then g else 0.0
  }

  /** The charges of the first `n` weeks. */
  function AbsentMissed(weeks: seq<Week>, goals: GoalTable, id: string, n: nat): (m: real)
    requires n <= |weeks|
    ensures m >= 0.0
  {
    if n == 0 then 0.0 else AbsentMissed(weeks, goals, id, n - 1) + Charge(weeks, goals, id, n - 1)
  }

  /** The charges of the first `n` weeks except week `skip`. */
  function AbsentMissedExcept(weeks: seq<Week>, goals: GoalTable, id: string, n: nat, skip: nat): real
    requires n <= |weeks|
  {
    if n == 0 then 0.0
    else AbsentMissedExcept(weeks, goals, id, n - 1, skip) + (if n - 1 == skip then 0.0 else Charge(weeks, goals, id, n - 1))
  }

  /** Every entry charged for its weeks without a record. */
  function ChargeAll(a: Acc, weeks: seq<Week>, goals: GoalTable): (b: Acc)
    ensures b.keys == a.keys && b.totals.Keys == a.totals.Keys
  {
    Acc(map id | id in a.totals :: Add(a.totals[id], 0, AbsentMissed(weeks, goals, id, |weeks|)),
        a.keys)
  }

  // ---------------------------------------------------------------- last pass: the table

  /** `Object.values(athleteTotals)`: the entries in key order. */
  function Values(a: Acc): (v: seq<Totals>)
    requires Keyed(a)
    ensures |v| == |a.keys|
    ensures forall i :: 0 <= i < |v| ==> a.keys[i] in a.totals && v[i] == a.totals[a.keys[i]]
  {
    seq(|a.keys|, i requires 0 <= i < |a.keys| => a.totals[a.keys[i]])
  }

  function TotalDistance(t: Totals): int {
    t.totalDistance
  }

  function WithTotalsRank(t: Totals, rank: int): Totals {
    t.(rank := rank)
  }

  /** Ranks by position: the i-th entry gets rank i + 1. */
  function RankTotals(s: seq<Totals>): (t: seq<Totals>)
    ensures |t| == |s|
    ensures forall i :: 0 <= i < |t| ==> t[i] == s[i].(rank := i + 1)
  {
    seq(|s|, i requires 0 <= i < |s| => WithTotalsRank(s[i], i + 1))
  }

  /** The entries after the three passes, before sorting. */
  function Entries(weeks: seq<Week>, goals: GoalTable, order: seq<string>, profiles: Profiles): (a: Acc)
    requires forall id :: id in order ==> id in goals
    ensures Keyed(a)
  {
    var folded := Fold(SeedAll(order, goals, profiles), goals, Tagged(weeks));
    FoldKeyed(SeedAll(order, goals, profiles), goals, Tagged(weeks));
    ChargeAll(folded, weeks, goals)
  }

  /** The all-time table: the entries by total distance, longest first, ranked 1..N. */
  function AllTimeTable(weeks: seq<Week>, goals: GoalTable, order: seq<string>, profiles: Profiles): (t: seq<Totals>)
    requires forall id :: id in order ==> id in goals
    ensures |t| == |Entries(weeks, goals, order, profiles).keys|
    ensures forall i :: 0 <= i < |t| ==> t[i].rank == i + 1
  {
    RankTotals(StableSort(Values(Entries(weeks, goals, order, profiles)), TotalDistance))
  }

  /** What an athlete's entry ends up holding, pass by pass. */
  function Expected(weeks: seq<Week>, goals: GoalTable, order: seq<string>, profiles: Profiles, id: string): Totals
    requires forall x :: x in order ==> x in goals
    requires id in order || Mentions(Tagged(weeks), id)
  {
    var recs := Tagged(weeks);
    var base := if id in order then Seed(profiles, id, goals[id]) else Fresh(FirstOf(recs, id).value);
    base.(totalDistance := DistanceOf(recs, id),
          totalMissed := RecordsMissed(recs, goals, id) + AbsentMissed(weeks, goals, id, |weeks|))
  }

  // ---------------------------------------------------------------- properties

  /** Seeding gives every goal athlete, in key order, its starting entry and nobody else an entry. */
  lemma {:induction false} SeedAllEntries(order: seq<string>, goals: GoalTable, profiles: Profiles)
    requires forall id :: id in order ==> id in goals
    requires DistinctKeys(order)
    ensures SeedAll(order, goals, profiles).keys == order
    ensures forall id :: id in SeedAll(order, goals, profiles).totals <==> id in order
    ensures forall id :: id in order ==> SeedAll(order, goals, profiles).totals[id] == Seed(profiles, id, goals[id])
  {
    if |order| > 0 {
      var init := order[..|order| - 1];
      SeedAllEntries(init, goals, profiles);
      var a, id := SeedAll(init, goals, profiles), order[|order| - 1];
      assert order == init + [id];
      assert id !in init;
      assert SeedAll(order, goals, profiles) == Acc(a.totals[id := Seed(profiles, id, goals[id])], a.keys + [id]);
    }
  }

  lemma AddTwice(t: Totals, d1: nat, m1: real, d2: nat, m2: real)
    ensures Add(Add(t, d1, m1), d2, m2) == Add(t, d1 + d2, m1 + m2)
  {
  }

  /** With the key order of the goal table, exactly the goal athletes are seeded. */
  lemma SeededEntry(order: seq<string>, goals: GoalTable, profiles: Profiles, id: string)
    requires Covers(order, goals) && DistinctKeys(order)
    ensures id in order <==> id in goals
    ensures id in SeedAll(order, goals, profiles).totals <==> id in goals
    ensures id in goals ==> SeedAll(order, goals, profiles).totals[id] == Seed(profiles, id, goals[id])
  {
    SeedAllEntries(order, goals, profiles);
    assert id in goals <==> id in order;
  }

  /** Folding one more record only touches that record's athlete. */
  lemma StepEntry(a: Acc, goals: GoalTable, w: nat, r: Runner, id: string)
    requires id in a.totals || id == r.athleteId
    ensures var b := Step(a, goals, w, r);
      var base := if id in a.totals then a.totals[id] else Fresh(r);
      id in b.totals && b.totals[id] == if id == r.athleteId then
        Add(base, r.distance, Missed(GoalAt(goals, id, w), r.distance))
      else base
  {
  }

  /**
   * After the fold, an athlete's entry is its starting entry (the one it
   * had, or else one made from its first record) plus the distance of all
   * its records and the shortfall of each against its week's goal.
   */
  lemma FoldEntry(a: Acc, goals: GoalTable, recs: seq<(nat, Runner)>, id: string)
    requires id in a.totals || Mentions(recs, id)
    ensures var b := Fold(a, goals, recs);
      var base := if id in a.totals then a.totals[id] else Fresh(FirstOf(recs, id).value);
      id in b.totals && b.totals[id] == Add(base, DistanceOf(recs, id), RecordsMissed(recs, goals, id))
  {
    if id in a.totals {
      FoldEntryHad(a, goals, recs, id);
    } else {
      FoldEntryNew(a, goals, recs, id);
    }
  }

  /** An athlete the fold starts with keeps its entry, plus its records' distance and shortfall. */
  lemma {:induction false} FoldEntryHad(a: Acc, goals: GoalTable, recs: seq<(nat, Runner)>, id: string)
    requires id in a.totals
    ensures id in Fold(a, goals, recs).totals
    ensures Fold(a, goals, recs).totals[id] == Add(a.totals[id], DistanceOf(recs, id), RecordsMissed(recs, goals, id))
  {
    if |recs| == 0 {
      AddNothing(a.totals[id]);
    } else {
      var init, last := recs[..|recs| - 1], recs[|recs| - 1];
      FoldEntryHad(a, goals, init, id);
      StepKnown(Fold(a, goals, init), goals, last.0, last.1, id, a.totals[id], DistanceOf(init, id), RecordsMissed(init, goals, id));
    }
  }

  /** An athlete the fold starts without gets an entry from its first record, plus its records' distance and shortfall. */
  lemma {:induction false} FoldEntryNew(a: Acc, goals: GoalTable, recs: seq<(nat, Runner)>, id: string)
    requires id !in a.totals && Mentions(recs, id)
    ensures id in Fold(a, goals, recs).totals
    ensures Fold(a, goals, recs).totals[id]
         == Add(Fresh(FirstOf(recs, id).value), DistanceOf(recs, id), RecordsMissed(recs, goals, id))
  {
    var init, last := recs[..|recs| - 1], recs[|recs| - 1];
    if Mentions(init, id) {
      FoldEntryNew(a, goals, init, id);
      assert FirstOf(recs, id) == FirstOf(init, id);
      StepKnown(Fold(a, goals, init), goals, last.0, last.1, id, Fresh(FirstOf(init, id).value),
                DistanceOf(init, id), RecordsMissed(init, goals, id));
    } else {
      FoldEntryAtLast(a, goals, recs, id);
    }
  }

  /** The athlete's only record is the last one: the entry is made from it. */
  lemma FoldEntryAtLast(a: Acc, goals: GoalTable, recs: seq<(nat, Runner)>, id: string)
    requires |recs| > 0 && id !in a.totals && Mentions(recs, id) && !Mentions(recs[..|recs| - 1], id)
    ensures id in Fold(a, goals, recs).totals
    ensures Fold(a, goals, recs).totals[id]
         == Add(Fresh(FirstOf(recs, id).value), DistanceOf(recs, id), RecordsMissed(recs, goals, id))
  {
    var init, last := recs[..|recs| - 1], recs[|recs| - 1];
    FoldMissing(a, goals, init, id);
    NoRecordSumsZero(init, goals, id);
    assert FirstOf(recs, id) == Some(last.1);
    StepNew(Fold(a, goals, init), goals, last.0, last.1);
    assert DistanceOf(recs, id) == last.1.distance;
    assert RecordsMissed(recs, goals, id) == Missed(GoalAt(goals, id, last.0), last.1.distance);
  }

  /** The first record of an athlete creates its entry. */
  lemma StepNew(before: Acc, goals: GoalTable, w: nat, r: Runner)
    requires r.athleteId !in before.totals
    ensures Step(before, goals, w, r).totals[r.athleteId]
         == Add(Fresh(r), r.distance, Missed(GoalAt(goals, r.athleteId, w), r.distance))
  {
  }

  lemma AddNothing(t: Totals)
    ensures Add(t, 0, 0.0) == t
  {
  }

  /** One more record adds its distance and shortfall to its own athlete's entry and to no other. */
  lemma StepKnown(before: Acc, goals: GoalTable, w: nat, r: Runner, id: string, base: Totals, d: nat, m: real)
    requires id in before.totals && before.totals[id] == Add(base, d, m)
    ensures id in Step(before, goals, w, r).totals
    ensures Step(before, goals, w, r).totals[id]
         == if r.athleteId == id then Add(base, d + r.distance, m + Missed(GoalAt(goals, id, w), r.distance))
            else Add(base, d, m)
  {
  }

  /** The fold creates no entry for an athlete without a record. */
  lemma {:induction false} FoldMissing(a: Acc, goals: GoalTable, recs: seq<(nat, Runner)>, id: string)
    requires id !in a.totals && !Mentions(recs, id)
    ensures id !in Fold(a, goals, recs).totals
  {
    if |recs| > 0 {
      FoldMissing(a, goals, recs[..|recs| - 1], id);
    }
  }

  lemma {:induction false} NoRecordSumsZero(recs: seq<(nat, Runner)>, goals: GoalTable, id: string)
    requires !Mentions(recs, id)
    ensures DistanceOf(recs, id) == 0 && RecordsMissed(recs, goals, id) == 0.0
  {
    if |recs| > 0 {
      NoRecordSumsZero(recs[..|recs| - 1], goals, id);
    }
  }

  /** The fold creates an entry for every athlete with a record, and for no one else. */
  lemma {:induction false} FoldDomain(a: Acc, goals: GoalTable, recs: seq<(nat, Runner)>)
    ensures forall id :: id in Fold(a, goals, recs).totals <==> id in a.totals || Mentions(recs, id)
  {
    if |recs| > 0 {
      FoldDomain(a, goals, recs[..|recs| - 1]);
    }
  }

  /** The fold appends the athletes it creates to the key order, in the order of their first records. */
  lemma {:induction false} FoldKeys(a: Acc, goals: GoalTable, recs: seq<(nat, Runner)>)
    ensures Fold(a, goals, recs).keys == a.keys + Encounter(a.totals.Keys, recs)
  {
    if |recs| > 0 {
      var init, last := recs[..|recs| - 1], recs[|recs| - 1];
      FoldKeys(a, goals, init);
      FoldDomain(a, goals, init);
      var before := Fold(a, goals, init);
      var e := Encounter(a.totals.Keys, init);
      var id := last.1.athleteId;
      assert id in before.totals <==> id in a.totals || id in e;
      if id !in before.totals {
        assert (a.keys + e) + [id] == a.keys + (e + [id]);
      }
    }
  }

  /** Charging only changes `totalMissed`, by the charges of the athlete's weeks. */
  lemma ChargeAllEntry(a: Acc, weeks: seq<Week>, goals: GoalTable, id: string)
    requires id in a.totals
    ensures ChargeAll(a, weeks, goals).totals[id] == Add(a.totals[id], 0, AbsentMissed(weeks, goals, id, |weeks|))
  {
  }

  /**
   * The entry of every athlete of the goal table or of some record: names
   * from the registry for goal athletes (else from the first record), the
   * total goal the sum of the whole vector (0 without a vector), the total
   * distance that of all records, and the total shortfall per record plus
   * the full goal of every committed week without a record.
   */
  lemma EntriesClosedForm(weeks: seq<Week>, goals: GoalTable, order: seq<string>, profiles: Profiles, id: string)
    requires Covers(order, goals) && DistinctKeys(order)
    requires id in goals || Mentions(Tagged(weeks), id)
    ensures var e := Entries(weeks, goals, order, profiles);
      && id in e.totals
      && e.totals[id] == Expected(weeks, goals, order, profiles, id)
      && e.totals[id].totalGoal == (if id in goals then SumGoals(goals[id]) else 0.0)
  {
    var recs := Tagged(weeks);
    var seeded := SeedAll(order, goals, profiles);
    SeededEntry(order, goals, profiles, id);
    FoldEntry(seeded, goals, recs, id);
    var folded := Fold(seeded, goals, recs);
    ChargeAllEntry(folded, weeks, goals, id);
    var base := if id in order then Seed(profiles, id, goals[id]) else Fresh(FirstOf(recs, id).value);
    assert folded.totals[id] == Add(base, DistanceOf(recs, id), RecordsMissed(recs, goals, id));
    AddTwice(base, DistanceOf(recs, id), RecordsMissed(recs, goals, id), 0, AbsentMissed(weeks, goals, id, |weeks|));
  }

  /** The table's key order: the goal athletes in key order, then the others as their first records come. */
  lemma EntriesKeys(weeks: seq<Week>, goals: GoalTable, order: seq<string>, profiles: Profiles)
    requires Covers(order, goals) && DistinctKeys(order)
    ensures var e := Entries(weeks, goals, order, profiles);
      && e.keys == order + Encounter(goals.Keys, Tagged(weeks))
      && (forall id :: id in e.totals <==> id in goals || Mentions(Tagged(weeks), id))
  {
    var seeded := SeedAll(order, goals, profiles);
    SeedAllEntries(order, goals, profiles);
    assert seeded.totals.Keys == goals.Keys;
    FoldKeys(seeded, goals, Tagged(weeks));
    FoldDomain(seeded, goals, Tagged(weeks));
  }

  /** No athlete is ever charged a negative amount: every total shortfall is at least 0. */
  lemma TotalMissedNonNegative(weeks: seq<Week>, goals: GoalTable, order: seq<string>, profiles: Profiles, id: string)
    requires Covers(order, goals) && DistinctKeys(order)
    requires id in Entries(weeks, goals, order, profiles).totals
    ensures Entries(weeks, goals, order, profiles).totals[id].totalMissed >= 0.0
  {
    EntriesKeys(weeks, goals, order, profiles);
    EntriesClosedForm(weeks, goals, order, profiles, id);
  }

  /**
   * The table holds the entries, each once, by non-increasing total
   * distance, ranked 1..N, equal distances in key order.
   */
  lemma AllTimeTableRanked(weeks: seq<Week>, goals: GoalTable, order: seq<string>, profiles: Profiles, d: int)
    requires forall id :: id in order ==> id in goals
    ensures var values := Values(Entries(weeks, goals, order, profiles));
      var sorted := StableSort(values, TotalDistance);
      var table := AllTimeTable(weeks, goals, order, profiles);
      && |table| == |values|
      && multiset(sorted) == multiset(values)
      && (forall i :: 0 <= i < |table| ==> table[i] == sorted[i].(rank := i + 1))
      && (forall i, j :: 0 <= i < j < |table| ==> table[i].totalDistance >= table[j].totalDistance)
      && WithKey(sorted, TotalDistance, d) == WithKey(values, TotalDistance, d)
  {
    var values := Values(Entries(weeks, goals, order, profiles));
    StableSortSorted(values, TotalDistance);
    StableSortPermutation(values, TotalDistance);
    StableSortStable(values, TotalDistance, d);
  }

  /**
   * The charge of a committed week without a record is its whole goal, and
   * the charges of the other weeks do not depend on that week at all.
   */
  lemma {:induction false} AbsentWeekCharged(weeks: seq<Week>, goals: GoalTable, id: string, n: nat, w: nat)
    requires w < n <= |weeks|
    requires GoalAt(goals, id, w) > 0.0 && id !in IdsOf(weeks[w].data)
    ensures AbsentMissed(weeks, goals, id, n) == GoalAt(goals, id, w) + AbsentMissedExcept(weeks, goals, id, n, w)
  {
    if n - 1 == w {
      ExceptBelow(weeks, goals, id, n - 1, w);
    } else {
      AbsentWeekCharged(weeks, goals, id, n - 1, w);
    }
  }

  lemma {:induction false} ExceptBelow(weeks: seq<Week>, goals: GoalTable, id: string, n: nat, skip: nat)
    requires n <= skip && n <= |weeks|
    ensures AbsentMissedExcept(weeks, goals, id, n, skip) == AbsentMissed(weeks, goals, id, n)
  {
    if n > 0 {
      ExceptBelow(weeks, goals, id, n - 1, skip);
    }
  }

  /** What week `skip` holds changes none of the other weeks' charges. */
  lemma {:induction false} ExceptIgnoresWeek(weeks: seq<Week>, goals: GoalTable, id: string, n: nat, skip: nat, other: Week)
    requires n <= |weeks| && skip < |weeks|
    ensures AbsentMissedExcept(weeks[skip := other], goals, id, n, skip) == AbsentMissedExcept(weeks, goals, id, n, skip)
  {
    if n > 0 {
      ExceptIgnoresWeek(weeks, goals, id, n - 1, skip, other);
    }
  }

  /**
   * The weekly view looks goals up by week number, the all-time view by
   * position: a lone week numbered 2 in which a committed athlete has no
   * record is charged against the athlete's first goal, while the weekly
   * roster of that week goes by the second goal.
   */
  lemma PositionNotNumber(week: Week, goals: GoalTable, order: seq<string>, profiles: Profiles, id: string)
    requires week.weekNum == 2 && id !in IdsOf(week.data)
    requires id in goals && |goals[id]| >= 2 && goals[id][0] > 0.0 && goals[id][1] == 0.0
    ensures id !in IdsOf(WeekRoster(week, goals, order, profiles))
    ensures AbsentMissed([week], goals, id, 1) == goals[id][0]
  {
    var syn := Synthesized(order, goals, profiles, IdsOf(week.data), WeekIndex(week));
    SynthesizedExactly(order, goals, profiles, IdsOf(week.data), WeekIndex(week), id);
    IdsOfAppend(week.data, syn);
  }
}
