/**
 * The dashboard's state and the operations on it: the loaded weeks, the
 * goal table with the order of its keys, the runner registry and the id of
 * the current week. Loading changes the state; the weekly table, the
 * weekly summary and the all-time table are computed from it.
 */
module App {
  import opened Wrappers
  import opened Text
  import opened Records
  import opened Registry
  import opened Ranking
  import opened Weeks
  import opened Goals
  import opened Roster
  import opened AllTime
  import opened Loading

  class Dashboard {
    var weeks: seq<Week>
    var goals: GoalTable
    var goalOrder: seq<string>
    var profiles: Profiles
    var currentWeekId: Option<string>

    /** The key order of the goal table lists each of its keys once. */
    predicate Valid()
      reads this
    {
      OrderOk(Tables(goals, goalOrder, profiles))
    }

    constructor()
      ensures Valid()
      ensures weeks == [] && goals == map[] && goalOrder == [] && profiles == map[] && currentWeekId == None
    {
      weeks, goals, goalOrder, profiles, currentWeekId := [], map[], [], map[], None;
    }

    // ------------------------------------------------------------ loading

    /** Registers the runner of each record, in order. */
    method RegisterRecords(data: seq<Runner>)
      requires Valid()
      modifies this
      ensures Valid()
      ensures profiles == UpsertAll(old(profiles), data)
      ensures weeks == old(weeks) && goals == old(goals) && goalOrder == old(goalOrder)
      ensures currentWeekId == old(currentWeekId)
    {
      for i := 0 to |data|
        invariant profiles == UpsertAll(old(profiles), data[..i])
        invariant Valid()
        invariant weeks == old(weeks) && goals == old(goals) && goalOrder == old(goalOrder)
        invariant currentWeekId == old(currentWeekId)
      {
        var r := data[i];
        if r.athleteId !in profiles {
          profiles := profiles[r.athleteId := Profile(r.firstname, r.lastname, r.picture)];
        } else if Truthy(r.picture) {
          profiles := profiles[r.athleteId := profiles[r.athleteId].(picture := r.picture)];
        }
        assert data[..i + 1][..i] == data[..i];
      }
      assert data[..|data|] == data;
    }

    /** One file: if it was parsed and its name holds a number, its records are registered and its week appended. */
    method LoadWeekFile(f: WeekFile)
      requires Valid()
      modifies this
      ensures Valid()
      ensures weeks == old(weeks) + (if WeekOf(f).Some? then [WeekOf(f).value] else [])
      ensures profiles == if WeekOf(f).Some? then UpsertAll(old(profiles), WeekOf(f).value.data) else old(profiles)
      ensures goals == old(goals) && goalOrder == old(goalOrder) && currentWeekId == old(currentWeekId)
    {
      if f.response.Parsed? {
        var naming := WeekLabel(f.filename);
        if naming.Some? {
          var data := DataOf(f.response);
          RegisterRecords(data);
          weeks := weeks + [Week(naming.value.id, naming.value.name, naming.value.weekNum, data)];
        }
      }
    }

    /**
     * Replaces the weeks by those the files yield, registers their records
     * and makes the latest week the current one.
     */
    method LoadWeeks(files: seq<WeekFile>)
      requires Valid()
      modifies this
      ensures Valid()
      ensures weeks == LoadedWeeks(files)
      ensures profiles == UpsertAll(old(profiles), AllRecords(weeks))
      ensures currentWeekId == Latest(weeks, old(currentWeekId))
      ensures goals == old(goals) && goalOrder == old(goalOrder)
    {
      weeks := [];
      for i := 0 to |files|
        invariant weeks == LoadedWeeks(files[..i])
        invariant profiles == UpsertAll(old(profiles), AllRecords(weeks))
        invariant Valid()
        invariant goals == old(goals) && goalOrder == old(goalOrder) && currentWeekId == old(currentWeekId)
      {
        LoadWeekFile(files[i]);
        LoadStep(old(profiles), files, i);
      }
      assert files[..|files|] == files;
      if |weeks| > 0 {
        currentWeekId := Some(weeks[|weeks| - 1].id);
      }
    }

    /** One row of the goal file: skipped unless usable, else it may add a profile and sets the id's goals. */
    method ReadGoalRow(row: seq<string>)
      requires Valid()
      modifies this
      ensures Valid()
      ensures Tables(goals, goalOrder, profiles) == ReadRow(old(Tables(goals, goalOrder, profiles)), row)
      ensures weeks == old(weeks) && currentWeekId == old(currentWeekId)
    {
      if |row| < 4 {
        return;
      }
      var id := row[2];
      if id == "" {
        return;
      }
      ghost var before := Tables(goals, goalOrder, profiles);
      ReadRowOrder(before, row);
      profiles := UpsertFromGoalRow(profiles, id, row[1]);
      if id !in goals {
        goalOrder := goalOrder + [id];
      }
      goals := goals[id := GoalVector(row)];
    }

    /** Reads the goal file, row by row after the header. */
    method LoadGoals(text: string)
      requires Valid()
      modifies this
      ensures Valid()
      ensures Tables(goals, goalOrder, profiles) == ReadGoalsText(old(Tables(goals, goalOrder, profiles)), text)
      ensures weeks == old(weeks) && currentWeekId == old(currentWeekId)
    {
      var rows := Rows(text);
      ghost var start := Tables(goals, goalOrder, profiles);
      for i := 1 to |rows|
        invariant Tables(goals, goalOrder, profiles) == ReadRows(start, rows[1..i])
        invariant Valid()
        invariant weeks == old(weeks) && currentWeekId == old(currentWeekId)
      {
        ReadGoalRow(rows[i]);
        assert rows[1..i + 1] == rows[1..i] + [rows[i]];
        assert rows[1..i + 1][..i - 1] == rows[1..i];
        ReadRowsOrder(start, rows[1..i + 1]);
      }
      assert rows[1..|rows|] == rows[1..];
    }

    // ------------------------------------------------------------ the weekly view

    /** The first loaded week whose id is the current one. */
    method CurrentWeek() returns (week: Option<Week>)
      ensures week == FindWeek(weeks, currentWeekId)
    {
      if currentWeekId.None? {
        return None;
      }
      var i := 0;
      while i < |weeks|
        invariant 0 <= i <= |weeks|
        invariant FindWeek(weeks, currentWeekId) == FindWeek(weeks[i..], currentWeekId)
      {
        if weeks[i].id == currentWeekId.value {
          return Some(weeks[i]);
        }
        assert weeks[i..][1..] == weeks[i + 1..];
        i := i + 1;
      }
      return None;
    }

    /** The week's records, then a zero-distance row for each committed athlete without a record. */
    method BuildRoster(week: Week) returns (roster: seq<Runner>)
      ensures roster == WeekRoster(week, goals, goalOrder, profiles)
    {
      roster := week.data;
      var index := week.weekNum - 1;
      var existing := IdsOf(week.data);
      for k := 0 to |goalOrder|
        invariant roster == week.data + Synthesized(goalOrder[..k], goals, profiles, existing, index)
      {
        var id := goalOrder[k];
        var goalKm := GoalAt(goals, id, index);
        if goalKm > 0.0 && id !in existing {
          var profile := Resolve(profiles, id);
          roster := roster + [Runner(id, profile.firstname, profile.lastname, profile.picture, 0, 999)];
        }
        assert goalOrder[..k + 1][..k] == goalOrder[..k];
      }
      assert goalOrder[..|goalOrder|] == goalOrder;
    }

    /** The current week's table: its roster sorted by distance, longest first, and ranked. */
    method WeekTable() returns (table: Option<seq<Runner>>)
      ensures var week := FindWeek(weeks, currentWeekId);
        table == if week.Some? then Some(WeeklyTable(week.value, goals, goalOrder, profiles)) else None
    {
      var current := CurrentWeek();
      if current.None? {
        return None;
      }
      var roster := BuildRoster(current.value);
      var ranked := RankByDistance(roster);
      table := Some(ranked);
    }

    /** `allRunners.sort(...)` by distance, longest first, then `rank = index + 1`. */
    static method RankByDistance(roster: seq<Runner>) returns (table: seq<Runner>)
      ensures table == RankRows(StableSort(roster, Distance))
    {
      var a := new Runner[|roster|](k requires 0 <= k < |roster| => roster[k]);
      assert a[..] == roster;
      SortByKeyDesc(a, Distance);
      AssignRanks(a, WithRank);
      table := a[..];
    }

    /**
     * The current week's summary figures, over the summary's own roster,
     * which holds the ids and distances of the table's roster.
     */
    method Summary() returns (summary: Option<WeekSummary>)
      ensures var week := FindWeek(weeks, currentWeekId);
        summary == if week.Some? then
          Some(Summarize(IdsAndDistances(WeekRoster(week.value, goals, goalOrder, profiles)), goals, WeekIndex(week.value)))
        else None
    {
      var current := CurrentWeek();
      if current.None? {
        return None;
      }
      var week := current.value;
      var rows := SummaryRowsOf(week);
      SummaryMatchesTable(week, goals, goalOrder, profiles);
      var totalGoal, goalsMet := Tally(rows, goals, week.weekNum - 1);
      summary := Some(WeekSummary(|rows|, SumDistance(rows), totalGoal, goalsMet));
    }

    /** The ids and distances the summary counts: the week's records, then each committed athlete without one at 0. */
    method SummaryRowsOf(week: Week) returns (rows: seq<(string, nat)>)
      ensures rows == SummaryRows(week, goals, goalOrder)
    {
      var index := week.weekNum - 1;
      var existing := IdsOf(week.data);
      rows := IdsAndDistances(week.data);
      for k := 0 to |goalOrder|
        invariant rows == IdsAndDistances(week.data) + Zeros(goalOrder[..k], goals, existing, index)
      {
        var id := goalOrder[k];
        var goalKm := GoalAt(goals, id, index);
        if goalKm > 0.0 && id !in existing {
          rows := rows + [(id, 0)];
        }
        assert goalOrder[..k + 1][..k] == goalOrder[..k];
      }
      assert goalOrder[..|goalOrder|] == goalOrder;
    }

    /** The summary's goal sum and count of goals met, in one pass. */
    static method Tally(rows: seq<(string, nat)>, goals: GoalTable, index: int) returns (totalGoal: real, goalsMet: nat)
      ensures totalGoal == SumGoal(rows, goals, index)
      ensures goalsMet == CountMet(rows, goals, index)
    {
      totalGoal := 0.0;
      goalsMet := 0;
      for k := 0 to |rows|
        invariant totalGoal == SumGoal(rows[..k], goals, index)
        invariant goalsMet == CountMet(rows[..k], goals, index)
      {
        var goalKm := GoalAt(goals, rows[k].0, index);
        var distanceKm := Km(rows[k].1);
        totalGoal := totalGoal + goalKm;
        if distanceKm >= goalKm && goalKm > 0.0 {
          goalsMet := goalsMet + 1;
        }
        assert rows[..k + 1][..k] == rows[..k];
      }
      assert rows[..|rows|] == rows;
    }

    // ------------------------------------------------------------ the all-time view

    /** `week.data.find(r => r.athlete_id == athleteId)` found something. */
    static method HasRecord(data: seq<Runner>, id: string) returns (found: bool)
      ensures found <==> id in IdsOf(data)
    {
      for i := 0 to |data|
        invariant forall k :: 0 <= k < i ==> data[k].athleteId != id
      {
        if data[i].athleteId == id {
          return true;
        }
      }
      return false;
    }

    /** The entries of the goal athletes, in key order. */
    method SeedGoalAthletes() returns (totals: map<string, Totals>, keys: seq<string>)
      requires Valid()
      ensures Acc(totals, keys) == SeedAll(goalOrder, goals, profiles)
    {
      totals, keys := map[], [];
      for k := 0 to |goalOrder|
        invariant Acc(totals, keys) == SeedAll(goalOrder[..k], goals, profiles)
      {
        var id := goalOrder[k];
        assert id in goals;
        if id !in totals {
          keys := keys + [id];
        }
        totals := totals[id := Seed(profiles, id, goals[id])];
        assert goalOrder[..k + 1][..k] == goalOrder[..k];
      }
      assert goalOrder[..|goalOrder|] == goalOrder;
    }

    /** One record: the athlete's entry is created if needed, then gets the distance and the week's shortfall. */
    method AddRecord(totals: map<string, Totals>, keys: seq<string>, w: nat, r: Runner)
      returns (totals': map<string, Totals>, keys': seq<string>)
      ensures Acc(totals', keys') == Step(Acc(totals, keys), goals, w, r)
    {
      var id := r.athleteId;
      totals', keys' := totals, keys;
      if id !in totals' {
        totals' := totals'[id := Fresh(r)];
        keys' := keys' + [id];
      }
      var weekMissed := Missed(GoalAt(goals, id, w), r.distance);
      totals' := totals'[id := Add(totals'[id], r.distance, weekMissed)];
    }

    /** The records of week `w`, in order, on top of the entries built so far. */
    method FoldWeek(totals: map<string, Totals>, keys: seq<string>, w: nat, data: seq<Runner>,
                    ghost start: Acc, ghost done: seq<(nat, Runner)>)
      returns (totals': map<string, Totals>, keys': seq<string>)
      requires Acc(totals, keys) == Fold(start, goals, done)
      ensures Acc(totals', keys') == Fold(start, goals, done + Tag(w, data))
    {
      totals', keys' := totals, keys;
      TagEnds(done, w, data);
      for i := 0 to |data|
        invariant Acc(totals', keys') == Fold(start, goals, done + Tag(w, data[..i]))
      {
        totals', keys' := AddRecord(totals', keys', w, data[i]);
        FoldTagStep(start, goals, done, w, data, i);
      }
    }

    /** Every record of every week, in order, added to its athlete's entry. */
    method FoldRecords(seeded: map<string, Totals>, seededKeys: seq<string>)
      returns (totals: map<string, Totals>, keys: seq<string>)
      ensures Acc(totals, keys) == Fold(Acc(seeded, seededKeys), goals, Tagged(weeks))
    {
      totals, keys := seeded, seededKeys;
      for w := 0 to |weeks|
        invariant Acc(totals, keys) == Fold(Acc(seeded, seededKeys), goals, Tagged(weeks[..w]))
      {
        totals, keys := FoldWeek(totals, keys, w, weeks[w].data, Acc(seeded, seededKeys), Tagged(weeks[..w]));
        TaggedPrefix(weeks, w);
      }
      assert weeks[..|weeks|] == weeks;
    }

    /** One athlete charged the full goal of every committed week without a record of theirs. */
    method ChargeAthlete(t: Totals, id: string) returns (t': Totals)
      ensures t' == Add(t, 0, AbsentMissed(weeks, goals, id, |weeks|))
    {
      t' := t;
      for w := 0 to |weeks|
        invariant t' == Add(t, 0, AbsentMissed(weeks, goals, id, w))
      {
        var weekGoal := GoalAt(goals, id, w);
        if weekGoal > 0.0 {
          var found := HasRecord(weeks[w].data, id);
          if !found {
            AddTwice(t, 0, AbsentMissed(weeks, goals, id, w), 0, weekGoal);
            t' := Add(t', 0, weekGoal);
          }
        }
      }
    }

    /** Each entry charged the full goal of every committed week without a record. */
    method ChargeAbsences(folded: map<string, Totals>, keys: seq<string>) returns (totals: map<string, Totals>)
      requires Keyed(Acc(folded, keys))
      ensures Acc(totals, keys) == ChargeAll(Acc(folded, keys), weeks, goals)
    {
      totals := folded;
      for k := 0 to |keys|
        invariant totals.Keys == folded.Keys
        invariant forall id :: id in folded ==>
          totals[id] == if id in keys[..k] then Add(folded[id], 0, AbsentMissed(weeks, goals, id, |weeks|)) else folded[id]
      {
        var id := keys[k];
        assert id in folded;
        assert id !in keys[..k];
        var charged := ChargeAthlete(totals[id], id);
        totals := totals[id := charged];
        assert keys[..k + 1] == keys[..k] + [id];
      }
      assert keys[..|keys|] == keys;
    }

    /** `Object.values(...)` sorted by total distance, longest first, then ranked. */
    static method RankByTotalDistance(totals: map<string, Totals>, keys: seq<string>) returns (table: seq<Totals>)
      requires Keyed(Acc(totals, keys))
      ensures table == RankTotals(StableSort(Values(Acc(totals, keys)), TotalDistance))
    {
      var values := Values(Acc(totals, keys));
      var a := new Totals[|values|](k requires 0 <= k < |values| => values[k]);
      assert a[..] == values;
      SortByKeyDesc(a, TotalDistance);
      AssignRanks(a, WithTotalsRank);
      table := a[..];
    }

    /** The all-time table: seeding, the records, the absences, then sorting and ranking. */
    method AllTimeSummary() returns (table: seq<Totals>)
      requires Valid()
      ensures table == AllTimeTable(weeks, goals, goalOrder, profiles)
    {
      var seeded, seededKeys := SeedGoalAthletes();
      var folded, keys := FoldRecords(seeded, seededKeys);
      FoldKeyed(Acc(seeded, seededKeys), goals, Tagged(weeks));
      var totals := ChargeAbsences(folded, keys);
      assert Acc(totals, keys) == Entries(weeks, goals, goalOrder, profiles);
      table := RankByTotalDistance(totals, keys);
    }
  }
}
