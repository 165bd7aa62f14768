/**
 * Loading the week files: each file that is fetched and parsed, and whose
 * name holds a number, becomes a week, and its records are registered in
 * the runner registry in the order they come.
 */
module Loading {
  import opened Wrappers
  import opened Records
  import opened Registry
  import opened Weeks

  /** How fetching and parsing a file ended: failed (skipped), or a parsed body whose `data` may be missing. */
  datatype Response = Failed | Parsed(data: Option<seq<Runner>>)

  datatype WeekFile = WeekFile(filename: string, response: Response)

  /** `json.data || []`. */
  function DataOf(response: Response): seq<Runner>
    requires response.Parsed?
  {
    response.data.GetOr([])
  }

  /** The week a file yields, if it yields one. */
  function WeekOf(f: WeekFile): (w: Option<Week>)
    ensures w.Some? <==> f.response.Parsed? && WeekLabel(f.filename).Some?
    ensures w.Some? ==> w.value.data == DataOf(f.response) && w.value.id == WeekLabel(f.filename).value.id
  {
    if f.response.Failed? then None
    else match WeekLabel(f.filename)
      case None => None
      case Some(l) => Some(Week(l.id, l.name, l.weekNum, DataOf(f.response)))
  }

  /** The weeks the files yield, in file order. */
  function LoadedWeeks(files: seq<WeekFile>): (weeks: seq<Week>)
    ensures |weeks| <= |files|
  {
    if |files| == 0 then []
    else
      var last := WeekOf(files[|files| - 1]);
      LoadedWeeks(files[..|files| - 1]) + (if last.Some? then [last.value] else [])
  }

  /** All records of some weeks, week after week. */
  function AllRecords(weeks: seq<Week>): seq<Runner> {
    if |weeks| == 0 then [] else AllRecords(weeks[..|weeks| - 1]) + weeks[|weeks| - 1].data
  }

  /** The latest week's id, which becomes the current week; unchanged when no week loaded. */
  function Latest(weeks: seq<Week>, current: Option<string>): Option<string> {
    if |weeks| > 0 then Some(weeks[|weeks| - 1].id) else current
  }

  // ---------------------------------------------------------------- properties

  lemma {:induction false} UpsertAllAppend(profiles: Profiles, a: seq<Runner>, b: seq<Runner>)
    ensures UpsertAll(profiles, a + b) == UpsertAll(UpsertAll(profiles, a), b)
  {
    if |b| > 0 {
      UpsertAllAppend(profiles, a, b[..|b| - 1]);
      assert (a + b)[..|a + b| - 1] == a + b[..|b| - 1];
    } else {
      assert a + b == a;
    }
  }

  lemma {:induction false} AllRecordsAppend(weeks: seq<Week>, w: seq<Week>)
    ensures AllRecords(weeks + w) == AllRecords(weeks) + AllRecords(w)
  {
    if |w| > 0 {
      AllRecordsAppend(weeks, w[..|w| - 1]);
      assert (weeks + w)[..|weeks + w| - 1] == weeks + w[..|w| - 1];
    } else {
      assert weeks + w == weeks;
    }
  }

  /** Loading one more file appends the week it yields, if any. */
  lemma LoadedWeeksStep(files: seq<WeekFile>, i: nat)
    requires i < |files|
    ensures LoadedWeeks(files[..i + 1])
      == LoadedWeeks(files[..i]) + (if WeekOf(files[i]).Some? then [WeekOf(files[i]).value] else [])
  {
    assert files[..i + 1][..i] == files[..i];
  }

  /** Loading one more file registers exactly the records of the week it yields, if any. */
  lemma LoadStep(profiles: Profiles, files: seq<WeekFile>, i: nat)
    requires i < |files|
    ensures var before := LoadedWeeks(files[..i]);
      var registered := UpsertAll(profiles, AllRecords(before));
      var w := WeekOf(files[i]);
      && LoadedWeeks(files[..i + 1]) == before + (if w.Some? then [w.value] else [])
      && UpsertAll(profiles, AllRecords(LoadedWeeks(files[..i + 1])))
         == if w.Some? then UpsertAll(registered, w.value.data) else registered
  {
    LoadedWeeksStep(files, i);
    var before := LoadedWeeks(files[..i]);
    var w := WeekOf(files[i]);
    if w.Some? {
      AllRecordsAppend(before, [w.value]);
      AllRecordsOne(w.value);
      UpsertAllAppend(profiles, AllRecords(before), w.value.data);
      assert AllRecords(LoadedWeeks(files[..i + 1])) == AllRecords(before) + w.value.data;
    } else {
      assert LoadedWeeks(files[..i + 1]) == before;
    }
  }

  lemma AllRecordsOne(w: Week)
    ensures AllRecords([w]) == w.data
  {
    assert [w][..0] == [];
  }

  /**
   * Every loaded week comes from a parsed file whose name holds a number:
   * its id is the name without `.json`, its records the file's `data`.
   */
  lemma {:induction false} LoadedWeeksFromFiles(files: seq<WeekFile>, i: nat)
    requires i < |LoadedWeeks(files)|
    ensures exists j :: 0 <= j < |files| && WeekOf(files[j]) == Some(LoadedWeeks(files)[i])
  {
    var init := files[..|files| - 1];
    if i < |LoadedWeeks(init)| {
      LoadedWeeksFromFiles(init, i);
      var j :| 0 <= j < |init| && WeekOf(init[j]) == Some(LoadedWeeks(init)[i]);
      assert files[j] == init[j];
    } else {
      assert WeekOf(files[|files| - 1]) == Some(LoadedWeeks(files)[i]);
    }
  }

  /** A file that is parsed and whose name holds a number is never dropped. */
  lemma {:induction false} UsableFileLoaded(files: seq<WeekFile>, j: nat)
    requires j < |files| && WeekOf(files[j]).Some?
    ensures WeekOf(files[j]).value in LoadedWeeks(files)
  {
    var init := files[..|files| - 1];
    if j < |files| - 1 {
      assert files[j] == init[j];
      UsableFileLoaded(init, j);
    }
  }
}
