/**
 * Reading `goals.csv`: one row per line, cells separated by commas, the
 * columns being `_, name, athlete id, goal week 1, goal week 2, ...`.
 */
module Goals {
  import opened Wrappers
  import opened Text
  import opened Records
  import opened Registry

  /** `text.split('\n').map(row => row.split(','))`. */
  function Rows(text: string): (rows: seq<seq<string>>)
    ensures |rows| >= 1
    ensures forall i :: 0 <= i < |rows| ==> |rows[i]| >= 1
    ensures forall i, j :: 0 <= i < |rows| && 0 <= j < |rows[i]| ==> ',' !in rows[i][j]
    ensures forall i, j :: 0 <= i < |rows| && 0 <= j < |rows[i]| ==> '\n' !in rows[i][j]
  {
    var lines := Split(text, '\n');
    CellsKeepOut(lines, '\n');
    seq(|lines|, i requires 0 <= i < |lines| => Split(lines[i], ','))
  }

  /** Cutting lines into cells brings in no character the lines lack. */
  lemma CellsKeepOut(lines: seq<string>, c: char)
    requires forall i :: 0 <= i < |lines| ==> c !in lines[i]
    ensures forall i, j :: 0 <= i < |lines| && 0 <= j < |Split(lines[i], ',')| ==> c !in Split(lines[i], ',')[j]
  {
    forall i | 0 <= i < |lines| {
      SplitKeepsOut(lines[i], ',', c);
    }
  }

  /** The text the rows were read from: cells joined by commas, rows by line breaks. */
  function JoinRows(rows: seq<seq<string>>): string {
    Join(seq(|rows|, i requires 0 <= i < |rows| => Join(rows[i], ',')), '\n')
  }

  /** Reading rows loses nothing: joining them again gives the text back. */
  lemma RowsRoundTrip(text: string)
    ensures JoinRows(Rows(text)) == text
  {
    var lines := Split(text, '\n');
    var rows := Rows(text);
    var joined := seq(|rows|, i requires 0 <= i < |rows| => Join(rows[i], ','));
    forall i | 0 <= i < |lines|
      ensures joined[i] == lines[i]
    {
      JoinSplit(lines[i], ',');
    }
    assert joined == lines;
    JoinSplit(text, '\n');
  }

  /**
   * The reading is the only one: rows of comma- and newline-free cells that
   * join back to the text are exactly the rows read from it.
   */
  lemma RowsDetermined(text: string, rows: seq<seq<string>>)
    requires |rows| >= 1
    requires forall i :: 0 <= i < |rows| ==> |rows[i]| >= 1
    requires forall i, j :: 0 <= i < |rows| && 0 <= j < |rows[i]| ==> ',' !in rows[i][j] && '\n' !in rows[i][j]
    requires JoinRows(rows) == text
    ensures Rows(text) == rows
  {
    var joined := seq(|rows|, i requires 0 <= i < |rows| => Join(rows[i], ','));
    forall i | 0 <= i < |rows|
      ensures '\n' !in joined[i] && Split(joined[i], ',') == rows[i]
    {
      JoinKeepsOut(rows[i], ',', '\n');
      SplitJoin(rows[i], ',');
    }
    SplitJoin(joined, '\n');
  }

  /** `isNaN(parseFloat(cell)) ? 0 : parseFloat(cell)`. */
  function GoalCell(cell: string): (g: real)
    ensures ParseNum(cell).Some? ==> g == ParseNum(cell).value
    ensures ParseNum(cell).None? ==> g == 0.0
  {
    ParseNum(cell).GetOr(0.0)
  }

  /** The goal vector of a row: one number per cell from the fourth on, none skipped. */
  function GoalVector(row: seq<string>): (v: seq<real>)
    requires |row| >= 3
    ensures |v| == |row| - 3
    ensures forall i :: 0 <= i < |v| ==> v[i] == GoalCell(row[3 + i])
  {
    var cells := row[3..];
    seq(|cells|, i requires 0 <= i < |cells| => GoalCell(cells[i]))
  }

  /** A row that is read: at least four cells and a non-empty athlete id. */
  predicate Usable(row: seq<string>) {
    |row| >= 4 && row[2] != ""
  }

  /** The goal table, the order its keys were first set in, and the profile registry. */
  datatype Tables = Tables(goals: GoalTable, order: seq<string>, profiles: Profiles)

  /** The key order lists every key of the goal table exactly once. */
  predicate OrderOk(t: Tables) {
    DistinctKeys(t.order) && Covers(t.order, t.goals)
  }

  /** One row of the file (not the header): skipped, or it sets the id's vector and may add a profile. */
  function ReadRow(t: Tables, row: seq<string>): Tables {
    if !Usable(row) then t
    else
      var id := row[2];
      Tables(
        t.goals[id := GoalVector(row)],
        if id in t.goals then t.order else t.order + [id],
        UpsertFromGoalRow(t.profiles, id, row[1]))
  }

  /** The rows, read in order. */
  function ReadRows(t: Tables, rows: seq<seq<string>>): (r: Tables)
    ensures t.goals.Keys <= r.goals.Keys && t.profiles.Keys <= r.profiles.Keys
    ensures t.order <= r.order
  {
    if |rows| == 0 then t else ReadRow(ReadRows(t, rows[..|rows| - 1]), rows[|rows| - 1])
  }

  /** The whole file: the header row is skipped. */
  function ReadGoalsText(t: Tables, text: string): Tables {
    ReadRows(t, Rows(text)[1..])
  }

  /** The last usable row of `id`, if any. */
  function LastRowOf(rows: seq<seq<string>>, id: string): (r: Option<seq<string>>)
    ensures r.Some? ==> Usable(r.value) && r.value[2] == id && r.value in rows
  {
    if |rows| == 0 then None
    else if Usable(rows[|rows| - 1]) && rows[|rows| - 1][2] == id then Some(rows[|rows| - 1])
    else LastRowOf(rows[..|rows| - 1], id)
  }

  // ---------------------------------------------------------------- properties

  /**
   * One row: an unusable row changes nothing; a usable one sets its id's
   * vector, adds the id to the table and, if new, to the end of the key
   * order, and leaves every other id's vector as it was.
   */
  lemma ReadRowEffect(t: Tables, row: seq<string>)
    ensures var r := ReadRow(t, row);
      && (!Usable(row) ==> r == t)
      && (Usable(row) ==>
          && r.goals.Keys == t.goals.Keys + {row[2]}
          && r.goals[row[2]] == GoalVector(row)
          && (forall id :: id in t.goals && id != row[2] ==> r.goals[id] == t.goals[id])
          && r.profiles == UpsertFromGoalRow(t.profiles, row[2], row[1]))
      && t.order <= r.order
  {
  }

  /** One row keeps the key order a duplicate-free listing of the table's keys. */
  lemma ReadRowOrder(t: Tables, row: seq<string>)
    requires OrderOk(t)
    ensures OrderOk(ReadRow(t, row))
  {
    if Usable(row) {
      var r := ReadRow(t, row);
      SetKeyOrder(t.order, t.goals, row[2], GoalVector(row));
      assert r.goals == t.goals[row[2] := GoalVector(row)];
      assert r.order == if row[2] in t.goals then t.order else t.order + [row[2]];
    }
  }

  /** Setting a key, and appending it to the order when it is new, keeps the order a listing of the keys. */
  lemma SetKeyOrder(order: seq<string>, goals: GoalTable, id: string, v: seq<real>)
    requires DistinctKeys(order) && Covers(order, goals)
    ensures var o := if id in goals then order else order + [id];
      DistinctKeys(o) && Covers(o, goals[id := v])
  {
    if id !in goals {
      assert (set x | x in order + [id]) == (set x | x in order) + {id};
    }
  }

  /** Reading rows keeps the key order a duplicate-free listing of the table's keys. */
  lemma {:induction false} ReadRowsOrder(t: Tables, rows: seq<seq<string>>)
    requires OrderOk(t)
    ensures OrderOk(ReadRows(t, rows))
  {
    if |rows| > 0 {
      ReadRowsOrder(t, rows[..|rows| - 1]);
    }
  }

  /**
   * The table after the rows: an id's vector comes from its last usable row
   * (one number per goal cell), and an id no usable row names keeps what it had.
   */
  lemma {:induction false} ReadRowsGoals(t: Tables, rows: seq<seq<string>>, id: string)
    ensures match LastRowOf(rows, id)
      case Some(row) => id in ReadRows(t, rows).goals && ReadRows(t, rows).goals[id] == GoalVector(row)
                        && |ReadRows(t, rows).goals[id]| == |row| - 3
      case None => (id in ReadRows(t, rows).goals <==> id in t.goals)
                   && (id in t.goals ==> ReadRows(t, rows).goals[id] == t.goals[id])
  {
    if |rows| > 0 {
      ReadRowsGoals(t, rows[..|rows| - 1], id);
    }
  }

  /** A row that is too short or has no id changes nothing at all. */
  lemma UnusableRowIgnored(t: Tables, rows: seq<seq<string>>, row: seq<string>)
    requires !Usable(row)
    ensures ReadRows(t, rows + [row]) == ReadRows(t, rows)
  {
    assert (rows + [row])[..|rows|] == rows;
  }

  /** Profiles that exist are never touched by the goal file, whatever its rows. */
  lemma {:induction false} ReadRowsKeepsProfiles(t: Tables, rows: seq<seq<string>>, id: string)
    requires id in t.profiles
    ensures id in ReadRows(t, rows).profiles && ReadRows(t, rows).profiles[id] == t.profiles[id]
  {
    if |rows| > 0 {
      ReadRowsKeepsProfiles(t, rows[..|rows| - 1], id);
    }
  }

  /** A cell holding the numeral of n is the goal n. */
  lemma NumeralCell(n: nat)
    ensures GoalCell(NatToString(n)) == n as real
  {
    NatToStringParses(n);
  }

  /** A blank cell, or one without a digit (`abc`), is the goal 0. */
  lemma NoDigitNoNumber(s: string)
    requires forall i :: 0 <= i < |s| ==> !IsDigit(s[i])
    ensures GoalCell(s) == 0.0
  {
    if StartsNumber(s) {
      NumberNeedsDigit(s);
    }
  }
}
