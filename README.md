# Running-club dashboard: goals and achievements

A model, in Dafny, of the data core of a running-club dashboard (`app.js`).
The dashboard loads one JSON file of activity records per week and a CSV
file of weekly distance goals per athlete. From these it shows three
things:

- a weekly table: the week's records plus a zero-distance row for every
  athlete committed to a positive goal who has no record, sorted by
  distance and ranked;
- a weekly summary: runners, total distance, total goal and goals met;
- an all-time table: per athlete, the total distance, the total goal and
  the total shortfall ("missed km"), sorted and ranked.

The model is organised as the program is:

- `Records`: the entities (profile, activity record, week, all-time entry)
  and the per-entry metrics.
- `Text`: `split`, `join`, `trim` and `parseFloat` on strings.
- `Weeks`: a week file's id, display name and number, taken from its name.
- `Registry`: the runner registry (`runnerProfiles`), upserted from
  activity records and from goal rows.
- `Goals`: reading the goal CSV.
- `Ranking`: the stable sort by descending key and the rank assignment, as
  a specification and as in-place array methods.
- `Roster`: the weekly roster, the weekly table and the weekly summary.
- `AllTime`: the three passes of the all-time aggregation.
- `Loading`: which files become weeks.
- `App.Dashboard`: the page's state (`weeksData`, `goalsData` with its key
  order, `runnerProfiles`, `currentWeekId`) as a class whose methods run the
  program's loops and are proved equal to the functions above.

Distances are metres (`nat`); goals and shortfalls are kilometres (`real`).
A goal is looked up by index: `goals[id][index]`, or 0 when the id or the
index is missing. The weekly view uses `weekNum - 1` as the index. The
all-time view uses the week's position in the list of loaded weeks. The
model keeps that difference and states it (`AllTime.PositionNotNumber`).

## Model

| member | source | states |
|---|---|---|
| Weeks.WeekLabel | app.js:55-61 | the id is the file name with the first `.json` removed; there is no label (the file is skipped) exactly when the id has no digit |
| Weeks.WeekFileLabel | app.js:55-61 | `week<n>.json` gives id `week<n>`, name `Week <n>` and number n |
| Weeks.RemoveSuffixOnly | app.js:55 | removing the first `.json` from a dot-free name followed by `.json` leaves the name |
| Weeks.RemoveFirst | app.js:55 | a string-pattern `replace` removes at most one occurrence: the result is the text unchanged or shorter by exactly the pattern's length, and a leading pattern is the one removed |
| Weeks.RemoveFirstEarliest | app.js:55 | when the earliest occurrence of the pattern starts at k, the result is the text with exactly those characters cut out |
| Weeks.RemoveFirstAbsent | app.js:55 | when the pattern occurs nowhere, the text comes back unchanged |
| Loading.WeekOf | app.js:47-63 | a file yields a week exactly when it was parsed and its name holds a digit; the week's records are `json.data`, or none |
| Loading.LoadedWeeks | app.js:46-87 | there are never more weeks than files |
| Loading.LoadedWeeksFromFiles | app.js:46-87 | every loaded week comes from some file, in that file's terms |
| Loading.UsableFileLoaded | app.js:46-91 | a parsed file whose name holds a digit is never dropped |
| Loading.LoadStep | app.js:46-87 | one more file appends its week, if any, and registers exactly that week's records |
| App.Dashboard.LoadWeekFile | app.js:47-87 | one file: its records are upserted into the registry and its week is appended, or nothing changes |
| App.Dashboard.LoadWeeks | app.js:43-97 | the weeks are those the files yield in order; the registry is the old one upserted with all their records in order; the latest week becomes current, else the current id stays |
| App.Dashboard.RegisterRecords | app.js:66-79 | the registry after the loop is the upsert of every record in order |
| Registry.UpsertAll | app.js:66-79 | upserting a run of records keeps every known id, and leaves the profile of an id with no record untouched |
| Registry.UpsertFromActivity | app.js:66-79 | a new id takes the record's names and picture; a known id keeps its names and takes the picture only if it is non-empty; no other id changes |
| Registry.UpsertAllKeys | app.js:66-79 | after a run of records the registry knows exactly the old ids plus the records' ids |
| Registry.UpsertAllNames | app.js:66-79 | names are set once: from the existing profile, or else from the id's first record |
| Registry.UpsertAllPicture | app.js:73-77 | the picture is the last non-empty one among the records, or else the existing one, or else the first record's |
| Registry.UpsertAllPictureNew | app.js:70-77 | for an id first seen in the last record, its picture is that record's if non-empty, else the first record's |
| Registry.Resolve | app.js:254 | a known id gives its profile; an unknown one `Unknown`, empty last name, no picture |
| Registry.SplitName | app.js:121-124 | a name that is not blank gives a non-empty first name with no space in it; a blank name is kept whole as the first name with an empty last name |
| Registry.SplitNameParts | app.js:121-124 | with a space in the trimmed name, first and last name joined by a space give it back and the first name holds no space; without one the last name is empty; an all-blank name is kept whole as the first name |
| Registry.UpsertFromGoalRow | app.js:120-127 | an unseen id gets the split name and no picture; a known id and every other id are left alone |
| Text.Split | app.js:107 | `split` gives at least one piece, none holding the separator, and more than one exactly when the separator occurs |
| Text.JoinSplit | app.js:107 | joining the pieces of a split gives the text back |
| Text.SplitJoin | app.js:107 | splitting a join of separator-free pieces gives the pieces back |
| Text.Trim | app.js:121 | the result is a slice of the text with only white space (ASCII and the Unicode space separators, line and paragraph separators and BOM) before and after it, and it neither starts nor ends with white space |
| Text.ParseNum | app.js:132 | a number is read exactly when, after leading white space and an optional sign, the text starts with a digit, or with a point followed by a digit |
| Text.NumberNeedsDigit | app.js:132-133 | text that gives a number holds a digit |
| Text.ParseFromDigits | app.js:132 | text starting with a run of digits reads as their value plus the fraction that follows; for `d.f`, the fraction is that of the digits after the point |
| Text.NatToStringParses | app.js:132 | reading a whole-number numeral gives that number |
| Text.NumeralThenText | app.js:132 | a numeral followed by any character that is neither a digit nor a point (a carriage return, say) reads as the numeral's number |
| Goals.Rows | app.js:107 | the text is cut into lines and each line into cells; there is always a line and a cell, and no cell holds a comma or a line break |
| Goals.RowsDetermined | app.js:107 | the cut is the only one: rows of comma- and line-break-free cells that join back to the text are exactly the rows read from it |
| Goals.RowsRoundTrip | app.js:107 | joining the cells by commas and the lines by newlines gives the text back |
| Goals.GoalCell | app.js:131-134 | a cell is the number it starts with, or 0 when it holds none |
| Goals.GoalVector | app.js:131-134 | one goal per cell from the fourth on, in order, none skipped |
| Goals.NumeralCell | app.js:132-133 | a cell holding the numeral of n is the goal n |
| Goals.NoDigitNoNumber | app.js:132-133 | an empty cell, or one without a digit, is the goal 0 |
| Goals.ReadRowEffect | app.js:111-136 | an unusable row changes nothing; a usable one sets its id's vector from its cells, adds the id to the table, leaves every other id's goals alone, upserts the profile from the name and only appends to the key order |
| Goals.ReadRowOrder | app.js:111-136 | one row keeps the key order a duplicate-free list of the goal table's keys |
| Goals.ReadRows | app.js:110-136 | reading rows never removes a goal id or a profile, and only appends to the key order |
| Goals.ReadRowsOrder | app.js:110-136 | reading rows keeps the key order a duplicate-free list of the goal table's keys, and only appends to it |
| Goals.ReadRowsGoals | app.js:110-136 | an id's vector comes from its last usable row; an id no usable row names keeps what it had |
| Goals.UnusableRowIgnored | app.js:112-115 | a row with fewer than four cells or an empty id changes nothing |
| Goals.ReadRowsKeepsProfiles | app.js:120-127 | a profile that exists is never changed by the goal file |
| App.Dashboard.ReadGoalRow | app.js:111-136 | one row changes the goal table, its key order and the registry as `ReadRow` says, and the key order stays a duplicate-free list of the table's keys |
| App.Dashboard.LoadGoals | app.js:101-137 | the tables after the loop are those of reading every row after the header; the key order stays duplicate-free |
| Records.GoalAt | app.js:293-294 | the goal at an index, or 0 when the id or the index is missing |
| Records.Missed | app.js:296 | the shortfall is never negative; it is 0 exactly when the goal is met, else distance plus shortfall is the goal |
| Records.NoGoalIsMet | app.js:297 | with no positive goal the goal is met and nothing is missed |
| Records.FirstRecord | app.js:66-79 | the record of an id whose names and picture a new registry entry takes (used by the registry lemmas): it is the id's, and none is found exactly when no record has that id |
| Records.FirstRecordIsFirst | app.js:66-72 | the record whose names an unseen id's profile takes is its first one: no earlier record has that id |
| Roster.FindWeek | app.js:234 | the week found is the first loaded week with the current id; none exactly when there is no current id or no week has it |
| Roster.Placeholder | app.js:254-263 | the added row has the athlete's id, distance 0, rank 999, and the profile's names and picture, or `Unknown`, an empty last name and no picture for an unknown id |
| Roster.Synthesized | app.js:248-265 | every added row is the placeholder of an id from the key order that has no record this week and a positive goal for it; there are at most as many as ids |
| Roster.WeekRoster | app.js:242-265 | the roster starts with the week's records; every row after them has distance 0 and an id without a record |
| Roster.SynthesizedExactly | app.js:248-265 | a goal-table id gets a zero-distance row exactly when its goal for the week is positive and the week has no record of it |
| Roster.RosterDistinct | app.js:242-265 | a week naming each athlete once gives a roster naming each athlete once |
| Roster.CommitmentDecidesPresence | app.js:248-265 | with goals `[10, 0, 5]` and no record, the athlete is absent from week 2 and has a zero row in week 3 |
| Roster.RankRows | app.js:271-273 | the i-th row gets rank i + 1 and is otherwise unchanged |
| Roster.WeeklyTable | app.js:267-273 | the table has one row per roster row, and the i-th is ranked i + 1 |
| Roster.WeeklyTableRanked | app.js:267-273 | the weekly table holds the roster's rows, each as often, by non-increasing distance, ranked 1..N, equal distances in roster order |
| Roster.TieKeepsRosterOrder | app.js:268 | of two rows with the same distance, the one listed first is ranked first |
| Roster.IdsAndDistances | app.js:350 | the summary's rows carry the ids and distances of the roster's rows |
| Roster.CountMet | app.js:367-369 | goals met are at most the rows |
| Roster.MetNeedsCommitment | app.js:361-370 | only rows with a positive goal can count as having met it |
| Roster.ZeroGoalNotCounted | app.js:367 | goal 0 and distance 0: the goal is met, yet the count of goals met stays 0 |
| Roster.TotalDistanceIsRecorded | app.js:354 | the week's total distance is that of its records; added rows contribute nothing |
| Roster.SummaryRows | app.js:343-352 | the summary's rows start with the ids and distances of the week's records; every later one has distance 0 and an id without a record |
| Roster.ZerosAreSynthesized | app.js:343-352 | the zero rows of the summary are the ids and distances of the weekly roster's added rows |
| Roster.SummaryMatchesTable | app.js:343-352 | the summary's own roster has the same ids and distances, in the same order, as the table's roster |
| Roster.Summarize | app.js:354-370 | the runner count is the number of rows, and goals met never exceed it |
| Ranking.Insert | app.js:268 | inserting a row lengthens the sequence by one |
| Ranking.StableSort | app.js:268 | the sort keeps the length |
| Ranking.InsertSorted | app.js:268 | inserting into a sorted sequence keeps it sorted |
| Ranking.InsertPermutation | app.js:268 | inserting adds exactly one row |
| Ranking.StableSortSorted | app.js:268 | the sort's result is ordered by non-increasing key |
| Ranking.StableSortPermutation | app.js:268 | the sort's result holds the same rows, each as many times |
| Ranking.StableSortStable | app.js:268 | for every key, the rows with that key keep their relative order |
| Ranking.SortByKeyDesc | app.js:268 | the array, sorted in place, holds the stable sort of its old contents |
| Ranking.InsertLast | app.js:268 | one step of insertion sort inserts the next row into the sorted prefix and leaves the rest alone |
| Ranking.AssignRanks | app.js:271-273 | every element gets rank index + 1 and is otherwise unchanged |
| App.Dashboard.CurrentWeek | app.js:234 | the week found is the first one whose id is the current one |
| App.Dashboard.BuildRoster | app.js:242-265 | the roster is the week's records followed by the zero-distance rows |
| App.Dashboard.RankByDistance | app.js:267-273 | the array sort and rank give the ranked stable sort by distance |
| App.Dashboard.WeekTable | app.js:230-273 | the weekly table of the current week, or none without one |
| App.Dashboard.SummaryRowsOf | app.js:343-352 | the summary's rows as defined by the records and the committed athletes without one |
| App.Dashboard.Tally | app.js:357-370 | the goal total and the goals met are the sums over the rows |
| App.Dashboard.Summary | app.js:333-370 | the current week's summary over the ids and distances of its table's roster, or none |
| App.Dashboard.HasRecord | app.js:472 | the search finds a record exactly when the id is among the week's records |
| AllTime.SeedFields | app.js:420-432 | a seeded entry has the id, zero totals, the sum of the goal vector as its total goal, the registry's last name and picture, and the registry's first name when non-empty, else `Unknown` |
| AllTime.SeedAll | app.js:419-433 | the seeded key order lists exactly the seeded athletes, once each, and each entry carries its own id |
| AllTime.SeedAllEntries | app.js:419-433 | seeding gives every goal athlete, in key order, its starting entry and no one else an entry |
| AllTime.SeededEntry | app.js:420-429 | exactly the goal-table athletes are seeded, each with names from the registry (`Unknown`/empty when missing) |
| AllTime.Step | app.js:437-458 | one record gives its athlete an entry, appending the athlete to the key order only when it had none |
| AllTime.StepEntry | app.js:437-458 | one record changes only its own athlete's entry, by its distance and its shortfall |
| AllTime.FoldEntry | app.js:436-460 | after all records, an entry is its starting entry plus the distance of all its records and their shortfalls against their weeks' goals |
| AllTime.FoldDomain | app.js:436-448 | the record pass creates an entry for every athlete with a record and for no one else |
| AllTime.FoldKeys | app.js:438-448 | the created athletes are appended to the key order in the order of their first records |
| AllTime.FirstOf | app.js:438-448 | the record found is the athlete's; none exactly when no record names it |
| AllTime.FirstOfIsFirst | app.js:438-448 | the record found is the athlete's first: no earlier record names it |
| AllTime.FoldMissing | app.js:436-448 | an athlete with neither an entry nor a record gets none |
| AllTime.Charge | app.js:468-477 | a week's charge is positive exactly when the week's goal is positive and the week has no record of the athlete |
| AllTime.ChargeAll | app.js:462-479 | the absence pass adds no entry and does not change the key order |
| AllTime.AbsentMissed | app.js:466-477 | the charge for absences is never negative |
| AllTime.ChargeAllEntry | app.js:462-479 | the absence pass adds to the shortfall only, by the sum of the week charges |
| AllTime.AbsentWeekCharged | app.js:468-477 | a committed week without a record adds exactly its goal, whatever the other weeks hold |
| AllTime.ExceptIgnoresWeek | app.js:468-477 | the other weeks' charges do not depend on that week at all |
| AllTime.Entries | app.js:417-479 | the key order of the three passes lists exactly the athletes with an entry, once each, and each entry carries its own id |
| AllTime.EntriesClosedForm | app.js:417-479 | every entry: names from the registry or the first record, total goal the sum of the vector, total distance that of all records, shortfall per record plus the full goal of each committed week without a record |
| AllTime.EntriesKeys | app.js:417-460 | the entries' order is the goal table's key order, then the other athletes as their first records come |
| AllTime.TotalMissedNonNegative | app.js:456-475 | no entry's total shortfall is negative |
| AllTime.AllTimeTable | app.js:481-488 | one row per entry, the i-th ranked i + 1 |
| AllTime.AllTimeTableRanked | app.js:481-488 | the all-time table holds the entries, each as often, by non-increasing total distance, ranked 1..N, equal totals in key order |
| AllTime.PositionNotNumber | app.js:436-477 | a lone week numbered 2 is charged against the first goal, while its weekly roster goes by the second goal |
| App.Dashboard.SeedGoalAthletes | app.js:419-433 | the loop builds the seeded entries |
| App.Dashboard.AddRecord | app.js:437-458 | one record, as the record pass defines it |
| App.Dashboard.FoldWeek | app.js:437-459 | one week's records, in order, are one more stretch of the record pass |
| App.Dashboard.FoldRecords | app.js:435-460 | the nested loops give the record pass over all weeks in order |
| App.Dashboard.ChargeAthlete | app.js:464-478 | one athlete is charged the sum of its week charges |
| App.Dashboard.ChargeAbsences | app.js:462-479 | the loop gives the absence pass over all entries |
| App.Dashboard.RankByTotalDistance | app.js:481-488 | the array sort and rank give the ranked stable sort of the entries by total distance |
| App.Dashboard.AllTimeSummary | app.js:416-488 | the all-time table computed from the current state |

## Left out

- Rendering, the DOM, event listeners, the week selector and switching `currentWeekId` are not modelled. Only the table rows and the summary figures are.
- `fetch`, `response.json()` and `response.text()` are not modelled. A week file is given as its name and either `Failed` (fetch or parse failure, skipped) or its parsed `data`. The goal file is given as its text. A goal file that fails to load leaves the tables as they were; that is the same as not calling `LoadGoals`.
- The two loads run concurrently (`Promise.all`). Their writes to the registry can interleave. The model runs each load as one step, in either order. It does not model a goal row's profile being added between two week files.
- `getWeekDateRange` and the `dateRange` of a week are not modelled. They are date formatting that no figure depends on.
- Text.ParseNum: reads, after leading white space, an optional sign, digits and an optional fraction. It does not read exponents (`1e3`) or `Infinity`. Numbers are exact reals, not IEEE doubles, so rounding in sums is not modelled.
- The example goal row `x,Jane Doe,123,5,,abc,10` is covered by its parts: `Goals.GoalVector`, `Goals.NumeralCell` and `Goals.NoDigitNoNumber`. No lemma evaluates that literal row. Literal strings such as `12.5` or `10\r` are likewise covered by `Text.ParseFromDigits` and `Text.NumeralThenText` rather than evaluated.
- Object key order: JavaScript lists integer-like keys (numeric athlete ids) first, in ascending order, then the other keys in insertion order. The model keeps insertion order for `goalsData` (`goalOrder`) and for the all-time entries (`keys`). This affects which row comes first among equal distances, and the order of added rows in the weekly roster. It does not affect any sum or count.
- Athlete ids are strings. The `toString()` and loose `==` comparisons of the source are taken as string equality.
- Distances are whole metres (`nat`). Fractional or negative distances in the JSON are not modelled.
- The sort puts `rank` into the objects of `weeksData` in place, because the weekly table copies only the array, not its records. The model returns new rows and leaves the weeks unchanged. This aliasing is not modelled; every value shown is the same.
- The all-time view also hides the date in the header. This is display only.
