/**
 * The registry of runner profiles (`runnerProfiles`), keyed by athlete id.
 * Activity records insert a profile or refresh its picture; a goal-table row
 * only inserts one that is missing; nothing ever removes one.
 */
module Registry {
  import opened Wrappers
  import opened Text
  import opened Records

  type Profiles = map<string, Profile>

  /** The profile shown for an id nobody has described. */
  const Unknown := Profile("Unknown", "", None)

  /** `runnerProfiles[id] || { firstname: 'Unknown', lastname: '', picture: null }`. */
  function Resolve(profiles: Profiles, id: string): (p: Profile)
    ensures id in profiles ==> p == profiles[id]
    ensures id !in profiles ==> p == Unknown
  {
    if id in profiles then profiles[id] else Unknown
  }

  /**
   * One activity record: a new id gets the record's names and picture; a
   * known id keeps its names and takes the picture only when it is non-empty.
   */
  function UpsertFromActivity(profiles: Profiles, r: Runner): (p: Profiles)
    ensures p.Keys == profiles.Keys + {r.athleteId}
    ensures forall id :: id in profiles && id != r.athleteId ==> p[id] == profiles[id]
    ensures r.athleteId !in profiles ==> p[r.athleteId] == Profile(r.firstname, r.lastname, r.picture)
    ensures r.athleteId in profiles ==>
      && p[r.athleteId].firstname == profiles[r.athleteId].firstname
      && p[r.athleteId].lastname == profiles[r.athleteId].lastname
      && p[r.athleteId].picture == (if Truthy(r.picture) then r.picture else profiles[r.athleteId].picture)
  {
    var id := r.athleteId;
    if id !in profiles then profiles[id := Profile(r.firstname, r.lastname, r.picture)]
    else if Truthy(r.picture) then profiles[id := profiles[id].(picture := r.picture)]
    else profiles
  }

  /** The records of a week, upserted in order. */
  function UpsertAll(profiles: Profiles, recs: seq<Runner>): (p: Profiles)
    ensures profiles.Keys <= p.Keys
    ensures forall id :: id in profiles && id !in IdsOf(recs) ==> p[id] == profiles[id]
  {
    if |recs| == 0 then profiles
    else
      IdsOfLast(recs);
      UpsertFromActivity(UpsertAll(profiles, recs[..|recs| - 1]), recs[|recs| - 1])
  }

  /** The picture of the latest record of `id` whose picture is non-empty. */
  function LastPicture(recs: seq<Runner>, id: string): (u: Option<string>)
    ensures u.Some? ==> Truthy(u) && id in IdsOf(recs)
  {
    if |recs| == 0 then None
    else if recs[|recs| - 1].athleteId == id && Truthy(recs[|recs| - 1].picture) then recs[|recs| - 1].picture
    else LastPicture(recs[..|recs| - 1], id)
  }

  /** After any run of activity records the registry knows the old ids plus the records' ids. */
  lemma {:induction false} UpsertAllKeys(profiles: Profiles, recs: seq<Runner>)
    ensures UpsertAll(profiles, recs).Keys == profiles.Keys + IdsOf(recs)
  {
    if |recs| > 0 {
      var init, last := recs[..|recs| - 1], recs[|recs| - 1];
      UpsertAllKeys(profiles, init);
      var before := UpsertAll(profiles, init);
      assert UpsertAll(profiles, recs).Keys == before.Keys + {last.athleteId};
      IdsOfLast(recs);
    }
  }

  /**
   * Names are set once: an existing profile keeps its names, a new one takes
   * those of the id's first record.
   */
  lemma {:induction false} UpsertAllNames(profiles: Profiles, recs: seq<Runner>, id: string)
    requires id in profiles || id in IdsOf(recs)
    ensures id in UpsertAll(profiles, recs)
    ensures var p := UpsertAll(profiles, recs)[id];
      var from := if id in profiles then profiles[id] else
        var r := FirstRecord(recs, id).value; Profile(r.firstname, r.lastname, r.picture);
      p.firstname == from.firstname && p.lastname == from.lastname
  {
    UpsertAllKeys(profiles, recs);
    if |recs| > 0 {
      var init, last := recs[..|recs| - 1], recs[|recs| - 1];
      UpsertAllKeys(profiles, init);
      IdsOfLast(recs);
      if id in profiles || id in IdsOf(init) {
        UpsertAllNames(profiles, init, id);
      }
    }
  }

  /**
   * The picture is the last non-empty one among the records, or else the one
   * the profile had, or else that of the id's first record.
   */
  lemma {:induction false} UpsertAllPicture(profiles: Profiles, recs: seq<Runner>, id: string)
    requires id in profiles || id in IdsOf(recs)
    ensures id in UpsertAll(profiles, recs)
    ensures UpsertAll(profiles, recs)[id].picture ==
        if LastPicture(recs, id).Some? then LastPicture(recs, id)
        else if id in profiles then profiles[id].picture
        else FirstRecord(recs, id).value.picture
  {
    UpsertAllKeys(profiles, recs);
    if |recs| > 0 {
      var init, last := recs[..|recs| - 1], recs[|recs| - 1];
      UpsertAllKeys(profiles, init);
      IdsOfLast(recs);
      if id in profiles || id in IdsOf(init) {
        UpsertAllPicture(profiles, init, id);
      } else {
        UpsertAllPictureNew(profiles, recs, id);
      }
    }
  }

  /** An id first met in the last record takes that record's picture. */
  lemma UpsertAllPictureNew(profiles: Profiles, recs: seq<Runner>, id: string)
    requires |recs| > 0 && recs[|recs| - 1].athleteId == id
    requires id !in profiles && id !in IdsOf(recs[..|recs| - 1])
    ensures id in UpsertAll(profiles, recs)
    ensures UpsertAll(profiles, recs)[id].picture ==
        if LastPicture(recs, id).Some? then LastPicture(recs, id) else FirstRecord(recs, id).value.picture
  {
    var init, last := recs[..|recs| - 1], recs[|recs| - 1];
    UpsertAllKeys(profiles, init);
    assert id !in UpsertAll(profiles, init);
    assert LastPicture(init, id) == None;
    assert FirstRecord(recs, id) == Some(last);
  }

  // ---------------------------------------------------------------- names from the goal table

  /**
   * `name.trim().split(' ')`: the first name is the text before the first
   * space (the untrimmed name when the trimmed one is empty), the last name
   * is everything after that space.
   */
  function SplitName(name: string): (r: (string, string))
    ensures Trim(name) != "" ==> r.0 != "" && ' ' !in r.0
    ensures Trim(name) == "" ==> r == (name, "")
  {
    var parts := Split(Trim(name), ' ');
    (if parts[0] != "" then parts[0] else name, Join(parts[1..], ' '))
  }

  /** The two halves of a split name put back together give the trimmed name. */
  lemma SplitNameParts(name: string)
    ensures var t := Trim(name);
      && (' ' in t ==> t == SplitName(name).0 + " " + SplitName(name).1 && ' ' !in SplitName(name).0)
      && (' ' !in t && t != "" ==> SplitName(name) == (t, ""))
      && (t == "" ==> SplitName(name) == (name, ""))
  {
    var t := Trim(name);
    var parts := Split(t, ' ');
    JoinSplit(t, ' ');
    if ' ' in t {
      assert |parts| >= 2;
      assert !IsSpace(t[0]);
      assert parts[0] != "";
      assert Join(parts, ' ') == parts[0] + [' '] + Join(parts[1..], ' ');
    } else if t != "" {
      assert |parts| == 1 && parts[1..] == [];
      assert !IsSpace(t[0]);
    } else {
      assert parts == [""];
    }
  }

  /** A goal-table row: inserts a profile without picture for an unseen id, leaves a known one alone. */
  function UpsertFromGoalRow(profiles: Profiles, id: string, name: string): (p: Profiles)
    ensures p.Keys == profiles.Keys + {id}
    ensures forall other :: other in profiles ==> p[other] == profiles[other]
    ensures id !in profiles ==> p[id] == Profile(SplitName(name).0, SplitName(name).1, None)
  {
    if id in profiles then profiles
    else profiles[id := Profile(SplitName(name).0, SplitName(name).1, None)]
  }
}
