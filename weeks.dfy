/**
 * Naming of a week file: `week4.json` gives the id `week4`, the number 4
 * (the week whose goals sit at index 3) and the display name `Week 4`.
 */
module Weeks {
  import opened Wrappers
  import opened Text

  datatype Label = Label(id: string, name: string, weekNum: nat)

  /** `s.replace(pat, "")` with a string pattern: removes the first occurrence only. */
  function RemoveFirst(s: string, pat: string): (r: string)
    requires |pat| > 0
    ensures pat <= s ==> r == s[|pat|..]
    ensures |r| == |s| || |r| == |s| - |pat|
    ensures |r| == |s| ==> r == s
  {
    if pat <= s then s[|pat|..]
    else if |s| == 0 then s
    else [s[0]] + RemoveFirst(s[1..], pat)
  }

  /** `pat` occurs in `s` at position `k`. */
  predicate OccursAt(s: string, pat: string, k: int) {
    0 <= k && k + |pat| <= |s| && s[k..k + |pat|] == pat
  }

  /** The earliest occurrence of the pattern is the one removed; the text around it is kept. */
  lemma {:induction false} RemoveFirstEarliest(s: string, pat: string, k: nat)
    requires |pat| > 0 && OccursAt(s, pat, k)
    requires forall j :: 0 <= j < k ==> !OccursAt(s, pat, j)
    ensures RemoveFirst(s, pat) == s[..k] + s[k + |pat|..]
  {
    if k == 0 {
      assert pat <= s;
    } else {
      assert !OccursAt(s, pat, 0);
      assert !(pat <= s);
      var t := s[1..];
      assert t[k - 1..k - 1 + |pat|] == s[k..k + |pat|];
      forall j | 0 <= j < k - 1
        ensures !OccursAt(t, pat, j)
      {
        assert !OccursAt(s, pat, j + 1);
        if j + |pat| <= |t| {
          assert t[j..j + |pat|] == s[j + 1..j + 1 + |pat|];
        }
      }
      RemoveFirstEarliest(t, pat, k - 1);
      assert s[..k] == [s[0]] + t[..k - 1];
      assert s[k + |pat|..] == t[k - 1 + |pat|..];
    }
  }

  /** Without an occurrence of the pattern the text comes back unchanged. */
  lemma {:induction false} RemoveFirstAbsent(s: string, pat: string)
    requires |pat| > 0
    requires forall j :: 0 <= j <= |s| - |pat| ==> !OccursAt(s, pat, j)
    ensures RemoveFirst(s, pat) == s
  {
    if |s| > 0 {
      if |pat| <= |s| {
        assert !OccursAt(s, pat, 0);
      }
      assert !(pat <= s);
      var t := s[1..];
      forall j | 0 <= j <= |t| - |pat|
        ensures !OccursAt(t, pat, j)
      {
        assert !OccursAt(s, pat, j + 1);
        assert t[j..j + |pat|] == s[j + 1..j + 1 + |pat|];
      }
      RemoveFirstAbsent(t, pat);
      assert [s[0]] + t == s;
    }
  }

  /**
   * Where `/(\D+)(\d+)/` first matches, the boundary between its two groups:
   * the first digit that follows a non-digit, searched from `from` on.
   */
  function NumberStart(s: string, from: nat): (k: Option<nat>)
    requires 1 <= from
    ensures k.Some? ==> from <= k.value < |s| && IsDigit(s[k.value]) && !IsDigit(s[k.value - 1])
    ensures k.Some? ==> forall i :: from <= i < k.value ==> IsDigit(s[i - 1]) || !IsDigit(s[i])
    ensures k.None? ==> forall i :: from <= i < |s| ==> IsDigit(s[i - 1]) || !IsDigit(s[i])
    decreases |s| - from
  {
    if from >= |s| then None
    else if IsDigit(s[from]) && !IsDigit(s[from - 1]) then Some(from)
    else NumberStart(s, from + 1)
  }

  /** `s.replace(/(\D+)(\d+)/, '$1 $2')`: a space between the first word and the number after it. */
  function SpaceBeforeNumber(s: string): (r: string)
    ensures |r| == |s| || |r| == |s| + 1
  {
    match NumberStart(s, 1)
    case None => s
    case Some(k) => s[..k] + " " + s[k..]
  }

  /** `s.replace(/^\w/, c => c.toUpperCase())`: only a lower-case ASCII letter changes. */
  function Capitalize(s: string): (r: string)
    ensures |r| == |s| && (|s| > 0 ==> r[1..] == s[1..])
  {
    if |s| > 0 && 'a' <= s[0] <= 'z' then [(s[0] as int - 32) as char] + s[1..] else s
  }

  /**
   * The id, display name and number derived from a week's file name; None
   * when the id holds no digit, where `weekId.match(/\d+/)[0]` throws and the
   * file is skipped.
   */
  function WeekLabel(filename: string): (l: Option<Label>)
    ensures l.Some? ==> l.value.id == RemoveFirst(filename, ".json")
    ensures l.None? <==> forall i :: 0 <= i < |RemoveFirst(filename, ".json")| ==> !IsDigit(RemoveFirst(filename, ".json")[i])
  {
    var id := RemoveFirst(filename, ".json");
    match FirstDigitRun(id)
    case None => None
    case Some(digits) => Some(Label(id, Capitalize(SpaceBeforeNumber(id)), DigitsValue(digits)))
  }

  /** `week<n>.json` is labelled `week<n>`, `Week <n>`, number n. */
  lemma WeekFileLabel(n: nat)
    ensures WeekLabel("week" + NatToString(n) + ".json")
         == Some(Label("week" + NatToString(n), "Week " + NatToString(n), n))
  {
    var ds := NatToString(n);
    RemoveSuffixOnly("week" + ds, ".json");
    WeekIdParts(ds);
    NatToStringValue(n);
  }

  lemma WeekIdParts(ds: string)
    requires |ds| >= 1 && AllDigits(ds)
    ensures FirstDigitRun("week" + ds) == Some(ds)
    ensures Capitalize(SpaceBeforeNumber("week" + ds)) == "Week " + ds
  {
    WeekNumberRun(ds);
    WeekNameSpaced(ds);
    CapitalizeWeek(ds);
  }

  lemma WeekNumberRun(ds: string)
    requires |ds| >= 1 && AllDigits(ds)
    ensures FirstDigitRun("week" + ds) == Some(ds)
  {
    FirstDigitRunSkips("week", ds);
    DigitPrefixAll(ds);
    assert IsDigit(ds[0]);
  }

  lemma CapitalizeWeek(ds: string)
    ensures Capitalize("week " + ds) == "Week " + ds
  {
    var s := "week " + ds;
    assert s[0] == 'w' && s[1..] == "eek " + ds;
    assert (s[0] as int - 32) as char == 'W';
    assert "Week " + ds == ['W'] + ("eek " + ds);
  }

  lemma WeekNameSpaced(ds: string)
    requires |ds| >= 1 && AllDigits(ds)
    ensures SpaceBeforeNumber("week" + ds) == "week " + ds
  {
    var id := "week" + ds;
    assert id[0] == 'w' && id[1] == 'e' && id[2] == 'e' && id[3] == 'k' && IsDigit(id[4]);
    assert NumberStart(id, 4) == Some(4);
    assert NumberStart(id, 3) == Some(4);
    assert NumberStart(id, 2) == Some(4);
    assert NumberStart(id, 1) == Some(4);
    assert id[..4] == "week" && id[4..] == ds;
  }

  lemma {:induction false} FirstDigitRunSkips(p: string, t: string)
    requires forall i :: 0 <= i < |p| ==> !IsDigit(p[i])
    ensures FirstDigitRun(p + t) == FirstDigitRun(t)
  {
    if |p| > 0 {
      FirstDigitRunSkips(p[1..], t);
      assert (p + t)[1..] == p[1..] + t;
    } else {
      assert p + t == t;
    }
  }

  /** When no '.' occurs before the suffix, the first occurrence of the suffix is at the end. */
  lemma {:induction false} RemoveSuffixOnly(s: string, suffix: string)
    requires |suffix| > 0 && suffix[0] == '.' && '.' !in s
    ensures RemoveFirst(s + suffix, suffix) == s
  {
    if |s| == 0 {
      assert s + suffix == suffix;
    } else {
      assert !(suffix <= s + suffix) by { assert (s + suffix)[0] != suffix[0]; }
      RemoveSuffixOnly(s[1..], suffix);
      assert (s + suffix)[1..] == s[1..] + suffix;
      assert [s[0]] + s[1..] == s;
    }
  }
}
