/**
 * `rows.sort((a, b) => key(b) - key(a))` followed by `rank = index + 1`.
 * JavaScript's `Array.prototype.sort` is stable, so rows with equal keys keep
 * the order they had before sorting. `StableSort` is the reference
 * definition; `SortByKeyDesc` does the sort in place on an array.
 */
module Ranking {

  /** Keys never increase from one row to the next. */
  predicate SortedDesc<T>(s: seq<T>, key: T -> int) {
    forall i, j :: 0 <= i < j < |s| ==> key(s[i]) >= key(s[j])
  }

  /** The rows whose key is `k`, in their order. */
  function WithKey<T>(s: seq<T>, key: T -> int, k: int): seq<T> {
    if |s| == 0 then []
    else WithKey(s[..|s| - 1], key, k) + (if key(s[|s| - 1]) == k then [s[|s| - 1]] else [])
  }

  /** Puts `x` after every row whose key is at least its own. */
  function Insert<T>(x: T, s: seq<T>, key: T -> int): (r: seq<T>)
    ensures |r| == |s| + 1
  {
    if |s| == 0 then [x]
    else if key(s[0]) >= key(x) then [s[0]] + Insert(x, s[1..], key)
    else [x] + s
  }

  /** Insertion sort by descending key, each later row going after the equal ones. */
  function StableSort<T>(s: seq<T>, key: T -> int): (r: seq<T>)
    ensures |r| == |s|
  {
    if |s| == 0 then [] else Insert(s[|s| - 1], StableSort(s[..|s| - 1], key), key)
  }

  // ---------------------------------------------------------------- properties

  lemma InsertSorted<T>(x: T, s: seq<T>, key: T -> int)
    requires SortedDesc(s, key)
    ensures SortedDesc(Insert(x, s, key), key)
  {
    var j := InsertPosition(x, s, key);
    InsertAt(x, s, j, key);
    var r := s[..j] + [x] + s[j..];
    forall a, b | 0 <= a < b < |r| ensures key(r[a]) >= key(r[b]) {
      if b < j || a > j {
      } else if a == j {
        assert r[b] == s[b - 1] && key(s[b - 1]) <= key(s[j]);
      } else if b == j {
      } else {
        assert r[a] == s[a] && r[b] == s[b - 1];
      }
    }
  }

  lemma InsertPermutation<T>(x: T, s: seq<T>, key: T -> int)
    ensures multiset(Insert(x, s, key)) == multiset(s) + multiset{x}
  {
    var j := InsertPosition(x, s, key);
    InsertAt(x, s, j, key);
    assert s == s[..j] + s[j..];
  }

  /** The result of the sort is ordered by non-increasing key. */
  lemma {:induction false} StableSortSorted<T>(s: seq<T>, key: T -> int)
    ensures SortedDesc(StableSort(s, key), key)
  {
    if |s| > 0 {
      StableSortSorted(s[..|s| - 1], key);
      InsertSorted(s[|s| - 1], StableSort(s[..|s| - 1], key), key);
    }
  }

  /** The result of the sort holds the same rows, each as many times. */
  lemma {:induction false} StableSortPermutation<T>(s: seq<T>, key: T -> int)
    ensures multiset(StableSort(s, key)) == multiset(s)
  {
    if |s| > 0 {
      StableSortPermutation(s[..|s| - 1], key);
      InsertPermutation(s[|s| - 1], StableSort(s[..|s| - 1], key), key);
      assert s == s[..|s| - 1] + [s[|s| - 1]];
    }
  }

  lemma {:induction false} WithKeyAppend<T>(a: seq<T>, b: seq<T>, key: T -> int, k: int)
    ensures WithKey(a + b, key, k) == WithKey(a, key, k) + WithKey(b, key, k)
  {
    if |b| > 0 {
      WithKeyAppend(a, b[..|b| - 1], key, k);
      assert (a + b)[..|a + b| - 1] == a + b[..|b| - 1];
    } else {
      assert a + b == a;
    }
  }

  lemma {:induction false} WithKeyNone<T>(s: seq<T>, key: T -> int, k: int)
    requires forall i :: 0 <= i < |s| ==> key(s[i]) != k
    ensures WithKey(s, key, k) == []
  {
    if |s| > 0 {
      WithKeyNone(s[..|s| - 1], key, k);
    }
  }

  /** Where `Insert` puts `x`: after the rows keyed at least as high, before the rest. */
  lemma {:induction false} InsertAt<T>(x: T, s: seq<T>, j: nat, key: T -> int)
    requires j <= |s|
    requires forall i :: 0 <= i < j ==> key(s[i]) >= key(x)
    requires j < |s| ==> key(s[j]) < key(x)
    ensures Insert(x, s, key) == s[..j] + [x] + s[j..]
  {
    if j > 0 {
      InsertAt(x, s[1..], j - 1, key);
      assert s[1..][..j - 1] == s[1..j];
      assert [s[0]] + (s[1..j] + [x] + s[j..]) == s[..j] + [x] + s[j..];
    } else if |s| > 0 {
      assert s[..0] + [x] + s[0..] == [x] + s;
    }
  }

  lemma {:induction false} InsertKeepsKeyOrder<T>(x: T, s: seq<T>, key: T -> int, k: int)
    requires SortedDesc(s, key)
    ensures WithKey(Insert(x, s, key), key, k) == WithKey(s, key, k) + WithKey([x], key, k)
  {
    if |s| == 0 {
      assert Insert(x, s, key) == [x];
    } else if key(s[0]) >= key(x) {
      assert Insert(x, s, key) == [s[0]] + Insert(x, s[1..], key);
      SortedDrop(s, key);
      InsertKeepsKeyOrder(x, s[1..], key, k);
      WithKeyCons(s[0], Insert(x, s[1..], key), key, k);
      WithKeyCons(s[0], s[1..], key, k);
      assert [s[0]] + s[1..] == s;
    } else {
      InsertInFront(x, s, key, k);
    }
  }

  lemma SortedDrop<T>(s: seq<T>, key: T -> int)
    requires SortedDesc(s, key) && |s| > 0
    ensures SortedDesc(s[1..], key)
  {
    forall i, j | 0 <= i < j < |s[1..]| ensures key(s[1..][i]) >= key(s[1..][j]) {
      assert s[1..][i] == s[i + 1] && s[1..][j] == s[j + 1];
    }
  }

  lemma WithKeyCons<T>(y: T, s: seq<T>, key: T -> int, k: int)
    ensures WithKey([y] + s, key, k) == WithKey([y], key, k) + WithKey(s, key, k)
  {
    WithKeyAppend([y], s, key, k);
  }

  /** `x` keyed above every row of a sorted sequence goes in front without disturbing any key's order. */
  lemma InsertInFront<T>(x: T, s: seq<T>, key: T -> int, k: int)
    requires SortedDesc(s, key) && |s| > 0 && key(s[0]) < key(x)
    ensures WithKey([x] + s, key, k) == WithKey(s, key, k) + WithKey([x], key, k)
  {
    WithKeyCons(x, s, key, k);
    WithKeySingle(x, key, k);
    if key(x) == k {
      SortedTailBelow(s, 0, key, key(x));
      assert s[0..] == s;
      WithKeyNone(s, key, k);
    }
  }

  lemma WithKeySingle<T>(x: T, key: T -> int, k: int)
    ensures WithKey([x], key, k) == if key(x) == k then [x] else []
  {
    assert [x][..0] == [];
    assert WithKey([x], key, k) == WithKey([], key, k) + (if key(x) == k then [x] else []);
  }

  /** In a sorted sequence, every row from `j` on is keyed below what `s[j]` is keyed below. */
  lemma SortedTailBelow<T>(s: seq<T>, j: nat, key: T -> int, bound: int)
    requires SortedDesc(s, key) && j <= |s|
    requires j < |s| ==> key(s[j]) < bound
    ensures forall i :: 0 <= i < |s[j..]| ==> key(s[j..][i]) != bound
  {
    forall i | 0 <= i < |s[j..]| ensures key(s[j..][i]) < bound {
      assert s[j..][i] == s[j + i] && key(s[j + i]) <= key(s[j]);
    }
  }

  /** The number of leading rows whose key is at least `key(x)`. */
  function InsertPosition<T>(x: T, s: seq<T>, key: T -> int): (j: nat)
    ensures j <= |s|
    ensures forall i :: 0 <= i < j ==> key(s[i]) >= key(x)
    ensures j < |s| ==> key(s[j]) < key(x)
  {
    if |s| == 0 || key(s[0]) < key(x) then 0 else 1 + InsertPosition(x, s[1..], key)
  }

  /** Stability: for every key, the rows with that key keep their relative order. */
  lemma {:induction false} StableSortStable<T>(s: seq<T>, key: T -> int, k: int)
    ensures WithKey(StableSort(s, key), key, k) == WithKey(s, key, k)
  {
    if |s| > 0 {
      var init := s[..|s| - 1];
      StableSortStable(init, key, k);
      StableSortSorted(init, key);
      InsertKeepsKeyOrder(s[|s| - 1], StableSort(init, key), key, k);
      WithKeyAppend(init, [s[|s| - 1]], key, k);
      assert init + [s[|s| - 1]] == s;
    }
  }

  // ---------------------------------------------------------------- in place

  /** `a.sort((x, y) => key(y) - key(x))`. */
  method SortByKeyDesc<T>(a: array<T>, key: T -> int)
    modifies a
    ensures a[..] == StableSort(old(a[..]), key)
  {
    ghost var input := a[..];
    var i := 0;
    while i < a.Length
      invariant 0 <= i <= a.Length
      invariant a[..i] == StableSort(input[..i], key)
      invariant a[i..] == input[i..]
    {
      StableSortSorted(input[..i], key);
      InsertLast(a, i, key);
      assert input[..i + 1][..i] == input[..i];
      assert input[i..][0] == input[i];
      i := i + 1;
    }
    assert input[..a.Length] == input;
  }

  /** One step of insertion sort: moves `a[i]` left past the rows keyed below it. */
  method InsertLast<T>(a: array<T>, i: nat, key: T -> int)
    requires i < a.Length && SortedDesc(a[..i], key)
    modifies a
    ensures a[..i + 1] == Insert(old(a[i]), old(a[..i]), key)
    ensures a[i + 1..] == old(a[i + 1..])
  {
    ghost var sorted := a[..i];
    var x := a[i];
    var j := i;
    while j > 0 && key(a[j - 1]) < key(x)
      invariant 0 <= j <= i
      invariant forall m :: 0 <= m < j ==> a[m] == sorted[m]
      invariant forall m :: j < m <= i ==> a[m] == sorted[m - 1]
      invariant forall m :: i < m < a.Length ==> a[m] == old(a[m])
      invariant forall m :: j <= m < i ==> key(sorted[m]) < key(x)
    {
      a[j] := a[j - 1];
      j := j - 1;
    }
    a[j] := x;
    ShiftedIsInsert(a[..i + 1], sorted, x, j, key);
  }

  /** A sorted sequence with `x` placed after the rows keyed at least as high is the insertion of `x`. */
  lemma ShiftedIsInsert<T>(r: seq<T>, sorted: seq<T>, x: T, j: nat, key: T -> int)
    requires SortedDesc(sorted, key) && j <= |sorted| && |r| == |sorted| + 1
    requires forall m :: 0 <= m < j ==> r[m] == sorted[m]
    requires r[j] == x
    requires forall m :: j < m < |r| ==> r[m] == sorted[m - 1]
    requires j > 0 ==> key(sorted[j - 1]) >= key(x)
    requires forall m :: j <= m < |sorted| ==> key(sorted[m]) < key(x)
    ensures r == Insert(x, sorted, key)
  {
    forall m | 0 <= m < j ensures key(sorted[m]) >= key(x) {
      assert key(sorted[m]) >= key(sorted[j - 1]);
    }
    InsertAt(x, sorted, j, key);
    assert r == sorted[..j] + [x] + sorted[j..];
  }

  /** `rows.forEach((row, index) => row.rank = index + 1)`. */
  method AssignRanks<T>(a: array<T>, withRank: (T, int) -> T)
    modifies a
    ensures forall i :: 0 <= i < a.Length ==> a[i] == withRank(old(a[i]), i + 1)
  {
    for i := 0 to a.Length
      invariant forall m :: 0 <= m < i ==> a[m] == withRank(old(a[m]), m + 1)
      invariant forall m :: i <= m < a.Length ==> a[m] == old(a[m])
    {
      a[i] := withRank(a[i], i + 1);
    }
  }
}
