/// Sorting the entries of a resource file by key (`sortJSONObject`): the keys
/// are copied out of the object into a list, the list is sorted with
/// `String.compareTo`, and a new object is filled in the sorted order.

module JsonSorting {
  import opened Json

  // ---------------------------------------------------------------------------
  // String.compareTo

  /** Lexicographic comparison as `String.compareTo` defines it: the
      difference of the first pair of characters that differ, or, when one
      string is a prefix of the other, the difference of the lengths. */
  function CompareTo(a: string, b: string): (r: int)
    ensures r == 0 <==> a == b
    ensures a != [] && b != [] && a[0] != b[0] ==> r == a[0] as int - b[0] as int
  {
    if a == [] || b == [] then |a| - |b|
    else if a[0] != b[0] then a[0] as int - b[0] as int
    else
      assert a == [a[0]] + a[1..] && b == [b[0]] + b[1..];
      CompareTo(a[1..], b[1..])
  }

  /** At the first index where the strings differ, the comparison is the
      difference of the two characters there. */
  lemma {:induction false} CompareToFirstDifference(a: string, b: string, i: int)
    requires 0 <= i < |a| && i < |b| && a[..i] == b[..i] && a[i] != b[i]
    ensures CompareTo(a, b) == a[i] as int - b[i] as int
  {
    if i > 0 {
      assert a[0] == a[..i][0] == b[..i][0] == b[0];
      assert a[1..][..i - 1] == a[..i][1..] && b[1..][..i - 1] == b[..i][1..];
      CompareToFirstDifference(a[1..], b[1..], i - 1);
    }
  }

  /** When one string is a prefix of the other, the comparison is the
      difference of the lengths. */
  lemma {:induction false} CompareToPrefix(a: string, b: string)
    requires (|a| <= |b| && b[..|a|] == a) || (|b| <= |a| && a[..|b|] == b)
    ensures CompareTo(a, b) == |a| - |b|
  {
    if a != [] && b != [] {
      assert a[0] == b[0] by {
        if |a| <= |b| && b[..|a|] == a {
          assert a[0] == b[..|a|][0];
        } else {
          assert b[0] == a[..|b|][0];
        }
      }
      if |a| <= |b| && b[..|a|] == a {
        assert b[1..][..|a| - 1] == a[1..];
      } else {
        assert a[1..][..|b| - 1] == b[1..];
      }
      CompareToPrefix(a[1..], b[1..]);
    }
  }

  /** `a` comes no later than `b` in the order `compareTo` induces. */
  predicate AtMost(a: string, b: string) {
    CompareTo(a, b) <= 0
  }

  lemma {:induction false} CompareToAntisymmetric(a: string, b: string)
    ensures CompareTo(a, b) == -CompareTo(b, a)
  {
    if a != [] && b != [] && a[0] == b[0] {
      CompareToAntisymmetric(a[1..], b[1..]);
    }
  }

  /** Any two strings are ordered one way or the other. */
  lemma CompareToTotal(a: string, b: string)
    ensures AtMost(a, b) || AtMost(b, a)
  {
    CompareToAntisymmetric(a, b);
  }

  lemma {:induction false} CompareToTransitive(a: string, b: string, c: string)
    requires AtMost(a, b) && AtMost(b, c)
    ensures AtMost(a, c)
  {
    if a == [] || b == [] || c == [] {
    } else if a[0] == b[0] && b[0] == c[0] {
      CompareToTransitive(a[1..], b[1..], c[1..]);
    }
  }

  // ---------------------------------------------------------------------------
  // Sorted lists

  /** Each key is at most its successor. */
  predicate Sorted(s: seq<string>) {
    forall i :: 0 < i < |s| ==> AtMost(s[i - 1], s[i])
  }

  /** Each key is strictly below its successor. */
  predicate StrictlySorted(s: seq<string>) {
    forall i :: 0 < i < |s| ==> CompareTo(s[i - 1], s[i]) < 0
  }

  /** `s` holds every key of `obj` exactly once and nothing else. */
  ghost predicate ListsKeysOnce(s: seq<string>, obj: Object) {
    forall k :: multiset(s)[k] == if k in obj then 1 else 0
  }

  /** Sorted insertion of one key, the step of the sort. */
  function Insert(x: string, s: seq<string>): (r: seq<string>)
    ensures multiset(r) == multiset(s) + multiset{x}
    ensures |r| == |s| + 1
    ensures r[0] == x || (s != [] && r[0] == s[0])
  {
    if s == [] then [x]
    else if AtMost(x, s[0]) then [x] + s
    else
      assert s == [s[0]] + s[1..];
      [s[0]] + Insert(x, s[1..])
  }

  lemma {:induction false} InsertSorted(x: string, s: seq<string>)
    requires Sorted(s)
    ensures Sorted(Insert(x, s))
  {
    if s != [] && !AtMost(x, s[0]) {
      InsertSorted(x, s[1..]);
      CompareToAntisymmetric(x, s[0]);
      var r := Insert(x, s);
      assert r[1] == x || r[1] == s[1];
    }
  }

  /** A sorted list is ordered between any two positions, not just
      neighbouring ones. */
  lemma {:induction false} SortedPairwise(s: seq<string>, i: int, j: int)
    requires Sorted(s) && 0 <= i <= j < |s|
    ensures AtMost(s[i], s[j])
    decreases j - i
  {
    if i < j {
      SortedPairwise(s, i + 1, j);
      CompareToTransitive(s[i], s[i + 1], s[j]);
    }
  }

  /** Two neighbours that are equal make their key occur twice. */
  lemma AdjacentEqualCount(s: seq<string>, i: int)
    requires 0 < i < |s| && s[i - 1] == s[i]
    ensures multiset(s)[s[i]] >= 2
  {
    assert s == s[..i - 1] + [s[i - 1], s[i]] + s[i + 1..];
  }

  /** A sorted list without repeated keys is strictly sorted. */
  lemma SortedOnceIsStrict(s: seq<string>, obj: Object)
    requires Sorted(s) && ListsKeysOnce(s, obj)
    ensures StrictlySorted(s)
  {
    forall i | 0 < i < |s|
      ensures CompareTo(s[i - 1], s[i]) < 0
    {
      if s[i - 1] == s[i] {
        AdjacentEqualCount(s, i);
      }
    }
  }

  /** The sorted key list is determined by the key set alone: any two strictly
      sorted lists of the same keys are the same list, whatever order the keys
      were collected in. */
  lemma {:induction false} StrictlySortedUnique(a: seq<string>, b: seq<string>)
    requires StrictlySorted(a) && StrictlySorted(b)
    requires forall k :: k in a <==> k in b
    ensures a == b
  {
    assert a != [] ==> a[0] in b;
    assert b != [] ==> b[0] in a;
    if a != [] && b != [] {
      StrictMinimum(a, b[0]);
      StrictMinimum(b, a[0]);
      CompareToAntisymmetric(a[0], b[0]);
      assert a[0] == b[0];
      assert a == [a[0]] + a[1..] && b == [b[0]] + b[1..];
      forall k
        ensures k in a[1..] <==> k in b[1..]
      {
        if k in a[1..] {
          StrictTailAbove(a, k);
          assert k in b && k != b[0];
        }
        if k in b[1..] {
          StrictTailAbove(b, k);
          assert k in a && k != a[0];
        }
      }
      StrictlySortedUnique(a[1..], b[1..]);
    }
  }

  lemma StrictImpliesSorted(s: seq<string>)
    requires StrictlySorted(s)
    ensures Sorted(s)
  {
  }

  /** The head of a strictly sorted list is at most each of its keys. */
  lemma StrictMinimum(s: seq<string>, k: string)
    requires StrictlySorted(s) && k in s
    ensures AtMost(s[0], k)
  {
    StrictImpliesSorted(s);
    var j :| 0 <= j < |s| && s[j] == k;
    SortedPairwise(s, 0, j);
  }

  /** A key in the tail of a strictly sorted list differs from the head. */
  lemma StrictTailAbove(s: seq<string>, k: string)
    requires StrictlySorted(s) && s != [] && k in s[1..]
    ensures k != s[0]
  {
    StrictImpliesSorted(s);
    var j :| 1 <= j < |s| && s[j] == k;
    SortedPairwise(s, 1, j);
    CompareToTransitive(s[0], s[1], s[j]);
    if k == s[0] {
      CompareToAntisymmetric(s[0], s[1]);
    }
  }

  // ---------------------------------------------------------------------------
  // The sort and the rebuilt object

  /** `list.sort` with the `compareTo` comparator: a sorted permutation. */
  method SortKeys(keys: seq<string>) returns (sorted: seq<string>)
    ensures Sorted(sorted)
    ensures multiset(sorted) == multiset(keys)
  {
    sorted := [];
    var i := 0;
    while i < |keys|
      invariant 0 <= i <= |keys|
      invariant Sorted(sorted)
      invariant multiset(sorted) == multiset(keys[..i])
    {
      InsertSorted(keys[i], sorted);
      sorted := Insert(keys[i], sorted);
      assert keys[..i + 1] == keys[..i] + [keys[i]];
      i := i + 1;
    }
    assert keys[..|keys|] == keys;
  }

  /** The first loop of `sortJSONObject`: every key of the object is added to
      a list, in whatever order the key set yields them. */
  method CollectKeys(obj: Object) returns (keys: seq<string>)
    ensures ListsKeysOnce(keys, obj)
  {
    keys := [];
    var remaining := obj.Keys;
    while remaining != {}
      invariant remaining <= obj.Keys
      invariant forall k :: multiset(keys)[k] == if k in obj && k !in remaining then 1 else 0
      decreases |remaining|
    {
      var key :| key in remaining;
      keys := keys + [key];
      remaining := remaining - {key};
    }
  }

  /** `sortJSONObject`: collects the keys in whatever order the key set yields
      them, sorts the list, and puts each key with its value into a new object.
      Besides the new object it returns the sorted key list. */
  method SortJsonObject(obj: Object) returns (sorted: seq<string>, result: Object)
    ensures ListsKeysOnce(sorted, obj)
    ensures StrictlySorted(sorted)
    ensures result == obj
  {
    var keys := CollectKeys(obj);

    sorted := SortKeys(keys);
    SortedOnceIsStrict(sorted, obj);

    result := map[];
    var i := 0;
    while i < |sorted|
      invariant 0 <= i <= |sorted|
      invariant forall j :: 0 <= j < i ==> sorted[j] in result
      invariant forall k :: k in result ==> k in obj && result[k] == obj[k]
    {
      var key := sorted[i];
      assert multiset(sorted)[key] > 0;
      result := result[key := obj[key]];
      i := i + 1;
    }
    SameEntries(sorted, obj, result);
  }

  /** A map that holds exactly the listed keys, each with its value in `obj`,
      is `obj` itself. */
  lemma SameEntries(sorted: seq<string>, obj: Object, result: Object)
    requires ListsKeysOnce(sorted, obj)
    requires forall j :: 0 <= j < |sorted| ==> sorted[j] in result
    requires forall k :: k in result ==> k in obj && result[k] == obj[k]
    ensures result == obj
  {
    forall k | k in obj
      ensures k in result
    {
      assert multiset(sorted)[k] == 1;
      var j :| 0 <= j < |sorted| && sorted[j] == k;
    }
  }
}
