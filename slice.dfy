/**
 The eight operations of package sliceutils (slice.go), as the loops the
 package runs. Go slices read by an operation are sequences; the two
 operations that write into the caller's slice, Reverse and Map, work on
 an array. Go's map[T]struct{} is a set, its map[T]int and map[K][]V are
 Dafny maps. Caller-supplied functions are total Dafny functions.
 */
module SliceUtils {
  import opened SliceSpec

  /** Unique: each value of `s` once, in the order of first occurrence. */
  method Unique<T(==)>(s: seq<T>) returns (unique: seq<T>)
    ensures unique == UniqueOf(s)
    ensures Distinct(unique)
    ensures forall x :: x in s ==> x in unique
    ensures forall k :: 0 <= k < |unique| ==> unique[k] in s
    ensures forall i, j :: 0 <= i < j < |unique| ==> IndexOf(unique[i], s) < IndexOf(unique[j], s)
    ensures IsSubsequence(unique, s)
  {
    unique := [];
    var seen: set<T> := {};
    for i := 0 to |s|
      invariant forall x :: x in seen <==> x in s[..i]
      invariant unique == UniqueOf(s[..i])
    {
      assert s[..i + 1][..i] == s[..i];
      if s[i] !in seen {
        unique := unique + [s[i]];
      }
      seen := seen + {s[i]};
    }
    assert s[..|s|] == s;
    UniqueDistinct(s);
    UniqueSameValues(s);
    UniqueFirstOccurrenceOrder(s);
    UniqueIsSubsequence(s);
  }

  /** Filter: the elements of `s` that satisfy `f`, in their original order. */
  method Filter<T>(f: T -> bool, s: seq<T>) returns (passed: seq<T>)
    ensures passed == Filtered(f, s)
    ensures forall k :: 0 <= k < |passed| ==> f(passed[k])
    ensures IsSubsequence(passed, s)
  {
    passed := [];
    for i := 0 to |s|
      invariant passed == Filtered(f, s[..i])
    {
      assert s[..i + 1][..i] == s[..i];
      if f(s[i]) {
        passed := passed + [s[i]];
      }
    }
    assert s[..|s|] == s;
    FilteredSatisfies(f, s);
    FilteredIsSubsequence(f, s);
  }

  /** GroupBy: one bucket per key `f` produces, each holding the elements with that
      key in their original order. */
  method GroupBy<K(==), V>(f: V -> K, s: seq<V>) returns (groups: map<K, seq<V>>)
    ensures groups == Grouping(f, s)
    ensures forall k :: k in groups <==> exists i :: 0 <= i < |s| && f(s[i]) == k
    ensures forall k :: k in groups ==> groups[k] == Filtered(KeyIs(f, k), s)
  {
    groups := map[];
    for i := 0 to |s|
      invariant groups == Grouping(f, s[..i])
    {
      assert s[..i + 1] == s[..i] + [s[i]];
      GroupingStep(f, s[..i], s[i]);
      var group := f(s[i]);
      groups := groups[group := (if group in groups then groups[group] else []) + [s[i]]];
    }
    assert s[..|s|] == s;
    GroupingKeys(f, s);
  }

  /** The first loop of Intersect: how many times each value occurs in `x`.
      Values absent from `x` have no entry. */
  method Tally<T(==)>(x: seq<T>) returns (seen: map<T, int>)
    ensures forall v :: v in seen <==> v in x
    ensures forall v :: v in seen ==> seen[v] == multiset(x)[v]
  {
    seen := map[];
    for i := 0 to |x|
      invariant forall v :: v in seen <==> v in x[..i]
      invariant forall v :: v in seen ==> seen[v] == multiset(x[..i])[v]
    {
      assert x[..i + 1] == x[..i] + [x[i]];
      seen := seen[x[i] := (if x[i] in seen then seen[x[i]] else 0) + 1];
    }
    assert x[..|x|] == x;
  }

  /** Intersect: the multiset intersection of `x` and `y`, in the order of `y`.
      The tally `seen` counts the values of `x` still available to be matched. */
  method Intersect<T(==)>(x: seq<T>, y: seq<T>) returns (intersection: seq<T>)
    ensures intersection == Intersection(x, y)
    ensures multiset(intersection) == multiset(x) * multiset(y)
    ensures IsSubsequence(intersection, y)
    ensures |intersection| <= |x| && |intersection| <= |y|
  {
    var seen := Tally(x);
    intersection := [];
    for i := 0 to |y|
      invariant forall v :: v in seen <==> v in x
      invariant forall v :: v in seen ==> 0 <= seen[v] && seen[v] + multiset(intersection)[v] == multiset(x)[v]
      invariant intersection == Intersection(x, y[..i])
    {
      IntersectionStep(x, y, i);
      if y[i] in seen && seen[y[i]] > 0 {
        intersection := intersection + [y[i]];
        seen := seen[y[i] := seen[y[i]] - 1];
      }
    }
    assert y[..|y|] == y;
    IntersectionMultiplicity(x, y);
    IntersectionIsSubsequence(x, y);
    IntersectionLength(x, y);
  }

  /** Contains: whether some element of `s` equals `v`; stops at the first match. */
  method Contains<T(==)>(v: T, s: seq<T>) returns (found: bool)
    ensures found <==> exists k :: 0 <= k < |s| && s[k] == v
    ensures found <==> IndexOf(v, s) != -1
  {
    IndexOfFirst(v, s);
    for i := 0 to |s|
      invariant forall k :: 0 <= k < i ==> s[k] != v
    {
      if v == s[i] {
        return true;
      }
    }
    return false;
  }

  /** FindIndex: the index of the first element of `s` equal to `v`, or -1. */
  method FindIndex<T(==)>(v: T, s: seq<T>) returns (index: int)
    ensures index == IndexOf(v, s)
    ensures index == -1 <==> forall k :: 0 <= k < |s| ==> s[k] != v
    ensures index != -1 ==> 0 <= index < |s| && s[index] == v && forall k :: 0 <= k < index ==> s[k] != v
  {
    IndexOfFirst(v, s);
    for i := 0 to |s|
      invariant forall k :: 0 <= k < i ==> s[k] != v
    {
      if v == s[i] {
        IndexOfIsFirstMatch(v, s, i);
        return i;
      }
    }
    return -1;
  }

  /** Reverse: swaps the ends of `s` inward in place and hands back the same array. */
  method Reverse<T>(s: array<T>) returns (r: array<T>)
    modifies s
    ensures r == s
    ensures s[..] == Reversed(old(s[..]))
  {
    var i, j := 0, s.Length - 1;
    while i < j
      invariant 0 <= i <= j + 1 && j == s.Length - 1 - i
      invariant forall k :: 0 <= k < i ==> s[k] == old(s[s.Length - 1 - k]) && s[s.Length - 1 - k] == old(s[k])
      invariant forall k :: i <= k <= j ==> s[k] == old(s[k])
    {
      s[i], s[j] := s[j], s[i];
      i, j := i + 1, j - 1;
    }
    forall k | 0 <= k < s.Length
      ensures s[k] == Reversed(old(s[..]))[k]
    {
      ReversedAt(old(s[..]), k);
    }
    return s;
  }

  /** Reversing the same array twice restores its contents. */
  method ReverseTwice<T>(s: array<T>)
    modifies s
    ensures s[..] == old(s[..])
  {
    var r := Reverse(s);
    r := Reverse(r);
    ReversedInvolution(old(s[..]));
  }

  /** Map: overwrites every element of `s` with `f` of it, first to last. */
  method Map<T>(f: T -> T, s: array<T>)
    modifies s
    ensures s[..] == Mapped(f, old(s[..]))
    ensures forall k :: 0 <= k < s.Length ==> s[k] == f(old(s[k]))
  {
    for i := 0 to s.Length
      invariant forall k :: 0 <= k < i ==> s[k] == f(old(s[k]))
      invariant forall k :: i <= k < s.Length ==> s[k] == old(s[k])
    {
      s[i] := f(s[i]);
    }
    forall k | 0 <= k < s.Length
      ensures s[k] == Mapped(f, old(s[..]))[k]
    {
      MappedAt(f, old(s[..]), k);
    }
  }
}
