/**
 Reference definitions for the sequence utilities of package sliceutils,
 and the properties each of them promises.

 Every recursive definition here recurses on the last element of its
 sequence, so that in the methods of SliceUtils that build a new slice,
 "the loop has processed s[..i]" is literally "the result so far equals
 the reference function applied to s[..i]".
 */
module SliceSpec {

  /* ---------------------------------------------------------------------
     Shared vocabulary
     --------------------------------------------------------------------- */

  /** No value occurs twice in `s`. */
  ghost predicate Distinct<T>(s: seq<T>) {
    forall i, j :: 0 <= i < j < |s| ==> s[i] != s[j]
  }

  /** `r` is obtained from `s` by deleting elements, keeping the order of the rest. */
  ghost predicate IsSubsequence<T>(r: seq<T>, s: seq<T>)
    decreases |s|
  {
    if r == [] then true
    else if s == [] then false
    else (r[|r| - 1] == s[|s| - 1] && IsSubsequence(r[..|r| - 1], s[..|s| - 1]))
         || IsSubsequence(r, s[..|s| - 1])
  }

  /** A subsequence is no longer than what it was taken from and holds no value more often. */
  lemma {:induction false} SubsequenceBounds<T>(r: seq<T>, s: seq<T>)
    requires IsSubsequence(r, s)
    ensures |r| <= |s|
    ensures multiset(r) <= multiset(s)
    decreases |s|
  {
    if r != [] {
      var s' := s[..|s| - 1];
      assert s == s' + [s[|s| - 1]];
      if r[|r| - 1] == s[|s| - 1] && IsSubsequence(r[..|r| - 1], s') {
        SubsequenceBounds(r[..|r| - 1], s');
        assert r == r[..|r| - 1] + [r[|r| - 1]];
      } else {
        SubsequenceBounds(r, s');
      }
    }
  }

  /** Dropping the last element of `s` keeps `r` a subsequence of the longer `s`. */
  lemma SubsequenceExtend<T>(r: seq<T>, s: seq<T>, x: T)
    requires IsSubsequence(r, s)
    ensures IsSubsequence(r, s + [x]) && IsSubsequence(r + [x], s + [x])
  {
    assert (s + [x])[..|s + [x]| - 1] == s;
    assert (r + [x])[..|r + [x]| - 1] == r;
  }

  /** A sub-multiset has no more elements than the multiset it is part of. */
  lemma SubMultisetCard<T>(a: multiset<T>, b: multiset<T>)
    requires a <= b
    ensures |a| <= |b|
  {
    assert b == a + (b - a);
  }

  /** In a sequence whose keys strictly increase, the last element has the largest key,
      and it is the only element with that key. */
  lemma LastHasLargestKey<T>(a: seq<T>, key: T -> int, z: T)
    requires forall i, j :: 0 <= i < j < |a| ==> key(a[i]) < key(a[j])
    requires z in a
    ensures key(z) <= key(a[|a| - 1])
    ensures key(z) == key(a[|a| - 1]) ==> z == a[|a| - 1]
  {
    var i :| 0 <= i < |a| && a[i] == z;
  }

  /** Two sequences with the same values, each listed by strictly increasing key, are equal. */
  lemma {:induction false} SortedByKeyUnique<T>(a: seq<T>, b: seq<T>, key: T -> int)
    requires forall i, j :: 0 <= i < j < |a| ==> key(a[i]) < key(a[j])
    requires forall i, j :: 0 <= i < j < |b| ==> key(b[i]) < key(b[j])
    requires forall x :: x in a <==> x in b
    ensures a == b
    decreases |a|
  {
    assert a == [] <==> b == [] by {
      if a != [] { assert a[0] in a; }
      if b != [] { assert b[0] in b; }
    }
    if a != [] {
      var x, y := a[|a| - 1], b[|b| - 1];
      assert x in a && y in b;
      LastHasLargestKey(b, key, x);
      LastHasLargestKey(a, key, y);
      assert x == y;
      var a', b' := a[..|a| - 1], b[..|b| - 1];
      forall z
        ensures z in a' <==> z in b'
      {
        assert z in a' <==> z in a && z != x;
        assert z in b' <==> z in b && z != y;
      }
      SortedByKeyUnique(a', b', key);
      assert a == a' + [x] && b == b' + [y];
    }
  }

  /* ---------------------------------------------------------------------
     Contains / FindIndex: the first position of a value
     --------------------------------------------------------------------- */

  /** The index of the first element of `s` equal to `v`, or -1 when there is none. */
  function IndexOf<T(==)>(v: T, s: seq<T>): (i: int)
    ensures -1 <= i < |s|
  {
    if s == [] then -1
    else
      var i := IndexOf(v, s[..|s| - 1]);
      if i != -1 then i
      else if s[|s| - 1] == v then |s| - 1
      else -1
  }

  /** IndexOf is -1 exactly when `v` is absent; otherwise it points at the first match. */
  lemma {:induction false} IndexOfFirst<T>(v: T, s: seq<T>)
    ensures IndexOf(v, s) == -1 <==> v !in s
    ensures IndexOf(v, s) != -1 ==> s[IndexOf(v, s)] == v && v !in s[..IndexOf(v, s)]
  {
    if s != [] {
      var s' := s[..|s| - 1];
      assert s == s' + [s[|s| - 1]];
      IndexOfFirst(v, s');
      var i := IndexOf(v, s');
      if i != -1 {
        assert s[..i] == s'[..i];
      } else {
        assert s[..|s| - 1] == s';
      }
    }
  }

  /** Any position holding `v` with no earlier `v` is the one IndexOf returns. */
  lemma IndexOfIsFirstMatch<T>(v: T, s: seq<T>, i: int)
    requires 0 <= i < |s| && s[i] == v && v !in s[..i]
    ensures IndexOf(v, s) == i
  {
    IndexOfFirst(v, s);
  }

  /** Appending leaves the first position of a value already present unchanged. */
  lemma IndexOfPrefix<T>(v: T, s: seq<T>, t: seq<T>)
    requires v in s
    ensures IndexOf(v, s + t) == IndexOf(v, s)
  {
    IndexOfFirst(v, s);
    var i := IndexOf(v, s);
    assert (s + t)[..i] == s[..i];
    IndexOfIsFirstMatch(v, s + t, i);
  }

  /* ---------------------------------------------------------------------
     Unique
     --------------------------------------------------------------------- */

  /** The values of `s`, each once, in the order of their first occurrence. */
  function UniqueOf<T(==)>(s: seq<T>): (r: seq<T>)
    ensures |r| <= |s|
  {
    if s == [] then []
    else
      var init := s[..|s| - 1];
      if s[|s| - 1] in init then UniqueOf(init) else UniqueOf(init) + [s[|s| - 1]]
  }

  /** Unique keeps exactly the values of its input. */
  lemma {:induction false} UniqueSameValues<T>(s: seq<T>)
    ensures forall k :: 0 <= k < |UniqueOf(s)| ==> UniqueOf(s)[k] in s
    ensures forall x :: x in s ==> x in UniqueOf(s)
  {
    if s != [] {
      var init := s[..|s| - 1];
      assert s == init + [s[|s| - 1]];
      UniqueSameValues(init);
    }
  }

  /** Unique never lists a value twice. */
  lemma {:induction false} UniqueDistinct<T>(s: seq<T>)
    ensures Distinct(UniqueOf(s))
  {
    if s != [] {
      var init := s[..|s| - 1];
      UniqueDistinct(init);
      UniqueSameValues(init);
    }
  }

  /** Unique deletes elements of its input and never reorders them. */
  lemma {:induction false} UniqueIsSubsequence<T>(s: seq<T>)
    ensures IsSubsequence(UniqueOf(s), s)
  {
    if s != [] {
      var init := s[..|s| - 1];
      assert s == init + [s[|s| - 1]];
      UniqueIsSubsequence(init);
      SubsequenceExtend(UniqueOf(init), init, s[|s| - 1]);
    }
  }

  /** Unique lists values by increasing position of their first occurrence in the input. */
  lemma {:induction false} UniqueFirstOccurrenceOrder<T>(s: seq<T>)
    ensures forall i, j :: 0 <= i < j < |UniqueOf(s)| ==>
              IndexOf(UniqueOf(s)[i], s) < IndexOf(UniqueOf(s)[j], s)
  {
    if s != [] {
      var init, last := s[..|s| - 1], s[|s| - 1];
      assert s == init + [last];
      var u := UniqueOf(init);
      UniqueFirstOccurrenceOrder(init);
      UniqueSameValues(init);
      forall k | 0 <= k < |u|
        ensures IndexOf(u[k], s) == IndexOf(u[k], init) < |init|
      {
        assert u[k] in u;
        assert u[k] in init;
        IndexOfPrefix(u[k], init, [last]);
      }
      if last !in init {
        IndexOfFirst(last, init);
        assert IndexOf(last, s) == |init|;
      }
    }
  }

  /** The three properties above determine Unique completely: any sequence holding exactly
      the values of `s`, listed by strictly increasing position of first occurrence, is it. */
  lemma UniqueCharacterized<T>(s: seq<T>, r: seq<T>)
    requires forall x :: x in r <==> x in s
    requires forall i, j :: 0 <= i < j < |r| ==> IndexOf(r[i], s) < IndexOf(r[j], s)
    ensures r == UniqueOf(s)
  {
    UniqueSameValues(s);
    UniqueFirstOccurrenceOrder(s);
    SortedByKeyUnique(r, UniqueOf(s), x => IndexOf(x, s));
  }

  /** A sequence without repeated values is its own Unique. */
  lemma {:induction false} UniqueOfDistinct<T>(s: seq<T>)
    requires Distinct(s)
    ensures UniqueOf(s) == s
  {
    if s != [] {
      var init := s[..|s| - 1];
      assert s == init + [s[|s| - 1]];
      UniqueOfDistinct(init);
    }
  }

  /** Unique(s) == s holds exactly for the sequences without repeated values. */
  lemma UniqueFixedPoint<T>(s: seq<T>)
    ensures UniqueOf(s) == s <==> Distinct(s)
  {
    UniqueDistinct(s);
    if Distinct(s) {
      UniqueOfDistinct(s);
    }
  }

  /** Applying Unique a second time changes nothing. */
  lemma UniqueIdempotent<T>(s: seq<T>)
    ensures UniqueOf(UniqueOf(s)) == UniqueOf(s)
  {
    UniqueDistinct(s);
    UniqueOfDistinct(UniqueOf(s));
  }

  /* ---------------------------------------------------------------------
     Filter
     --------------------------------------------------------------------- */

  /** The elements of `s` that satisfy `p`, in their original order. */
  function Filtered<T>(p: T -> bool, s: seq<T>): (r: seq<T>)
    ensures |r| <= |s|
  {
    if s == [] then []
    else
      var init := Filtered(p, s[..|s| - 1]);
      if p(s[|s| - 1]) then init + [s[|s| - 1]] else init
  }

  /** Every element Filter keeps satisfies the predicate. */
  lemma {:induction false} FilteredSatisfies<T>(p: T -> bool, s: seq<T>)
    ensures forall k :: 0 <= k < |Filtered(p, s)| ==> p(Filtered(p, s)[k])
  {
    if s != [] {
      FilteredSatisfies(p, s[..|s| - 1]);
    }
  }

  /** Filter keeps the original order of what it keeps. */
  lemma {:induction false} FilteredIsSubsequence<T>(p: T -> bool, s: seq<T>)
    ensures IsSubsequence(Filtered(p, s), s)
  {
    if s != [] {
      var init := s[..|s| - 1];
      assert s == init + [s[|s| - 1]];
      FilteredIsSubsequence(p, init);
      SubsequenceExtend(Filtered(p, init), init, s[|s| - 1]);
    }
  }

  /** Filter keeps every occurrence of a satisfying value and none of the others. */
  lemma {:induction false} FilteredMultiplicity<T>(p: T -> bool, s: seq<T>)
    ensures forall x :: multiset(Filtered(p, s))[x] == if p(x) then multiset(s)[x] else 0
  {
    if s != [] {
      var init := s[..|s| - 1];
      assert s == init + [s[|s| - 1]];
      FilteredMultiplicity(p, init);
    }
  }

  /** Filter returns its input unchanged exactly when every element satisfies the predicate. */
  lemma {:induction false} FilteredKeepsAll<T>(p: T -> bool, s: seq<T>)
    ensures Filtered(p, s) == s <==> forall k :: 0 <= k < |s| ==> p(s[k])
  {
    if s != [] {
      var init := s[..|s| - 1];
      assert s == init + [s[|s| - 1]];
      FilteredKeepsAll(p, init);
      FilteredSatisfies(p, s);
      if !p(s[|s| - 1]) {
        assert |Filtered(p, s)| < |s|;
      }
    }
  }

  /** Filter returns nothing exactly when no element satisfies the predicate. */
  lemma {:induction false} FilteredDropsAll<T>(p: T -> bool, s: seq<T>)
    ensures Filtered(p, s) == [] <==> forall k :: 0 <= k < |s| ==> !p(s[k])
  {
    if s != [] {
      var init := s[..|s| - 1];
      FilteredDropsAll(p, init);
    }
  }

  /* ---------------------------------------------------------------------
     GroupBy
     --------------------------------------------------------------------- */

  /** The predicate "has key `k` under `f`". */
  function KeyIs<K(==), V>(f: V -> K, k: K): V -> bool {
    v => f(v) == k
  }

  /** One bucket per key that occurs; each bucket is `s` filtered by that key. */
  ghost function Grouping<K, V>(f: V -> K, s: seq<V>): map<K, seq<V>> {
    map k | k in (set v | v in s :: f(v)) :: Filtered(KeyIs(f, k), s)
  }

  /** Adding one element appends it to its own bucket and leaves the other buckets alone. */
  lemma GroupingStep<K, V>(f: V -> K, s: seq<V>, v: V)
    ensures Grouping(f, s + [v]) ==
              Grouping(f, s)[f(v) := (if f(v) in Grouping(f, s) then Grouping(f, s)[f(v)] else []) + [v]]
  {
    var t := s + [v];
    var g, g' := Grouping(f, s), Grouping(f, t);
    var h := g[f(v) := (if f(v) in g then g[f(v)] else []) + [v]];
    assert t[..|t| - 1] == s;
    assert g'.Keys == g.Keys + {f(v)} by {
      assert forall u :: u in t <==> u in s || u == v;
    }
    forall k | k in g'
      ensures g'[k] == h[k]
    {
      if k == f(v) && f(v) !in g {
        FilteredDropsAll(KeyIs(f, k), s);
      }
    }
  }

  /** The keys are exactly the keys of the elements: no bucket is empty. */
  lemma GroupingKeys<K, V>(f: V -> K, s: seq<V>)
    ensures forall k :: k in Grouping(f, s) <==> exists i :: 0 <= i < |s| && f(s[i]) == k
    ensures forall k :: k in Grouping(f, s) ==> Grouping(f, s)[k] != []
  {
    forall k | k in Grouping(f, s)
      ensures Grouping(f, s)[k] != []
    {
      FilteredDropsAll(KeyIs(f, k), s);
    }
  }

  /** Each bucket holds only elements with its key, and each element's every occurrence
      is in its own bucket: the buckets together are `s` as a multiset. */
  lemma GroupingPartition<K, V>(f: V -> K, s: seq<V>)
    ensures forall k, i :: k in Grouping(f, s) && 0 <= i < |Grouping(f, s)[k]| ==> f(Grouping(f, s)[k][i]) == k
    ensures forall i :: 0 <= i < |s| ==> f(s[i]) in Grouping(f, s)
    ensures forall k, x :: k in Grouping(f, s) ==>
              multiset(Grouping(f, s)[k])[x] == if f(x) == k then multiset(s)[x] else 0
  {
    forall k | k in Grouping(f, s)
      ensures forall i :: 0 <= i < |Grouping(f, s)[k]| ==> f(Grouping(f, s)[k][i]) == k
      ensures forall x :: multiset(Grouping(f, s)[k])[x] == if f(x) == k then multiset(s)[x] else 0
    {
      FilteredSatisfies(KeyIs(f, k), s);
      FilteredMultiplicity(KeyIs(f, k), s);
    }
  }

  /** Each bucket keeps the relative order its elements had in `s`. */
  lemma GroupingOrder<K, V>(f: V -> K, s: seq<V>)
    ensures forall k :: k in Grouping(f, s) ==> IsSubsequence(Grouping(f, s)[k], s)
  {
    forall k | k in Grouping(f, s)
      ensures IsSubsequence(Grouping(f, s)[k], s)
    {
      FilteredIsSubsequence(KeyIs(f, k), s);
    }
  }

  /* ---------------------------------------------------------------------
     Intersect
     --------------------------------------------------------------------- */

  /** The elements of `y`, in order, that remain after each value v has been taken as
      many times as it occurs in `x`: an element of `y` is kept while fewer copies of
      its value have been kept than `x` holds. */
  function Intersection<T(==)>(x: seq<T>, y: seq<T>): (r: seq<T>)
  {
    if y == [] then []
    else
      var r := Intersection(x, y[..|y| - 1]);
      var v := y[|y| - 1];
      if multiset(r)[v] < multiset(x)[v] then r + [v] else r
  }

  /** One more element of `y` is kept exactly when fewer copies of its value have been kept than `x` holds. */
  lemma IntersectionStep<T>(x: seq<T>, y: seq<T>, i: int)
    requires 0 <= i < |y|
    ensures Intersection(x, y[..i + 1]) ==
              var r := Intersection(x, y[..i]);
              if multiset(r)[y[i]] < multiset(x)[y[i]] then r + [y[i]] else r
  {
    assert y[..i + 1][..i] == y[..i];
  }

  /** Each value occurs min(count in x, count in y) times in the intersection. */
  lemma {:induction false} IntersectionMultiplicity<T>(x: seq<T>, y: seq<T>)
    ensures multiset(Intersection(x, y)) == multiset(x) * multiset(y)
  {
    if y != [] {
      var init, v := y[..|y| - 1], y[|y| - 1];
      assert y == init + [v];
      IntersectionMultiplicity(x, init);
    }
  }

  /** The intersection is taken from `y` in `y`'s order. */
  lemma {:induction false} IntersectionIsSubsequence<T>(x: seq<T>, y: seq<T>)
    ensures IsSubsequence(Intersection(x, y), y)
  {
    if y != [] {
      var init := y[..|y| - 1];
      assert y == init + [y[|y| - 1]];
      IntersectionIsSubsequence(x, init);
      SubsequenceExtend(Intersection(x, init), init, y[|y| - 1]);
    }
  }

  /** The intersection is no longer than either input. */
  lemma IntersectionLength<T>(x: seq<T>, y: seq<T>)
    ensures |Intersection(x, y)| <= |x| && |Intersection(x, y)| <= |y|
  {
    IntersectionIsSubsequence(x, y);
    SubsequenceBounds(Intersection(x, y), y);
    IntersectionMultiplicity(x, y);
    SubMultisetCard(multiset(Intersection(x, y)), multiset(x));
  }

  /** Swapping the arguments changes the order of the intersection, never its contents. */
  lemma IntersectionSymmetricContents<T>(x: seq<T>, y: seq<T>)
    ensures multiset(Intersection(x, y)) == multiset(Intersection(y, x))
  {
    IntersectionMultiplicity(x, y);
    IntersectionMultiplicity(y, x);
  }

  /* ---------------------------------------------------------------------
     Reverse
     --------------------------------------------------------------------- */

  /** The elements of `s` from last to first. */
  function Reversed<T>(s: seq<T>): (r: seq<T>)
    ensures |r| == |s|
  {
    if s == [] then [] else [s[|s| - 1]] + Reversed(s[..|s| - 1])
  }

  /** Position k of the reversal holds the element k places from the end. */
  lemma {:induction false} ReversedAt<T>(s: seq<T>, k: int)
    requires 0 <= k < |s|
    ensures Reversed(s)[k] == s[|s| - 1 - k]
  {
    if k > 0 {
      ReversedAt(s[..|s| - 1], k - 1);
    }
  }

  /** Reversing twice gives back the original sequence. */
  lemma ReversedInvolution<T>(s: seq<T>)
    ensures Reversed(Reversed(s)) == s
  {
    forall k | 0 <= k < |s|
      ensures Reversed(Reversed(s))[k] == s[k]
    {
      ReversedAt(Reversed(s), k);
      ReversedAt(s, |s| - 1 - k);
    }
  }

  /* ---------------------------------------------------------------------
     Map
     --------------------------------------------------------------------- */

  /** `f` applied to every element of `s`. */
  function Mapped<T>(f: T -> T, s: seq<T>): (r: seq<T>)
    ensures |r| == |s|
  {
    if s == [] then [] else Mapped(f, s[..|s| - 1]) + [f(s[|s| - 1])]
  }

  /** Position k of the result is `f` of position k of the input. */
  lemma {:induction false} MappedAt<T>(f: T -> T, s: seq<T>, k: int)
    requires 0 <= k < |s|
    ensures Mapped(f, s)[k] == f(s[k])
  {
    if k < |s| - 1 {
      MappedAt(f, s[..|s| - 1], k);
    }
  }

  /** Mapping with a function that returns its argument changes nothing. */
  lemma MappedIdentity<T>(f: T -> T, s: seq<T>)
    requires forall x :: f(x) == x
    ensures Mapped(f, s) == s
  {
    forall k | 0 <= k < |s|
      ensures Mapped(f, s)[k] == s[k]
    {
      MappedAt(f, s, k);
    }
  }
}
