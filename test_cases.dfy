/**
 The concrete cases of the package's tests (slice_test.go), stated about
 the reference definitions, plus two examples the tests do not have: a
 search example and a client of the in-place Reverse.
 */
module SliceExamples {
  import opened SliceSpec
  import SliceUtils

  /** Unique of nothing is nothing; a sequence without repeats is kept as it is. */
  lemma UniqueDistinctCases()
    ensures UniqueOf<int>([]) == []
    ensures UniqueOf([1, 2, 3]) == [1, 2, 3]
  {
    UniqueOfDistinct([1, 2, 3]);
  }

  /** Repeats collapse to their first occurrence. */
  lemma UniqueRepeatsCase()
    ensures UniqueOf([1, 1, 2, 2, 3, 3]) == [1, 2, 3]
  {
    assert [1, 1, 2, 2, 3, 3][..5] == [1, 1, 2, 2, 3];
    assert [1, 1, 2, 2, 3][..4] == [1, 1, 2, 2];
    assert [1, 1, 2, 2][..3] == [1, 1, 2];
    assert [1, 1, 2][..2] == [1, 1];
    assert [1, 1][..1] == [1];
    assert UniqueOf([1]) == [1];
    assert UniqueOf([1, 1]) == [1];
    assert 2 !in [1, 1];
    assert UniqueOf([1, 1, 2]) == [1, 2];
    assert UniqueOf([1, 1, 2, 2]) == [1, 2];
    assert 3 !in [1, 1, 2, 2];
    assert UniqueOf([1, 1, 2, 2, 3]) == [1, 2, 3];
  }

  function IsOdd(x: int): bool { x % 2 != 0 }
  function IsEven(x: int): bool { x % 2 == 0 }

  /** Filtering [1, 2, 3, 4] by oddness and by evenness. */
  lemma FilterCases()
    ensures Filtered(IsOdd, [1, 2, 3, 4]) == [1, 3]
    ensures Filtered(IsEven, [1, 2, 3, 4]) == [2, 4]
  {
    assert [1, 2, 3, 4][..3] == [1, 2, 3] && [1, 2, 3][..2] == [1, 2] && [1, 2][..1] == [1];
    assert Filtered(IsOdd, [1]) == [1] && Filtered(IsEven, [1]) == [];
    assert Filtered(IsOdd, [1, 2]) == [1] && Filtered(IsEven, [1, 2]) == [2];
    assert Filtered(IsOdd, [1, 2, 3]) == [1, 3] && Filtered(IsEven, [1, 2, 3]) == [2];
  }

  function Parity(x: int): string { if x % 2 != 0 then "odd" else "even" }

  /** The "odd" bucket of [1, 2, 3, 4]. */
  lemma OddBucket()
    ensures Filtered(KeyIs(Parity, "odd"), [1, 2, 3, 4]) == [1, 3]
  {
    var odd := KeyIs(Parity, "odd");
    assert [1, 2, 3, 4][..3] == [1, 2, 3] && [1, 2, 3][..2] == [1, 2] && [1, 2][..1] == [1];
    assert |"even"| != |"odd"|;
    assert Parity(1) == "odd" && Parity(3) == "odd";
    assert Parity(2) == "even" && Parity(4) == "even";
    assert odd(1) && !odd(2) && odd(3) && !odd(4);
    assert Filtered(odd, [1]) == [1];
    assert Filtered(odd, [1, 2]) == [1];
    assert Filtered(odd, [1, 2, 3]) == [1, 3];
  }

  /** The "even" bucket of [1, 2, 3, 4]. */
  lemma EvenBucket()
    ensures Filtered(KeyIs(Parity, "even"), [1, 2, 3, 4]) == [2, 4]
  {
    var even := KeyIs(Parity, "even");
    assert [1, 2, 3, 4][..3] == [1, 2, 3] && [1, 2, 3][..2] == [1, 2] && [1, 2][..1] == [1];
    assert |"even"| != |"odd"|;
    assert Parity(1) == "odd" && Parity(3) == "odd";
    assert Parity(2) == "even" && Parity(4) == "even";
    assert !even(1) && even(2) && !even(3) && even(4);
    assert Filtered(even, [1]) == [];
    assert Filtered(even, [1, 2]) == [2];
    assert Filtered(even, [1, 2, 3]) == [2];
  }

  /** Grouping [1, 2, 3, 4] by parity gives an "odd" and an "even" bucket. */
  lemma GroupByCase()
    ensures Grouping(Parity, [1, 2, 3, 4]) == map["odd" := [1, 3], "even" := [2, 4]]
  {
    var s := [1, 2, 3, 4];
    assert (set v | v in s :: Parity(v)) == {"odd", "even"} by {
      assert Parity(s[0]) == "odd" && Parity(s[1]) == "even";
    }
    OddBucket();
    EvenBucket();
  }

  /** Inputs with no common value intersect to nothing. */
  lemma IntersectDisjointCase()
    ensures Intersection([4, 5, 6], [1, 1, 2, 3, 3]) == []
  {
    var x := [4, 5, 6];
    assert [1, 1, 2, 3, 3][..4] == [1, 1, 2, 3] && [1, 1, 2, 3][..3] == [1, 1, 2];
    assert [1, 1, 2][..2] == [1, 1] && [1, 1][..1] == [1];
    assert multiset(x)[1] == 0 && multiset(x)[2] == 0 && multiset(x)[3] == 0;
    assert Intersection(x, [1]) == [];
    assert Intersection(x, [1, 1]) == [];
    assert Intersection(x, [1, 1, 2]) == [];
    assert Intersection(x, [1, 1, 2, 3]) == [];
  }

  /** Values repeated in `y` are kept only as often as `x` holds them. */
  lemma IntersectCappedCase()
    ensures Intersection([1, 2, 3], [1, 1, 2, 3, 3]) == [1, 2, 3]
  {
    var x := [1, 2, 3];
    assert [1, 1, 2, 3, 3][..4] == [1, 1, 2, 3] && [1, 1, 2, 3][..3] == [1, 1, 2];
    assert [1, 1, 2][..2] == [1, 1] && [1, 1][..1] == [1];
    assert multiset(x)[1] == 1 && multiset(x)[2] == 1 && multiset(x)[3] == 1;
    assert Intersection(x, [1]) == [1];
    assert multiset([1])[1] == 1;
    assert Intersection(x, [1, 1]) == [1];
    assert multiset([1])[2] == 0;
    assert Intersection(x, [1, 1, 2]) == [1, 2];
    assert multiset([1, 2])[3] == 0;
    assert Intersection(x, [1, 1, 2, 3]) == [1, 2, 3];
    assert multiset([1, 2, 3])[3] == 1;
  }

  /** Absent values have no index; present ones their first position. */
  lemma SearchCases()
    ensures IndexOf(7, [4, 5, 6]) == -1
    ensures IndexOf(3, [1, 2, 3]) == 2
  {
    IndexOfFirst(7, [4, 5, 6]);
    IndexOfIsFirstMatch(3, [1, 2, 3], 2);
  }

  /** A caller's array is reversed in place, and the handle returned is that array. */
  method ReverseClient() returns (a: array<int>)
    ensures a[..] == [6, 5, 4]
  {
    a := new int[3];
    a[0], a[1], a[2] := 4, 5, 6;
    assert a[..] == [4, 5, 6];
    var r := SliceUtils.Reverse(a);
    assert r == a;
    ReversedAt([4, 5, 6], 0);
    ReversedAt([4, 5, 6], 1);
    ReversedAt([4, 5, 6], 2);
    assert a[..] == [6, 5, 4];
  }
}
