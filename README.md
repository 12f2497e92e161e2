# sliceutils in Dafny

A verified model of the Go package `sliceutils` (file `slice.go`). The package has eight
generic helpers over slices:

- `Unique` keeps the first occurrence of each value.
- `Filter` keeps the elements that satisfy a predicate.
- `GroupBy` buckets elements by a key function.
- `Intersect` computes the multiset intersection of two slices, in the order of the second.
- `Contains` and `FindIndex` are linear searches.
- `Reverse` and `Map` rewrite the caller's slice in place.

The project has three modules:

- `SliceUtils` (`slice.dfy`) has one method per Go function. Each method runs the same loop
  over the same local state as the Go code. A Go slice that is only read becomes a `seq`.
  A slice written in place (Reverse, Map) becomes an `array` with a `modifies` clause.
  Go's `map[T]struct{}` becomes a `set`. Its `map[T]int` and `map[K][]V` become Dafny `map`s.
- `SliceSpec` (`sequences.dfy`) holds a reference function for each operation and the lemmas
  that state what the package promises about it. The methods that build a new slice (Unique,
  Filter, GroupBy, Intersect) keep a loop invariant saying that their result so far equals the
  reference function applied to the prefix processed so far. The search loops (Contains,
  FindIndex), the counting loop (Tally) and the in-place loops (Reverse, Map) keep pointwise
  invariants instead. Each method's `ensures` then ties its result to the reference function.
- `SliceExamples` (`test_cases.dfy`) restates the concrete cases of `slice_test.go` as lemmas
  about the reference functions. It adds two examples the tests do not have: a search example
  (`SearchCases`) and a client of `Reverse` on a concrete array (`ReverseClient`).

Argument order follows `slice.go`: the function or the searched value comes first. Every
operation takes a single sequence parameter in place of Go's variadic `s ...T`. A nil slice
and an empty slice are both the empty sequence. Caller-supplied functions are total Dafny
function values (`T -> bool`, `V -> K`, `T -> T`).

## Model

| member | source | states |
|---|---|---|
| `SliceUtils.Unique` | slice.go:4-18 | Runs the seen-set loop. Returns `UniqueOf(s)`: no duplicates, exactly the values of `s`, ordered by first occurrence, a subsequence of `s` |
| `SliceSpec.UniqueOf` | slice.go:4-18 | The result is never longer than the input |
| `SliceSpec.UniqueSameValues` | slice.go:10-15 | A value is in the result iff it is in `s` |
| `SliceSpec.UniqueDistinct` | slice.go:11-14 | No value appears twice in the result |
| `SliceSpec.UniqueIsSubsequence` | slice.go:10-15 | The result is `s` with elements deleted, in original order |
| `SliceSpec.UniqueFirstOccurrenceOrder` | slice.go:10-15 | Earlier result positions hold values whose first index in `s` is smaller |
| `SliceSpec.UniqueCharacterized` | slice.go:4-18 | Any sequence holding exactly the values of `s`, ordered by first index in `s`, equals `UniqueOf(s)` |
| `SliceSpec.UniqueOfDistinct` | slice.go:10-15 | A sequence without repeats is its own Unique |
| `SliceSpec.UniqueFixedPoint` | slice.go:10-15 | `UniqueOf(s) == s` iff `s` has no repeats |
| `SliceSpec.UniqueIdempotent` | slice.go:4-18 | `UniqueOf(UniqueOf(s)) == UniqueOf(s)` |
| `SliceUtils.Filter` | slice.go:21-31 | Runs the append loop. Returns `Filtered(f, s)`: every kept element satisfies `f`, and the result is a subsequence of `s` |
| `SliceSpec.Filtered` | slice.go:21-31 | The result is never longer than the input |
| `SliceSpec.FilteredSatisfies` | slice.go:25-27 | Every element of the result satisfies the predicate |
| `SliceSpec.FilteredIsSubsequence` | slice.go:24-28 | The result keeps the original order |
| `SliceSpec.FilteredMultiplicity` | slice.go:24-28 | A satisfying value keeps all its occurrences; any other value has none |
| `SliceSpec.FilteredKeepsAll` | slice.go:24-28 | The result equals `s` iff every element satisfies the predicate |
| `SliceSpec.FilteredDropsAll` | slice.go:24-28 | The result is empty iff no element satisfies the predicate |
| `SliceUtils.GroupBy` | slice.go:34-43 | Runs the bucket loop. Returns `Grouping(f, s)`: the keys are exactly the keys of the elements, and bucket `k` is `s` filtered by `f(v) == k` |
| `SliceSpec.GroupingStep` | slice.go:38-39 | One more element is appended to its own bucket, created empty if absent; other buckets are unchanged |
| `SliceSpec.GroupingKeys` | slice.go:37-40 | A key is present iff some element has it; no bucket is empty |
| `SliceSpec.GroupingPartition` | slice.go:37-40 | Bucket `k` holds only elements with key `k`; every element's key is present; each value's occurrences all sit in its own bucket (the buckets together are `s` as a multiset) |
| `SliceSpec.GroupingOrder` | slice.go:39 | Each bucket keeps the relative order of `s` |
| `SliceUtils.Tally` | slice.go:56-58 | The counting loop: keys are exactly the values of `x`, each mapped to its number of occurrences |
| `SliceUtils.Intersect` | slice.go:50-68 | Keeps the tally invariant `seen[v] + count(v, result) == count(v, x)` with `seen[v] >= 0`. Returns `Intersection(x, y)`: a multiset intersection that is a subsequence of `y` and no longer than either input |
| `SliceSpec.IntersectionStep` | slice.go:61-64 | `y[i]` is emitted iff fewer copies of it have been emitted than `x` holds |
| `SliceSpec.IntersectionMultiplicity` | slice.go:45-49 | Each value occurs `min(count in x, count in y)` times in the result |
| `SliceSpec.IntersectionIsSubsequence` | slice.go:60-65 | The result is taken from `y`, in `y`'s order |
| `SliceSpec.IntersectionLength` | slice.go:50-68 | The result is no longer than `x` and no longer than `y` |
| `SliceSpec.IntersectionSymmetricContents` | slice.go:45-49 | Swapping the arguments changes at most the order of the result, never its contents |
| `SliceUtils.Contains` | slice.go:71-79 | Returns true iff some `s[k] == v`, which holds iff `IndexOf(v, s) != -1`; false on an empty `s` |
| `SliceUtils.FindIndex` | slice.go:83-91 | Returns `IndexOf(v, s)`: -1 iff no element equals `v`, otherwise the smallest `k` with `s[k] == v` |
| `SliceSpec.IndexOf` | slice.go:83-91 | The result lies in `-1 .. |s| - 1` |
| `SliceSpec.IndexOfFirst` | slice.go:84-90 | -1 iff `v` is absent; otherwise a position of `v` with no earlier `v` |
| `SliceSpec.IndexOfIsFirstMatch` | slice.go:84-87 | A position of `v` with no earlier `v` is the position returned |
| `SliceUtils.Reverse` | slice.go:93-100 | Swaps inward in place. Afterwards the array is the reversal of its old contents, and the handle returned is the same array |
| `SliceUtils.ReverseTwice` | slice.go:93-100 | Reversing the same array twice restores its contents |
| `SliceSpec.Reversed` | slice.go:94-100 | Reversal keeps the length |
| `SliceSpec.ReversedAt` | slice.go:95-97 | Position `k` of the reversal holds `s[|s| - 1 - k]` |
| `SliceSpec.ReversedInvolution` | slice.go:93-100 | `Reversed(Reversed(s)) == s` |
| `SliceUtils.Map` | slice.go:102-107 | Afterwards `s[k] == f(old(s[k]))` for every `k`, the length is unchanged, and the contents are `Mapped(f, old contents)` |
| `SliceSpec.Mapped` | slice.go:103-107 | Mapping keeps the length |
| `SliceSpec.MappedAt` | slice.go:104-106 | Position `k` of the result is `f` of position `k` of the input |
| `SliceSpec.MappedIdentity` | slice.go:102-107 | Mapping with a function that returns its argument changes nothing |
| `SliceExamples.UniqueDistinctCases` | slice_test.go:14-26 | Unique of an empty input is empty; `[1, 2, 3]` is kept as it is |
| `SliceExamples.UniqueRepeatsCase` | slice_test.go:27-30 | Unique of `[1, 1, 2, 2, 3, 3]` is `[1, 2, 3]` |
| `SliceExamples.FilterCases` | slice_test.go:47-62 | Filtering `[1, 2, 3, 4]` by odd gives `[1, 3]`, by even gives `[2, 4]` |
| `SliceExamples.OddBucket` | slice_test.go:80-88 | The "odd" bucket of `[1, 2, 3, 4]` is `[1, 3]` |
| `SliceExamples.EvenBucket` | slice_test.go:80-89 | The "even" bucket of `[1, 2, 3, 4]` is `[2, 4]` |
| `SliceExamples.GroupByCase` | slice_test.go:78-92 | Grouping `[1, 2, 3, 4]` by parity gives exactly `{"odd": [1, 3], "even": [2, 4]}` |
| `SliceExamples.IntersectDisjointCase` | slice_test.go:108-112 | `[4, 5, 6]` and `[1, 1, 2, 3, 3]` intersect to nothing |
| `SliceExamples.IntersectCappedCase` | slice_test.go:113-117 | `[1, 2, 3]` and `[1, 1, 2, 3, 3]` intersect to `[1, 2, 3]` |
| `SliceExamples.SearchCases` | slice.go:71-91 | 7 is not found in `[4, 5, 6]`; 3 is at index 2 of `[1, 2, 3]` |
| `SliceExamples.ReverseClient` | slice.go:93-100 | Reversing a fresh array holding `[4, 5, 6]` in place leaves it holding `[6, 5, 4]` |

## Left out

- Go's variadic parameter form (`s ...T`) and argument order at call sites. These are call-site syntax with no effect on behaviour.
- Capacity hints (`make([]T, 0, len(s)/2)`). They affect performance only.
- The difference between a nil and an empty slice. Both are the empty sequence here. This also covers the `reflect.DeepEqual` checks in the tests.
- Go map hashing and iteration order. `seen`, the tally and `groups` are mathematical sets and maps.
- Caller-supplied functions that panic, do not terminate or have side effects. The model takes them to be total and pure.
- `SliceUtils.Unique`, `SliceUtils.GroupBy`, `SliceUtils.Intersect`, `SliceUtils.Contains`, `SliceUtils.FindIndex`: equality on `T` and `K` is taken to be a total equivalence (reflexive). Go's `==` is not, for two kinds of value. A floating-point NaN is not equal to itself. Go's `Unique` therefore keeps every NaN, because the lookup at slice.go:11 always misses. `Contains` and `FindIndex` report NaN as absent. `GroupBy` makes a separate entry for each NaN key (slice.go:39). `Intersect` never emits a NaN (slice.go:61). Interface values whose dynamic type cannot be compared make Go panic at run time, at slice.go:11, 14, 57, 61, 73 and 85. Dafny's `T(==)` admits neither case.
- `SliceUtils.Intersect`: the first counting loop is a separate method, `SliceUtils.Tally`, that the scan calls. The Go code has both loops in one function. The behaviour is the same.
- Aliasing between the slice returned by `Reverse` and other slices that share its backing array. Only the single array handle is modelled: the method returns that same array.
- The test scaffolding in `slice_test.go` (`testing`, `t.Fatalf`). Its cases are restated as lemmas and are not modelled as a component.
