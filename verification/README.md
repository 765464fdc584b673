# RangeSet in Dafny

A model of the interval container of the `com.stardevllc.range` library. A `Range` is a
closed interval `[min, max]` of Java `long`s carrying one value. A `RangeSet` is a map from
pairwise disjoint ranges to values, kept in a `TreeSet` ordered by the ranges' overlap-aware
`compareTo`. The model covers both classes: the range record with its `contains`, `compareTo`
and `clone`, and every operation of the set — both constructors, `add` (both overloads),
`replace`, `addMax`, `addMin`, `remove` by point and by value, `get`, `getValues`, `getMin`,
`getMax` and `clone`.

Modelling choices:

- `long` is the subset type `Longs.Long` of the mathematical integers.
- The `TreeSet` is the ascending sequence of its elements. `RangeSets.Sorted` is the
  representation invariant: every range is well formed and lies strictly left of the next one.
- `TreeSet.add` is `RangeSets.TreeAdd`. It walks right past the ranges the candidate compares
  above, inserts before the first one it compares below, and keeps the set unchanged when one
  compares equal.
- `TreeSet.remove` of a stored range is `RangeSets.TreeRemove`.
- Every mutating method becomes a pure function from the old set to the new one.
  - `add` and `replace` return the new set, as the Java methods return `this`
    (RangeSet.java:37, :58).
  - `remove` returns a pair: the new set and the removed range.
- `null` results are `Wrappers.Option`.
- The `NoSuchElementException` of `ranges.last()` on an empty set is
  `Wrappers.Result.Failure(NoSuchElement)`.

Modules: `Wrappers`, `Longs` and `Seqs` are helpers. `Ranges` models `Range.java`.
`RangeSets` models the representation and every operation of `RangeSet.java`, with the
point-lookup lemmas that the contract of `add(min, max, value)` rests on.
`RangeSetProperties` holds the lemmas that relate those operations to each other and to point
lookup. `RangeSetGrowth` holds the lemmas about `addMax` and `addMin` and the corrected
versions listed under Findings.

## Model

| member | source | states |
|---|---|---|
| Ranges.Range.Contains | src/main/java/com/stardevllc/range/Range.java:17-19 | only a well-formed range holds a point: any range that contains some n has min <= max |
| Ranges.Compare | src/main/java/com/stardevllc/range/Range.java:22-36 | compareTo always returns -1, 0 or 1 |
| Ranges.SharePointByBounds | src/main/java/com/stardevllc/range/Range.java:17-19 | two well-formed ranges share a point exactly when a bound of one lies in the other |
| Ranges.ContainsInclusive | src/main/java/com/stardevllc/range/Range.java:17-19 | a well-formed range contains its own min and max but not min - 1 or max + 1: the test is inclusive at both ends |
| Ranges.CompareSelf | src/main/java/com/stardevllc/range/Range.java:22-25 | a well-formed range compares 0 with itself |
| Ranges.CompareApart | src/main/java/com/stardevllc/range/Range.java:22-33 | if a lies wholly left of b, then a compares -1 to b and b compares 1 to a |
| Ranges.CompareZeroIffSharePoint | src/main/java/com/stardevllc/range/Range.java:22-36 | for well-formed ranges, comparing 0 holds exactly when some point lies in both ranges; this includes the fall-through case where one range strictly encloses the other |
| Ranges.CompareAntisymmetric | src/main/java/com/stardevllc/range/Range.java:22-36 | for well-formed ranges, a.compareTo(b) == -b.compareTo(a) |
| Ranges.CompareTransitive | src/main/java/com/stardevllc/range/Range.java:27-33 | for well-formed ranges, a < b and b < c give a < c |
| Ranges.CloneRange | src/main/java/com/stardevllc/range/Range.java:39-47 | the clone has the same min, max and value (the shallow path) |
| RangeSets.Collides | src/main/java/com/stardevllc/range/RangeSet.java:43 | for well-formed ranges, the four-way test of add and replace holds exactly when the two ranges share a point |
| RangeSets.CollidesIffCompareZero | src/main/java/com/stardevllc/range/RangeSet.java:43 | for well-formed ranges, the four-way overlap test of add is the comparator's 0, and both are the same as sharing a point |
| RangeSets.TreeAdd | src/main/java/com/stardevllc/range/RangeSet.java:48 | TreeSet.add keeps the order invariant; it leaves the set unchanged when a stored range compares 0; otherwise the stored ranges grow by exactly the candidate |
| RangeSets.TreeRemove | src/main/java/com/stardevllc/range/RangeSet.java:139 | TreeSet.remove of a stored range takes out exactly that position and keeps the rest in order |
| RangeSets.Empty | src/main/java/com/stardevllc/range/RangeSet.java:19-20 | a new set is valid and holds no ranges |
| RangeSets.TreeAddAll | src/main/java/com/stardevllc/range/RangeSet.java:28-30 | addAll keeps the invariant and loses nothing already stored; it stores only input ranges; every input range ends up stored or collides with a stored range; inputs are taken in order and the earlier wins, so a dropped input collides with a range stored before the call or with an earlier input that is stored; when the inputs are pairwise apart and apart from what is stored, all of them go in; an already sorted input is stored as it is |
| RangeSets.FromCollection | src/main/java/com/stardevllc/range/RangeSet.java:28-30 | the batch constructor yields a valid set of input ranges; every input range is stored or collides with a stored one, so a range that overlaps nothing kept is never dropped; of two overlapping inputs the earlier one is kept, since a dropped input always collides with an earlier input that is stored; when no two input ranges collide, it holds all of them; a sorted input is kept exactly |
| RangeSets.Add | src/main/java/com/stardevllc/range/RangeSet.java:37-50 | add keeps the set sorted and pairwise disjoint; a candidate that collides with a stored range leaves the set unchanged (first writer wins); otherwise the set gains exactly the candidate |
| RangeSets.SwapOut | src/main/java/com/stardevllc/range/RangeSet.java:64-67 | taking out rs[k] and then TreeSet.add of the candidate keeps the invariant and never adds anything but the candidate; if another stored range still collides, the result is rs without rs[k]; otherwise rs[k] is swapped for the candidate; the size changes by 0 or -1 |
| RangeSets.Replace | src/main/java/com/stardevllc/range/RangeSet.java:58-73 | replace keeps the invariant; with no collision it is exactly add; it only ever stores old ranges or the candidate; the size changes by at most one |
| RangeSets.Get | src/main/java/com/stardevllc/range/RangeSet.java:171-179 | get is None exactly when no stored range contains the index; otherwise it is the value of the range that contains it |
| RangeSets.RemoveAt | src/main/java/com/stardevllc/range/RangeSet.java:136-145 | remove(index) returns a range exactly when get(index) finds one; the returned range is stored and contains the index, and it is removed with everything else kept in order; with no match the set is unchanged |
| RangeSets.RemoveValue | src/main/java/com/stardevllc/range/RangeSet.java:153-162 | remove(value) returns None and leaves the set unchanged exactly when no range carries the value; otherwise it removes and returns the first such range in ascending order, keeping the rest |
| RangeSets.GetValues | src/main/java/com/stardevllc/range/RangeSet.java:186-188 | getValues holds the same ranges as the set, each strictly before the next under compareTo |
| RangeSets.MinFrom | src/main/java/com/stardevllc/range/RangeSet.java:196-201 | the getMin loop yields a value no greater than its start or any min, and equal to one of them |
| RangeSets.MaxFrom | src/main/java/com/stardevllc/range/RangeSet.java:212-217 | the getMax loop yields a value no less than its start or any max, and equal to one of them |
| RangeSets.GetMin | src/main/java/com/stardevllc/range/RangeSet.java:195-204 | getMin is Long.MAX_VALUE on an empty set; otherwise it is the least min over the stored ranges, and on a valid set it is the first range's min |
| RangeSets.GetMax | src/main/java/com/stardevllc/range/RangeSet.java:211-219 | getMax is Long.MIN_VALUE on an empty set; otherwise it is the greatest max over the stored ranges, and on a valid set it is the last range's max |
| RangeSets.AddAfterAll | src/main/java/com/stardevllc/range/RangeSet.java:37-50 | add of a range right of every stored range never collides and appends it |
| RangeSets.AddBeforeAll | src/main/java/com/stardevllc/range/RangeSet.java:37-50 | add of a range left of every stored range never collides and puts it first |
| RangeSets.AddClones | src/main/java/com/stardevllc/range/RangeSet.java:224-226 | adding clones of sorted, disjoint ranges in ascending order rebuilds them exactly |
| RangeSets.CloneSet | src/main/java/com/stardevllc/range/RangeSet.java:222-229 | clone holds exactly the ranges of the original |
| RangeSetProperties.ValidDisjointAscending | src/main/java/com/stardevllc/range/RangeSet.java:14 | in a valid set no two stored ranges share a point, and they ascend under compareTo |
| RangeSetProperties.AddToEmpty | src/main/java/com/stardevllc/range/RangeSet.java:38-45 | any well-formed range goes into an empty set, and it is the only range there |
| RangeSetProperties.AddIdempotent | src/main/java/com/stardevllc/range/RangeSet.java:37-50 | adding the same range twice is the same as adding it once |
| RangeSets.AddContents | src/main/java/com/stardevllc/range/RangeSet.java:42-48 | an add that meets no collision stores exactly the old ranges plus the candidate, in both directions |
| RangeSets.AddThenGet | src/main/java/com/stardevllc/range/RangeSet.java:37-50 | after an accepted add, every point of the new range looks up its value, and every other point looks up as before |
| RangeSetProperties.GetWithout | src/main/java/com/stardevllc/range/RangeSet.java:171-179 | after one stored range is taken out, its points look up None and every other point looks up as before |
| RangeSetProperties.RemoveAtThenGet | src/main/java/com/stardevllc/range/RangeSet.java:136-145 | after remove(index), get(index) is None, and every point outside the removed range looks up as before |
| RangeSetProperties.RemoveValueThenGet | src/main/java/com/stardevllc/range/RangeSet.java:153-162 | after remove(value), the points of the removed range look up None, and every other point looks up as before |
| RangeSetProperties.ReplaceFirstCollision | src/main/java/com/stardevllc/range/RangeSet.java:63-67 | replace takes out the first colliding range in ascending order, then sends the candidate through TreeSet.add |
| RangeSetProperties.ReplaceSingleCollision | src/main/java/com/stardevllc/range/RangeSet.java:58-73 | with exactly one colliding range, replace swaps that range for the candidate, and the size is unchanged |
| RangeSetProperties.ReplaceSeveralCollisions | src/main/java/com/stardevllc/range/RangeSet.java:64-66 | with two or more colliding ranges, replace removes the first one and the candidate is turned away: the set loses one range and gains none |
| RangeSetProperties.CollidesTwiceNotStored | src/main/java/com/stardevllc/range/RangeSet.java:64-66 | a range that collides with two stored ranges is not itself stored |
| RangeSetProperties.SnapshotRoundTrip | src/main/java/com/stardevllc/range/RangeSet.java:186-188 | building a set from the getValues snapshot gives back the same set |
| RangeSetProperties.ScenarioLookup | src/main/java/com/stardevllc/range/RangeSet.java:171-179 | with [0,9]→a and [10,19]→b, get(5) is a, get(15) is b and get(20) is None |
| RangeSetProperties.ScenarioBatchFirstWins | src/main/java/com/stardevllc/range/RangeSet.java:28-30 | the batch [[5,14]→b, [0,9]→a] keeps only [5,14]→b, and the reverse order keeps only [0,9]→a |
| RangeSetProperties.ScenarioOverlap | src/main/java/com/stardevllc/range/RangeSet.java:37-73 | with [0,9]→a, add of [5,14]→b leaves the set unchanged, and replace with it leaves exactly [5,14]→b |
| RangeSets.AddBounds | src/main/java/com/stardevllc/range/RangeSet.java:75-85 | add(min, max, value) is add of the one range [min, max]→value: turned away on a collision; otherwise the set gains exactly that range, so every point in [min, max] looks up the value and every other point looks up as before |
| RangeSets.AddThenGetEverywhere | src/main/java/com/stardevllc/range/RangeSet.java:37-50 | the point-lookup effect of an accepted add, for all points at once |
| RangeSets.AboveLast | src/main/java/com/stardevllc/range/RangeSet.java:96-105 | the addMax candidate is well formed, starts at last.max + 1 and spans width + 1 points |
| RangeSets.AddMax | src/main/java/com/stardevllc/range/RangeSet.java:95-107 | addMax fails exactly on an empty set; otherwise it appends [last.max+1, last.max+1+width], getMax becomes last.max+1+width and getMin is unchanged |
| RangeSets.BelowLast | src/main/java/com/stardevllc/range/RangeSet.java:118-127 | the addMin candidate is well formed, ends at last.min - 1 and spans width + 1 points |
| RangeSets.AddMin | src/main/java/com/stardevllc/range/RangeSet.java:117-129 | addMin fails exactly on an empty set; its candidate never collides with the last range; it is turned away when it collides with another stored range, and otherwise the set gains exactly the candidate |
| RangeSetGrowth.AddMinSingleRange | src/main/java/com/stardevllc/range/RangeSet.java:117-129 | on a one-range set, addMin is accepted, the new range comes first, and getMin becomes min - 1 - width |
| RangeSetGrowth.AddMaxFromZero | src/main/java/com/stardevllc/range/RangeSet.java:87-107 | corrected addMax, defined on its own: always accepted and appended; [0, width] on an empty set, as the dead null branch assigns, and [last.max+1, last.max+1+width] otherwise; its max becomes getMax |
| RangeSetGrowth.AddMinBeforeFirst | src/main/java/com/stardevllc/range/RangeSet.java:109-129 | corrected addMin: the new range ends just below the first stored range, as the Javadoc says, or at 0 on an empty set, as the dead null branch assigns; it is always accepted, comes first, and its min becomes getMin |
| RangeSetGrowth.AddMaxAgreesWhenNonEmpty | src/main/java/com/stardevllc/range/RangeSet.java:95-107 | on a non-empty set the written addMax and the separately defined corrected one build the same set |
| RangeSetGrowth.AddMaxOnEmptyFails | src/main/java/com/stardevllc/range/RangeSet.java:95-101 | on an empty set the written addMax throws, while the corrected one stores [0, width] |
| RangeSetGrowth.AddMinOnEmptyFails | src/main/java/com/stardevllc/range/RangeSet.java:117-123 | on an empty set the written addMin throws, while the corrected one stores [-width, 0] |
| RangeSetGrowth.AddMinUsesLastRange | src/main/java/com/stardevllc/range/RangeSet.java:109-129 | on {[0,9], [10,19]}, the written addMin(0) builds [9,9], which collides, so the set is unchanged; the corrected one puts [-1,-1] first |

## Left out

- todo/RangeRandom.java, the random sampler, is not part of this model. Its whole content is one draw from a shared `java.util.Random`, fed with `getMin` and `getMax + 1`. It also depends on the `StarRandom` interface of `com.stardevllc.starlib.random`, which is not part of this library.
- The deep-copy path of `Range.clone` is left out. When the value is `Cloneable`, that path calls `Object.clone` through reflection. `CloneRange` models only the shallow path: same bounds, same value.
- `toString` is left out. It only formats a string.
- The red-black tree inside `TreeSet` is left out. It is abstracted to its ascending sequence of elements. While the stored ranges are disjoint, the descent cannot miss a range that compares 0, so the abstraction is exact.
- The `SortedSet` fast path of `TreeSet.addAll` is left out. It applies when the collection handed to the constructor is itself a sorted set, and copies it without comparisons. `FromCollection` always adds one range at a time. For a sorted, disjoint input both give the same set (see `FromCollection`).
- Malformed ranges with `min > max` are left out: every operation requires `WellFormed()`. The record never checks this, and on such ranges `compareTo` stops being reflexive.
- `null` values stored in ranges are left out. `remove(V)` would throw on them because it calls `value().equals`. Absent results are `None`.
- Value equality is Dafny equality. It stands for `equals` in `remove(V)`.
- AddMax: does not model `long` wrap-around. It requires `last.max + 1 + width` to stay within `Long.MAX_VALUE`, and it requires `width >= 0`, because a negative width builds a malformed range.
- AddMin: does not model `long` wrap-around. It requires `last.min - 1 - width` to stay within `Long.MIN_VALUE`, and it requires `width >= 0`.
- AddMaxFromZero: has the same overflow and width preconditions as `AddMax`.
- AddMinBeforeFirst: has the same overflow and width preconditions as `AddMin`, stated for the first range.
- Replace: its own contract bounds the result but does not pin it down when there is a collision. `ReplaceSingleCollision` and `ReplaceSeveralCollisions` pin down both collision cases.
- The independence of `getValues` and `clone` copies from the original is not stated. In a value model it holds trivially: no later operation on one value can change another.

## Findings

| source | as written | input that shows it | evidently intended | confidence | as-written member | corrected member |
|---|---|---|---|---|---|---|
| src/main/java/com/stardevllc/range/RangeSet.java:95-101 | `ranges.last()` throws `NoSuchElementException` on an empty set, so the `lastRange != null` check can never fail and its fallback `min = 0` can never run | `addMax(5, v)` on an empty set | the fallback the dead branch assigns: store `[0, 5]`. The Javadoc, read literally (start from 0, then add one), would instead give `[1, 6]`; the model follows the branch the code writes | not executed; high that the throw is unintended (dead null check), lower on the exact fallback range | RangeSetGrowth.AddMaxOnEmptyFails | RangeSetGrowth.AddMaxFromZero |
| src/main/java/com/stardevllc/range/RangeSet.java:117-123 | the same `ranges.last()` call makes `addMin` throw on an empty set, so its fallback `max = 0` can never run | `addMin(5, v)` on an empty set | the fallback the dead branch assigns: store `[-5, 0]`. The Javadoc, read literally (start from 0, then subtract one), would instead give `[-6, -1]`; the model follows the branch the code writes | not executed; high that the throw is unintended, lower on the exact fallback range | RangeSetGrowth.AddMinOnEmptyFails | RangeSetGrowth.AddMinBeforeFirst |
| src/main/java/com/stardevllc/range/RangeSet.java:109-129 | the new max is taken from the min of the last range, although the Javadoc says the first range | `{[0,9]→a, [10,19]→b}`, `addMin(0, c)`: the candidate `[9,9]` collides with `[0,9]`, so nothing is added | `[-1,-1]→c` placed before the first range | not executed; medium (Javadoc against code) | RangeSetGrowth.AddMinUsesLastRange | RangeSetGrowth.AddMinBeforeFirst |
