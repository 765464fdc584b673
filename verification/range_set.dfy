/** RangeSet.java: a map from closed, pairwise disjoint long intervals to values, kept in a
    TreeSet ordered by Compare. The tree is modelled by the ascending sequence of its elements,
    and every operation is a pure function from the old set to the new one. */
module RangeSets {
  import opened Wrappers
  import opened Longs
  import opened Seqs
  import opened Ranges

  /** The representation invariant: every range is well formed and lies strictly left of every
      later one, so no two share a point and the sequence ascends under Compare. */
  predicate Sorted<V>(rs: seq<Range<V>>) {
    && (forall i :: 0 <= i < |rs| ==> rs[i].WellFormed())
    && (forall i, j :: 0 <= i < j < |rs| ==> rs[i].max < rs[j].min)
  }

  datatype RangeSet<V> = RangeSet(ranges: seq<Range<V>>) {
    predicate Valid() {
      Sorted(ranges)
    }
  }

  /** The exception `ranges.last()` throws on an empty TreeSet. */
  datatype Error = NoSuchElement

  /** The overlap test that add and replace run against each stored range: a bound of either
      range lies in the other. */
  predicate Collides<V>(existing: Range<V>, r: Range<V>): (c: bool)
    ensures existing.WellFormed() && r.WellFormed() ==> (c <==> SharePoint(existing, r))
  {
    SharePointByBounds(existing, r);
    BoundInside(existing, r)
  }

  predicate AnyCollision<V>(rs: seq<Range<V>>, r: Range<V>) {
    exists i :: 0 <= i < |rs| && Collides(rs[i], r)
  }

  /** TreeSet membership under the natural order: some stored range compares equal to r. */
  predicate TreeContains<V>(rs: seq<Range<V>>, r: Range<V>) {
    exists i :: 0 <= i < |rs| && Compare(r, rs[i]) == 0
  }

  /** The stored ranges are pairwise disjoint and ascend under Compare. */
  lemma SortedDisjoint<V>(rs: seq<Range<V>>, i: int, j: int)
    requires Sorted(rs)
    requires 0 <= i < j < |rs|
    ensures !SharePoint(rs[i], rs[j])
    ensures Compare(rs[i], rs[j]) == -1 && Compare(rs[j], rs[i]) == 1
  {
    CompareZeroIffSharePoint(rs[i], rs[j]);
  }

  /** For well-formed ranges the four-way test of add, the comparator's 0 and sharing a point
      are one and the same. */
  lemma CollidesIffCompareZero<V>(existing: Range<V>, r: Range<V>)
    requires existing.WellFormed() && r.WellFormed()
    ensures Collides(existing, r) <==> Compare(r, existing) == 0
    ensures Collides(existing, r) <==> SharePoint(existing, r)
  {
    CompareZeroIffSharePoint(r, existing);
    CompareAntisymmetric(r, existing);
    CompareZeroIffSharePoint(existing, r);
  }

  lemma TreeContainsIffAnyCollision<V>(rs: seq<Range<V>>, r: Range<V>)
    requires Sorted(rs) && r.WellFormed()
    ensures TreeContains(rs, r) <==> AnyCollision(rs, r)
  {
    forall i | 0 <= i < |rs|
      ensures Collides(rs[i], r) <==> Compare(r, rs[i]) == 0
    {
      CollidesIffCompareZero(rs[i], r);
    }
  }

  lemma SortedTail<V>(rs: seq<Range<V>>)
    requires Sorted(rs) && |rs| > 0
    ensures Sorted(rs[1..])
    ensures forall x :: x in rs[1..] ==> rs[0].max < x.min
    ensures rs == [rs[0]] + rs[1..]
  {
    forall x | x in rs[1..]
      ensures rs[0].max < x.min
    {
      var m :| 0 <= m < |rs[1..]| && rs[1..][m] == x;
      assert rs[m + 1] == x;
    }
  }

  /** A well-formed range left of everything in a sorted sequence can lead it. */
  lemma SortedCons<V>(x: Range<V>, t: seq<Range<V>>)
    requires Sorted(t) && x.WellFormed()
    requires forall y :: y in t ==> x.max < y.min
    ensures Sorted([x] + t)
  {
    forall i, j | 0 <= i < j < |[x] + t|
      ensures ([x] + t)[i].max < ([x] + t)[j].min
    {
      if i == 0 {
        assert ([x] + t)[j] == t[j - 1] && t[j - 1] in t;
      } else {
        assert ([x] + t)[i] == t[i - 1] && ([x] + t)[j] == t[j - 1];
      }
    }
  }

  /** A range wholly left of the first stored range compares below every stored range. */
  lemma LeftOfAll<V>(rs: seq<Range<V>>, r: Range<V>)
    requires Sorted(rs) && |rs| > 0 && r.WellFormed()
    requires r.max < rs[0].min
    ensures forall y :: y in rs ==> r.max < y.min
    ensures !TreeContains(rs, r)
  {
    forall i | 0 <= i < |rs|
      ensures r.max < rs[i].min && Compare(r, rs[i]) == -1
    {
      if i > 0 {
        assert rs[0].max < rs[i].min;
      }
    }
  }

  /** Walking right past rs[0] neither finds nor loses an equal-comparing range. */
  lemma TreeContainsTail<V>(rs: seq<Range<V>>, r: Range<V>)
    requires |rs| > 0 && Compare(r, rs[0]) != 0
    ensures TreeContains(rs, r) <==> TreeContains(rs[1..], r)
  {
    if TreeContains(rs, r) {
      var i :| 0 <= i < |rs| && Compare(r, rs[i]) == 0;
      assert rs[1..][i - 1] == rs[i];
    }
    if TreeContains(rs[1..], r) {
      var i :| 0 <= i < |rs[1..]| && Compare(r, rs[1..][i]) == 0;
      assert rs[i + 1] == rs[1..][i];
    }
  }

  /** TreeSet.add on the ascending sequence that stands for the tree: walk past the ranges r
      compares above, insert before the first it compares below, and keep the set as it is when
      one compares equal. */
  function TreeAdd<V>(rs: seq<Range<V>>, r: Range<V>): (t: seq<Range<V>>)
    requires Sorted(rs) && r.WellFormed()
    ensures Sorted(t)
    ensures TreeContains(rs, r) ==> t == rs
    ensures !TreeContains(rs, r) ==> multiset(t) == multiset(rs) + multiset{r}
    ensures !TreeContains(rs, r) ==> |t| == |rs| + 1
    ensures forall x :: x in t ==> x in rs || x == r
    decreases |rs|
  {
    if |rs| == 0 then
      [r]
    else
      var c := Compare(r, rs[0]);
      if c < 0 then
        LeftOfAll(rs, r);
        SortedCons(r, rs);
        [r] + rs
      else if c > 0 then
        SortedTail(rs);
        TreeContainsTail(rs, r);
        var t := TreeAdd(rs[1..], r);
        SortedCons(rs[0], t);
        [rs[0]] + t
      else
        rs
  }

  /** A stored range compares equal to the first stored range exactly when it is at position 0,
      and above it otherwise. */
  lemma StoredPosition<V>(rs: seq<Range<V>>, r: Range<V>, k: nat)
    requires Sorted(rs) && k < |rs| && rs[k] == r
    ensures k == 0 ==> Compare(r, rs[0]) == 0
    ensures k > 0 ==> Compare(r, rs[0]) == 1
  {
    CompareSelf(r);
    if k > 0 {
      assert rs[0].max < rs[k].min;
    }
  }

  /** What one step of TreeRemove relies on: a stored range never compares below the first
      one, compares equal to it only when it is the first one, and otherwise lies in the tail. */
  lemma TreeRemoveStep<V>(rs: seq<Range<V>>, r: Range<V>)
    requires Sorted(rs) && r in rs
    ensures Compare(r, rs[0]) >= 0
    ensures Compare(r, rs[0]) == 0 ==> forall k :: 0 <= k < |rs| && rs[k] == r ==> k == 0
    ensures Compare(r, rs[0]) > 0 ==> Sorted(rs[1..]) && r in rs[1..]
    ensures Compare(r, rs[0]) > 0 ==> forall k :: 0 <= k < |rs| && rs[k] == r ==>
      0 < k && rs[1..][k - 1] == r && Without(rs, k) == [rs[0]] + Without(rs[1..], k - 1)
  {
    forall k | 0 <= k < |rs| && rs[k] == r
      ensures k == 0 <==> Compare(r, rs[0]) == 0
      ensures k > 0 ==> rs[1..][k - 1] == r && Without(rs, k) == [rs[0]] + Without(rs[1..], k - 1)
    {
      StoredPosition(rs, r, k);
      if k > 0 {
        WithoutTail(rs, k);
      }
    }
    SortedTail(rs);
  }

  /** TreeSet.remove of a stored range: walk past the ranges it compares above and take out the
      one that compares equal, which is that range itself. */
  function TreeRemove<V>(rs: seq<Range<V>>, r: Range<V>): (t: seq<Range<V>>)
    requires Sorted(rs) && r in rs
    ensures forall k :: 0 <= k < |rs| && rs[k] == r ==> t == Without(rs, k)
    decreases |rs|
  {
    TreeRemoveStep(rs, r);
    var c := Compare(r, rs[0]);
    if c < 0 then
      rs
    else if c > 0 then
      [rs[0]] + TreeRemove(rs[1..], r)
    else
      rs[1..]
  }

  lemma SortedWithout<V>(rs: seq<Range<V>>, k: nat)
    requires Sorted(rs) && k < |rs|
    ensures Sorted(Without(rs, k))
  {
  }

  /** TreeSet.add of a range that lies right of every stored one appends it. */
  lemma {:induction false} TreeAddAppend<V>(rs: seq<Range<V>>, r: Range<V>)
    requires Sorted(rs) && r.WellFormed()
    requires forall i :: 0 <= i < |rs| ==> rs[i].max < r.min
    ensures TreeAdd(rs, r) == rs + [r]
    decreases |rs|
  {
    if |rs| > 0 {
      assert Compare(r, rs[0]) == 1;
      SortedTail(rs);
      TreeAddAppend(rs[1..], r);
      assert rs + [r] == [rs[0]] + (rs[1..] + [r]);
    }
  }

  /** The empty RangeSet(). */
  function Empty<V>(): (s: RangeSet<V>)
    ensures s.Valid() && |s.ranges| == 0
  {
    RangeSet([])
  }

  /** In a sorted concatenation the first range of the right part lies right of the whole left part. */
  lemma SortedConcatHead<V>(acc: seq<Range<V>>, rs: seq<Range<V>>)
    requires Sorted(acc + rs) && |rs| > 0
    ensures forall i :: 0 <= i < |acc| ==> acc[i].max < rs[0].min
    ensures acc + rs == (acc + [rs[0]]) + rs[1..]
  {
    forall i | 0 <= i < |acc|
      ensures acc[i].max < rs[0].min
    {
      assert (acc + rs)[i] == acc[i] && (acc + rs)[|acc|] == rs[0];
    }
  }

  lemma TreeAddAllStep<V>(acc: seq<Range<V>>, rs: seq<Range<V>>)
    requires Sorted(acc) && |rs| > 0 && rs[0].WellFormed()
    ensures Sorted(acc + rs) ==> TreeAdd(acc, rs[0]) + rs[1..] == acc + rs
  {
    if Sorted(acc + rs) {
      SortedConcatHead(acc, rs);
      TreeAddAppend(acc, rs[0]);
    }
  }

  /** TreeSet.add loses nothing, and it stores r unless r compares equal to a stored range. */
  lemma TreeAddMembers<V>(rs: seq<Range<V>>, r: Range<V>)
    requires Sorted(rs) && r.WellFormed()
    ensures forall x :: x in rs ==> x in TreeAdd(rs, r)
    ensures !TreeContains(rs, r) ==> r in TreeAdd(rs, r)
  {
    var t := TreeAdd(rs, r);
    if !TreeContains(rs, r) {
      var before, after := multiset(rs), multiset(t);
      assert after == before + multiset{r};
      forall x | x in rs
        ensures x in t
      {
        assert x in before;
        assert x in after;
      }
      assert r in after;
    }
  }

  /** No two ranges of rs collide with each other. */
  predicate PairwiseApart<V>(rs: seq<Range<V>>) {
    forall i, j :: 0 <= i < j < |rs| ==> !Collides(rs[i], rs[j])
  }

  /** Every range of rs is stored in t. */
  ghost predicate AllStored<V>(rs: seq<Range<V>>, t: seq<Range<V>>) {
    forall i :: 0 <= i < |rs| ==> rs[i] in t
  }

  /** Every range of rs is stored in t or collides with a range stored there. */
  ghost predicate StoredOrBlocked<V>(rs: seq<Range<V>>, t: seq<Range<V>>) {
    forall i :: 0 <= i < |rs| ==> rs[i] in t || AnyCollision(t, rs[i])
  }

  /** Inputs are taken in order and the earlier one wins: every range of rs is stored in t,
      collides with a range of acc, or collides with an earlier range of rs that is stored. */
  ghost predicate FirstWins<V>(acc: seq<Range<V>>, rs: seq<Range<V>>, t: seq<Range<V>>) {
    forall i :: 0 <= i < |rs| ==>
      || rs[i] in t
      || AnyCollision(acc, rs[i])
      || exists j :: 0 <= j < i && rs[j] in t && Collides(rs[j], rs[i])
  }

  /** No range of rs collides with a range of acc. */
  predicate ApartFrom<V>(acc: seq<Range<V>>, rs: seq<Range<V>>) {
    forall i :: 0 <= i < |rs| ==> !AnyCollision(acc, rs[i])
  }

  /** TreeSet.addAll: each range of rs in turn goes through TreeSet.add. Nothing already there
      is lost, and ranges that collide with nothing before them all go in. */
  function TreeAddAll<V>(acc: seq<Range<V>>, rs: seq<Range<V>>): (t: seq<Range<V>>)
    requires Sorted(acc)
    requires forall i :: 0 <= i < |rs| ==> rs[i].WellFormed()
    ensures Sorted(t)
    ensures forall x :: x in t ==> x in acc || x in rs
    ensures forall x :: x in acc ==> x in t
    ensures PairwiseApart(rs) && ApartFrom(acc, rs) ==> AllStored(rs, t)
    ensures Sorted(acc + rs) ==> t == acc + rs
    ensures StoredOrBlocked(rs, t)
    ensures FirstWins(acc, rs, t)
    decreases |rs|
  {
    if |rs| == 0 then
      assert acc + rs == acc;
      acc
    else
      TreeAddAllStep(acc, rs);
      TreeContainsIffAnyCollision(acc, rs[0]);
      var next := TreeAdd(acc, rs[0]);
      TreeAddMembers(acc, rs[0]);
      TreeAddAllKeeps(acc, rs, next);
      var t := TreeAddAll(next, rs[1..]);
      StoredOrBlockedStep(acc, rs, next, t);
      FirstWinsStep(acc, rs, next, t);
      t
  }

  /** One step of addAll keeps every input stored or blocked by a stored range. */
  lemma StoredOrBlockedStep<V>(acc: seq<Range<V>>, rs: seq<Range<V>>, next: seq<Range<V>>, t: seq<Range<V>>)
    requires |rs| > 0
    requires AnyCollision(acc, rs[0]) || rs[0] in next
    requires forall x :: x in acc ==> x in next
    requires forall x :: x in next ==> x in t
    requires StoredOrBlocked(rs[1..], t)
    ensures StoredOrBlocked(rs, t)
  {
    CollisionPersists(acc, t, rs[0]);
    forall i | 1 <= i < |rs|
      ensures rs[i] in t || AnyCollision(t, rs[i])
    {
      assert rs[i] == rs[1..][i - 1];
    }
  }

  /** One step of addAll keeps the earlier-wins order: a range of rs[1..] blocked by the range
      just added from rs[0] is blocked by an earlier input that is stored. */
  lemma FirstWinsStep<V>(acc: seq<Range<V>>, rs: seq<Range<V>>, next: seq<Range<V>>, t: seq<Range<V>>)
    requires |rs| > 0
    requires forall x :: x in next ==> x in acc || x == rs[0]
    requires !AnyCollision(acc, rs[0]) ==> rs[0] in next
    requires forall x :: x in next ==> x in t
    requires FirstWins(next, rs[1..], t)
    ensures FirstWins(acc, rs, t)
  {
    forall i | 0 <= i < |rs|
      ensures || rs[i] in t
              || AnyCollision(acc, rs[i])
              || exists j :: 0 <= j < i && rs[j] in t && Collides(rs[j], rs[i])
    {
      if i > 0 && rs[i] !in t && !AnyCollision(acc, rs[i]) {
        assert rs[i] == rs[1..][i - 1];
        if AnyCollision(next, rs[i]) {
          var m :| 0 <= m < |next| && Collides(next[m], rs[i]);
          assert next[m] in next;
          UnblockedNotStored(acc, next[m], rs[i]);
          assert next[m] == rs[0];
        } else {
          var j :| 0 <= j < i - 1 && rs[1..][j] in t && Collides(rs[1..][j], rs[1..][i - 1]);
          assert rs[j + 1] == rs[1..][j];
        }
      }
    }
  }

  /** A range that collides with r is not among ranges that r collides with none of. */
  lemma UnblockedNotStored<V>(acc: seq<Range<V>>, x: Range<V>, r: Range<V>)
    requires !AnyCollision(acc, r) && Collides(x, r)
    ensures x !in acc
  {
  }

  /** A collision with a stored range survives any step that keeps that range. */
  lemma CollisionPersists<V>(a: seq<Range<V>>, b: seq<Range<V>>, r: Range<V>)
    requires forall x :: x in a ==> x in b
    ensures AnyCollision(a, r) ==> AnyCollision(b, r)
  {
    if AnyCollision(a, r) {
      var i :| 0 <= i < |a| && Collides(a[i], r);
      assert a[i] in b;
    }
  }

  /** One step of addAll keeps the ranges still to come free of collisions with what is stored. */
  lemma TreeAddAllKeeps<V>(acc: seq<Range<V>>, rs: seq<Range<V>>, next: seq<Range<V>>)
    requires |rs| > 0
    requires forall x :: x in next ==> x in acc || x == rs[0]
    requires !AnyCollision(acc, rs[0]) ==> rs[0] in next
    ensures PairwiseApart(rs) && ApartFrom(acc, rs) ==>
              && rs[0] in next
              && PairwiseApart(rs[1..])
              && ApartFrom(next, rs[1..])
  {
    if PairwiseApart(rs) && ApartFrom(acc, rs) {
      forall i | 0 <= i < |rs[1..]|
        ensures !AnyCollision(next, rs[1..][i])
      {
        assert rs[1..][i] == rs[i + 1];
        forall m | 0 <= m < |next|
          ensures !Collides(next[m], rs[i + 1])
        {
          assert next[m] in next;
          if next[m] != rs[0] {
            var a :| 0 <= a < |acc| && acc[a] == next[m];
            assert !AnyCollision(acc, rs[i + 1]);
          }
        }
      }
    }
  }

  /** RangeSet(Collection): the initial ranges are added one by one, in the collection's order. */
  function FromCollection<V>(rs: seq<Range<V>>): (s: RangeSet<V>)
    requires forall i :: 0 <= i < |rs| ==> rs[i].WellFormed()
    ensures s.Valid()
    ensures forall x :: x in s.ranges ==> x in rs
    ensures PairwiseApart(rs) ==> AllStored(rs, s.ranges)
    ensures StoredOrBlocked(rs, s.ranges)
    ensures FirstWins([], rs, s.ranges)
    ensures Sorted(rs) ==> s.ranges == rs
  {
    var none: seq<Range<V>> := [];
    assert none + rs == rs;
    assert ApartFrom(none, rs);
    RangeSet(TreeAddAll(none, rs))
  }

  /** add of a range that lies right of every stored one appends it. */
  lemma AddAfterAll<V>(s: RangeSet<V>, r: Range<V>)
    requires s.Valid() && r.WellFormed()
    requires forall i :: 0 <= i < |s.ranges| ==> s.ranges[i].max < r.min
    ensures !AnyCollision(s.ranges, r)
    ensures Add(s, r).ranges == s.ranges + [r]
  {
    if |s.ranges| > 0 {
      TreeContainsIffAnyCollision(s.ranges, r);
      TreeAddAppend(s.ranges, r);
    }
  }

  /** add of a range that lies left of every stored one puts it first. */
  lemma AddBeforeAll<V>(s: RangeSet<V>, r: Range<V>)
    requires s.Valid() && r.WellFormed()
    requires forall i :: 0 <= i < |s.ranges| ==> r.max < s.ranges[i].min
    ensures !AnyCollision(s.ranges, r)
    ensures Add(s, r).ranges == [r] + s.ranges
  {
    if |s.ranges| > 0 {
      assert Compare(r, s.ranges[0]) == -1;
    }
  }

  /** add(Range): an empty set takes the range at once, and the scan that follows meets it and
      stops; otherwise the range goes in unless the four-way test finds a stored range it
      collides with, in which case nothing changes: first writer wins. */
  function Add<V>(s: RangeSet<V>, r: Range<V>): (t: RangeSet<V>)
    requires s.Valid() && r.WellFormed()
    ensures t.Valid()
    ensures AnyCollision(s.ranges, r) ==> t == s
    ensures !AnyCollision(s.ranges, r) ==> multiset(t.ranges) == multiset(s.ranges) + multiset{r}
  {
    var rs := if |s.ranges| == 0 then TreeAdd(s.ranges, r) else s.ranges;
    assert |s.ranges| == 0 ==> Collides(rs[0], r);
    if AnyCollision(rs, r) then
      RangeSet(rs)
    else
      TreeContainsIffAnyCollision(rs, r);
      RangeSet(TreeAdd(rs, r))
  }

  /** The step of replace that fires on a collision: TreeSet.remove of the colliding stored range
      rs[k], then TreeSet.add of r. */
  function SwapOut<V>(rs: seq<Range<V>>, k: nat, r: Range<V>): (t: seq<Range<V>>)
    requires Sorted(rs) && k < |rs| && r.WellFormed()
    ensures Sorted(t)
    ensures forall x :: x in t ==> x in rs || x == r
    ensures |rs| - 1 <= |t| <= |rs|
    ensures rs == [r] ==> t == rs
    ensures AnyCollision(Without(rs, k), r) ==> t == Without(rs, k)
    ensures !AnyCollision(Without(rs, k), r) ==>
              multiset(t) == multiset(rs) - multiset{rs[k]} + multiset{r}
  {
    SortedWithout(rs, k);
    var w := TreeRemove(rs, rs[k]);
    assert w == Without(rs, k);
    assert forall x :: x in w ==> x in rs;
    TreeContainsIffAnyCollision(w, r);
    TreeAdd(w, r)
  }

  /** replace: on an empty set the range goes in. Otherwise the first stored range, in ascending
      order, that collides with it is taken out and the range is put in through TreeSet.add,
      which turns it away when a second stored range still collides. With no collision at all it
      is plain add. */
  function Replace<V>(s: RangeSet<V>, r: Range<V>): (t: RangeSet<V>)
    requires s.Valid() && r.WellFormed()
    ensures t.Valid()
    ensures !AnyCollision(s.ranges, r) ==> t == Add(s, r)
    ensures forall x :: x in t.ranges ==> x in s.ranges || x == r
    ensures |s.ranges| - 1 <= |t.ranges| <= |s.ranges| + 1
  {
    var rs := if |s.ranges| == 0 then TreeAdd(s.ranges, r) else s.ranges;
    assert |s.ranges| == 0 ==> rs == [r] && Collides(rs[0], r);
    match FirstIndex(rs, (e: Range<V>) => Collides(e, r))
    case Some(k) =>
      RangeSet(SwapOut(rs, k, r))
    case None =>
      assert |s.ranges| > 0;
      TreeContainsIffAnyCollision(rs, r);
      RangeSet(TreeAdd(rs, r))
  }

  /** get(index): the value of the first range, in ascending order, that contains index, or
      None where RangeSet.java returns null. */
  function Get<V>(s: RangeSet<V>, index: Long): (v: Option<V>)
    requires s.Valid()
    ensures v.None? <==> forall i :: 0 <= i < |s.ranges| ==> !s.ranges[i].Contains(index)
    ensures forall i :: 0 <= i < |s.ranges| && s.ranges[i].Contains(index) ==> v == Some(s.ranges[i].value)
  {
    match FirstIndex(s.ranges, (e: Range<V>) => e.Contains(index))
    case Some(i) => Some(s.ranges[i].value)
    case None => None
  }

  /** remove(long index): takes out and returns the first range, in ascending order, that
      contains index; returns None and leaves the set alone when none does. */
  function RemoveAt<V>(s: RangeSet<V>, index: Long): (res: (RangeSet<V>, Option<Range<V>>))
    requires s.Valid()
    ensures res.0.Valid()
    ensures res.1.None? <==> Get(s, index).None?
    ensures res.1.None? ==> res.0 == s
    ensures res.1.Some? ==>
              exists k :: 0 <= k < |s.ranges| && s.ranges[k] == res.1.value
                          && res.1.value.Contains(index) && res.0.ranges == Without(s.ranges, k)
  {
    match FirstIndex(s.ranges, (e: Range<V>) => e.Contains(index))
    case Some(k) =>
      SortedWithout(s.ranges, k);
      (RangeSet(TreeRemove(s.ranges, s.ranges[k])), Some(s.ranges[k]))
    case None =>
      (s, None)
  }

  /** remove(V value): takes out and returns the first range, in ascending order, whose value
      equals value; returns None and leaves the set alone when none does. */
  function RemoveValue<V(==)>(s: RangeSet<V>, value: V): (res: (RangeSet<V>, Option<Range<V>>))
    requires s.Valid()
    ensures res.0.Valid()
    ensures res.1.None? <==> forall i :: 0 <= i < |s.ranges| ==> s.ranges[i].value != value
    ensures res.1.None? ==> res.0 == s
    ensures res.1.Some? ==>
              exists k :: 0 <= k < |s.ranges| && s.ranges[k] == res.1.value
                          && res.1.value.value == value
                          && (forall j :: 0 <= j < k ==> s.ranges[j].value != value)
                          && res.0.ranges == Without(s.ranges, k)
  {
    match FirstIndex(s.ranges, (e: Range<V>) => e.value == value)
    case Some(k) =>
      SortedWithout(s.ranges, k);
      (RangeSet(TreeRemove(s.ranges, s.ranges[k])), Some(s.ranges[k]))
    case None =>
      (s, None)
  }

  /** getValues: a copy of the stored ranges, in ascending order under Compare. */
  function GetValues<V>(s: RangeSet<V>): (rs: seq<Range<V>>)
    requires s.Valid()
    ensures multiset(rs) == multiset(s.ranges)
    ensures forall i, j :: 0 <= i < j < |rs| ==> Compare(rs[i], rs[j]) == -1
  {
    s.ranges
  }

  /** The scan of getMin: the running minimum of the mins, starting from acc. */
  function MinFrom<V>(rs: seq<Range<V>>, acc: Long): (m: Long)
    ensures m <= acc
    ensures forall i :: 0 <= i < |rs| ==> m <= rs[i].min
    ensures m == acc || exists i :: 0 <= i < |rs| && m == rs[i].min
    decreases |rs|
  {
    if |rs| == 0 then
      acc
    else
      var m := MinFrom(rs[1..], if rs[0].min < acc then rs[0].min else acc);
      assert forall i :: 1 <= i < |rs| ==> rs[i] == rs[1..][i - 1];
      m
  }

  /** The scan of getMax: the running maximum of the maxes, starting from acc. */
  function MaxFrom<V>(rs: seq<Range<V>>, acc: Long): (m: Long)
    ensures m >= acc
    ensures forall i :: 0 <= i < |rs| ==> m >= rs[i].max
    ensures m == acc || exists i :: 0 <= i < |rs| && m == rs[i].max
    decreases |rs|
  {
    if |rs| == 0 then
      acc
    else
      var m := MaxFrom(rs[1..], if rs[0].max > acc then rs[0].max else acc);
      assert forall i :: 1 <= i < |rs| ==> rs[i] == rs[1..][i - 1];
      m
  }

  /** getMin: the least min over all stored ranges, or Long.MAX_VALUE on an empty set. */
  function GetMin<V>(s: RangeSet<V>): (m: Long)
    ensures |s.ranges| == 0 ==> m == MAX_LONG
    ensures forall i :: 0 <= i < |s.ranges| ==> m <= s.ranges[i].min
    ensures |s.ranges| > 0 ==> exists i :: 0 <= i < |s.ranges| && m == s.ranges[i].min
    ensures s.Valid() && |s.ranges| > 0 ==> m == s.ranges[0].min
  {
    var m := MinFrom(s.ranges, MAX_LONG);
    assert |s.ranges| > 0 && m == MAX_LONG ==> m == s.ranges[0].min;
    m
  }

  /** getMax: the greatest max over all stored ranges, or Long.MIN_VALUE on an empty set. */
  function GetMax<V>(s: RangeSet<V>): (m: Long)
    ensures |s.ranges| == 0 ==> m == MIN_LONG
    ensures forall i :: 0 <= i < |s.ranges| ==> m >= s.ranges[i].max
    ensures |s.ranges| > 0 ==> exists i :: 0 <= i < |s.ranges| && m == s.ranges[i].max
    ensures s.Valid() && |s.ranges| > 0 ==> m == Last(s.ranges).max
  {
    var m := MaxFrom(s.ranges, MIN_LONG);
    assert |s.ranges| > 0 && m == MIN_LONG ==> m == s.ranges[0].max;
    assert s.Valid() && |s.ranges| > 0 ==> forall i :: 0 <= i < |s.ranges| ==> s.ranges[i].max <= Last(s.ranges).max;
    m
  }

  lemma AddClonesStep<V>(acc: RangeSet<V>, rs: seq<Range<V>>)
    requires acc.Valid() && |rs| > 0 && rs[0].WellFormed()
    ensures Sorted(acc.ranges + rs) ==> Add(acc, CloneRange(rs[0])).ranges + rs[1..] == acc.ranges + rs
  {
    if Sorted(acc.ranges + rs) {
      SortedConcatHead(acc.ranges, rs);
      AddAfterAll(acc, rs[0]);
    }
  }

  /** The loop of clone: each range of rs, in order, is cloned and put in through add. */
  function AddClones<V>(acc: RangeSet<V>, rs: seq<Range<V>>): (t: RangeSet<V>)
    requires acc.Valid()
    requires forall i :: 0 <= i < |rs| ==> rs[i].WellFormed()
    ensures t.Valid()
    ensures Sorted(acc.ranges + rs) ==> t.ranges == acc.ranges + rs
    decreases |rs|
  {
    if |rs| == 0 then
      assert acc.ranges + rs == acc.ranges;
      acc
    else
      AddClonesStep(acc, rs);
      AddClones(Add(acc, CloneRange(rs[0])), rs[1..])
  }

  /** clone: a new set filled by adding a clone of every range in ascending order. It holds
      exactly the ranges of the original, and as a value it shares no state with it. */
  function CloneSet<V>(s: RangeSet<V>): (t: RangeSet<V>)
    requires s.Valid()
    ensures t == s
  {
    assert Empty<V>().ranges + s.ranges == s.ranges;
    AddClones(Empty(), s.ranges)
  }

  /** An accepted add stores exactly the old ranges and the new one. */
  lemma AddContents<V>(s: RangeSet<V>, r: Range<V>)
    requires s.Valid() && r.WellFormed()
    requires !AnyCollision(s.ranges, r)
    ensures forall x :: x in Add(s, r).ranges <==> x in s.ranges || x == r
  {
    var t := Add(s, r);
    forall x
      ensures x in t.ranges <==> x in s.ranges || x == r
    {
      assert x in t.ranges <==> x in multiset(t.ranges);
      assert x in s.ranges <==> x in multiset(s.ranges);
    }
  }

  /** Point lookup finds the stored range that holds the point, whatever its position. */
  lemma GetByMember<V>(s: RangeSet<V>, x: Range<V>, n: Long)
    requires s.Valid() && x in s.ranges && x.Contains(n)
    ensures Get(s, n) == Some(x.value)
  {
    var i :| 0 <= i < |s.ranges| && s.ranges[i] == x;
  }

  /** Point lookup is None when no stored range holds the point. */
  lemma GetNoMember<V>(s: RangeSet<V>, n: Long)
    requires s.Valid()
    requires forall x :: x in s.ranges ==> !x.Contains(n)
    ensures Get(s, n).None?
  {
    forall i | 0 <= i < |s.ranges|
      ensures !s.ranges[i].Contains(n)
    {
      assert s.ranges[i] in s.ranges;
    }
  }

  /** Two valid sets with the same ranges, apart from one range that neither holds n in, look up
      n alike. */
  lemma GetAlike<V>(s: RangeSet<V>, t: RangeSet<V>, r: Range<V>, n: Long)
    requires s.Valid() && t.Valid() && !r.Contains(n)
    requires forall x :: x in t.ranges <==> x in s.ranges || x == r
    ensures Get(t, n) == Get(s, n)
  {
    if Get(s, n).Some? {
      var i :| 0 <= i < |s.ranges| && s.ranges[i].Contains(n);
      GetByMember(s, s.ranges[i], n);
      GetByMember(t, s.ranges[i], n);
    } else {
      forall x | x in s.ranges
        ensures !x.Contains(n)
      {
        var i :| 0 <= i < |s.ranges| && s.ranges[i] == x;
      }
      GetNoMember(t, n);
    }
  }

  /** An accepted add maps every point of the new range to its value and leaves every other
      point as it was. */
  lemma AddThenGet<V>(s: RangeSet<V>, r: Range<V>, n: Long)
    requires s.Valid() && r.WellFormed()
    requires !AnyCollision(s.ranges, r)
    ensures Get(Add(s, r), n) == if r.Contains(n) then Some(r.value) else Get(s, n)
  {
    var t := Add(s, r);
    AddContents(s, r);
    if r.Contains(n) {
      GetByMember(t, r, n);
    } else {
      GetAlike(s, t, r, n);
    }
  }

  /** add(min, max, value): builds the range and adds it; it is turned away when it collides
      with a stored range, and otherwise owns its points from then on. */
  function AddBounds<V>(s: RangeSet<V>, min: Long, max: Long, value: V): (t: RangeSet<V>)
    requires s.Valid() && min <= max
    ensures t.Valid()
    ensures AnyCollision(s.ranges, Range(min, max, value)) ==> t == s
    ensures !AnyCollision(s.ranges, Range(min, max, value)) ==>
              multiset(t.ranges) == multiset(s.ranges) + multiset{Range(min, max, value)}
    ensures !AnyCollision(s.ranges, Range(min, max, value)) ==>
              forall n: Long :: Get(t, n) == if min <= n <= max then Some(value) else Get(s, n)
  {
    var r := Range(min, max, value);
    AddThenGetEverywhere(s, r);
    Add(s, r)
  }

  lemma AddThenGetEverywhere<V>(s: RangeSet<V>, r: Range<V>)
    requires s.Valid() && r.WellFormed()
    ensures !AnyCollision(s.ranges, r) ==>
              forall n: Long :: Get(Add(s, r), n) == if r.Contains(n) then Some(r.value) else Get(s, n)
  {
    if !AnyCollision(s.ranges, r) {
      forall n: Long
        ensures Get(Add(s, r), n) == if r.Contains(n) then Some(r.value) else Get(s, n)
      {
        AddThenGet(s, r, n);
      }
    }
  }

  /** The range addMax builds: width + 1 points starting just above the max of the last stored
      range. */
  function AboveLast<V>(s: RangeSet<V>, width: Long, value: V): (c: Range<V>)
    requires s.Valid() && |s.ranges| > 0 && 0 <= width
    requires Last(s.ranges).max + 1 + width <= MAX_LONG
    ensures c.WellFormed() && c.min == Last(s.ranges).max + 1 && c.max - c.min == width && c.value == value
  {
    var lo: Long := Last(s.ranges).max + 1;
    Range(lo, lo + width, value)
  }

  /** addMax(width, value): the range [last.max + 1, last.max + 1 + width] right after the last
      stored range. It never collides, so it is appended and its max becomes getMax. On an empty
      set `ranges.last()` throws. */
  function AddMax<V>(s: RangeSet<V>, width: Long, value: V): (res: Result<RangeSet<V>, Error>)
    requires s.Valid() && 0 <= width
    requires |s.ranges| > 0 ==> Last(s.ranges).max + 1 + width <= MAX_LONG
    ensures |s.ranges| == 0 <==> res == Failure(NoSuchElement)
    ensures res.Success? ==> res.value.Valid() && res.value.ranges == s.ranges + [AboveLast(s, width, value)]
    ensures res.Success? ==>
              GetMax(res.value) == Last(s.ranges).max + 1 + width && GetMin(res.value) == GetMin(s)
  {
    if |s.ranges| == 0 then
      Failure(NoSuchElement)
    else
      var r := AboveLast(s, width, value);
      assert GetMax(s) == Last(s.ranges).max;
      AddAfterAll(s, r);
      Success(Add(s, r))
  }

  /** The range addMin builds: width + 1 points ending just below the min of the LAST stored range. */
  function BelowLast<V>(s: RangeSet<V>, width: Long, value: V): (c: Range<V>)
    requires s.Valid() && |s.ranges| > 0 && 0 <= width
    requires Last(s.ranges).min - 1 - width >= MIN_LONG
    ensures c.WellFormed() && c.max == Last(s.ranges).min - 1 && c.max - c.min == width && c.value == value
  {
    var hi: Long := Last(s.ranges).min - 1;
    Range(hi - width, hi, value)
  }

  /** addMin(width, value): the range [last.min - 1 - width, last.min - 1], built from the LAST
      stored range, put in through add. It never collides with the last range, but it may with
      an earlier one, and then it is turned away. On an empty set `ranges.last()` throws. */
  function AddMin<V>(s: RangeSet<V>, width: Long, value: V): (res: Result<RangeSet<V>, Error>)
    requires s.Valid() && 0 <= width
    requires |s.ranges| > 0 ==> Last(s.ranges).min - 1 - width >= MIN_LONG
    ensures |s.ranges| == 0 <==> res == Failure(NoSuchElement)
    ensures res.Success? ==> res.value.Valid() && !Collides(Last(s.ranges), BelowLast(s, width, value))
    ensures res.Success? && AnyCollision(s.ranges, BelowLast(s, width, value)) ==> res.value == s
    ensures res.Success? && !AnyCollision(s.ranges, BelowLast(s, width, value)) ==>
              multiset(res.value.ranges) == multiset(s.ranges) + multiset{BelowLast(s, width, value)}
  {
    if |s.ranges| == 0 then
      Failure(NoSuchElement)
    else
      Success(Add(s, BelowLast(s, width, value)))
  }
}
