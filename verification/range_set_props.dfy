/** Properties that relate the operations of RangeSet.java to one another and to point lookup. */
module RangeSetProperties {
  import opened Wrappers
  import opened Longs
  import opened Seqs
  import opened Ranges
  import opened RangeSets

  /** The invariant every operation keeps on the ranges field of RangeSet.java: no two stored
      ranges share a point, and they ascend under the natural order. */
  lemma ValidDisjointAscending<V>(s: RangeSet<V>)
    requires s.Valid()
    ensures forall i, j :: 0 <= i < j < |s.ranges| ==> !SharePoint(s.ranges[i], s.ranges[j])
    ensures forall i, j :: 0 <= i < j < |s.ranges| ==> Compare(s.ranges[i], s.ranges[j]) == -1
  {
    forall i, j | 0 <= i < j < |s.ranges|
      ensures !SharePoint(s.ranges[i], s.ranges[j]) && Compare(s.ranges[i], s.ranges[j]) == -1
    {
      SortedDisjoint(s.ranges, i, j);
    }
  }

  /** Any range goes into an empty set. */
  lemma AddToEmpty<V>(r: Range<V>)
    requires r.WellFormed()
    ensures Add(Empty<V>(), r).ranges == [r]
  {
  }

  /** add twice is add once: a rejected range is rejected again, and an accepted one now
      collides with itself. */
  lemma AddIdempotent<V>(s: RangeSet<V>, r: Range<V>)
    requires s.Valid() && r.WellFormed()
    ensures Add(Add(s, r), r) == Add(s, r)
  {
    var t := Add(s, r);
    if !AnyCollision(s.ranges, r) {
      assert r in multiset(t.ranges);
      var i :| 0 <= i < |t.ranges| && t.ranges[i] == r;
      assert Collides(t.ranges[i], r);
    }
  }

  /** Point lookup after taking out position k: the points of the removed range are gone and
      every other point is looked up as before. */
  lemma GetWithout<V>(s: RangeSet<V>, k: nat, n: Long)
    requires s.Valid() && k < |s.ranges|
    ensures RangeSet(Without(s.ranges, k)).Valid()
    ensures s.ranges[k].Contains(n) ==> Get(RangeSet(Without(s.ranges, k)), n).None?
    ensures !s.ranges[k].Contains(n) ==> Get(RangeSet(Without(s.ranges, k)), n) == Get(s, n)
  {
    SortedWithout(s.ranges, k);
    var w := Without(s.ranges, k);
    if s.ranges[k].Contains(n) {
      forall j | 0 <= j < |w|
        ensures !w[j].Contains(n)
      {
        if j < k {
          assert s.ranges[j].max < s.ranges[k].min;
        } else {
          assert s.ranges[k].max < s.ranges[j + 1].min;
        }
      }
    } else if Get(s, n).Some? {
      var i :| 0 <= i < |s.ranges| && s.ranges[i].Contains(n);
      var j := if i < k then i else i - 1;
      assert w[j] == s.ranges[i];
    } else {
      forall j | 0 <= j < |w|
        ensures !w[j].Contains(n)
      {
        if j >= k {
          assert w[j] == s.ranges[j + 1];
        }
      }
    }
  }

  /** remove(index) takes out the one range holding index: afterwards get(index) is None, and
      every point outside the removed range is looked up as before. */
  lemma RemoveAtThenGet<V>(s: RangeSet<V>, index: Long, n: Long)
    requires s.Valid()
    ensures Get(RemoveAt(s, index).0, index).None?
    ensures RemoveAt(s, index).1.None? || !RemoveAt(s, index).1.value.Contains(n) ==>
              Get(RemoveAt(s, index).0, n) == Get(s, n)
  {
    var res := RemoveAt(s, index);
    if res.1.Some? {
      var k :| 0 <= k < |s.ranges| && s.ranges[k] == res.1.value
               && res.1.value.Contains(index) && res.0.ranges == Without(s.ranges, k);
      GetWithout(s, k, index);
      GetWithout(s, k, n);
    }
  }

  /** remove(value) takes out the first range carrying value: afterwards its points look up
      None, and every other point is looked up as before. */
  lemma RemoveValueThenGet<V>(s: RangeSet<V>, value: V, n: Long)
    requires s.Valid()
    ensures RemoveValue(s, value).1.Some? && RemoveValue(s, value).1.value.Contains(n) ==>
              Get(RemoveValue(s, value).0, n).None?
    ensures RemoveValue(s, value).1.None? || !RemoveValue(s, value).1.value.Contains(n) ==>
              Get(RemoveValue(s, value).0, n) == Get(s, n)
  {
    var res := RemoveValue(s, value);
    if res.1.Some? {
      var k :| 0 <= k < |s.ranges| && s.ranges[k] == res.1.value && res.0.ranges == Without(s.ranges, k);
      GetWithout(s, k, n);
    }
  }

  /** replace with a range whose first collision, in ascending order, is at position k takes
      that range out and puts r in through TreeSet.add. */
  lemma ReplaceFirstCollision<V>(s: RangeSet<V>, r: Range<V>, k: nat)
    requires s.Valid() && r.WellFormed()
    requires k < |s.ranges| && Collides(s.ranges[k], r)
    requires forall i :: 0 <= i < k ==> !Collides(s.ranges[i], r)
    ensures Sorted(Without(s.ranges, k))
    ensures Replace(s, r).ranges == TreeAdd(Without(s.ranges, k), r)
  {
    var p := (e: Range<V>) => Collides(e, r);
    assert FirstIndex(s.ranges, p) == Some(k);
    SortedWithout(s.ranges, k);
  }

  /** replace with a range that collides with exactly one stored range swaps the two: the size
      stays the same. */
  lemma ReplaceSingleCollision<V>(s: RangeSet<V>, r: Range<V>, k: nat)
    requires s.Valid() && r.WellFormed()
    requires k < |s.ranges| && Collides(s.ranges[k], r)
    requires forall j :: 0 <= j < |s.ranges| && j != k ==> !Collides(s.ranges[j], r)
    ensures multiset(Replace(s, r).ranges) == multiset(s.ranges) - multiset{s.ranges[k]} + multiset{r}
    ensures |Replace(s, r).ranges| == |s.ranges|
  {
    ReplaceFirstCollision(s, r, k);
    var w := Without(s.ranges, k);
    assert !AnyCollision(w, r) by {
      forall j | 0 <= j < |w|
        ensures !Collides(w[j], r)
      {
        if j >= k {
          assert w[j] == s.ranges[j + 1];
        }
      }
    }
    TreeContainsIffAnyCollision(w, r);
  }

  /** replace with a range that collides with two or more stored ranges takes out the first of
      them and then fails to put the range in, because a later one still collides: the set
      loses one range and gains none. */
  lemma ReplaceSeveralCollisions<V>(s: RangeSet<V>, r: Range<V>, k: nat, j: nat)
    requires s.Valid() && r.WellFormed()
    requires k < j < |s.ranges|
    requires Collides(s.ranges[k], r) && Collides(s.ranges[j], r)
    requires forall i :: 0 <= i < k ==> !Collides(s.ranges[i], r)
    ensures Replace(s, r).ranges == Without(s.ranges, k)
    ensures r !in Replace(s, r).ranges
  {
    ReplaceFirstCollision(s, r, k);
    var w := Without(s.ranges, k);
    assert w[j - 1] == s.ranges[j];
    TreeContainsIffAnyCollision(w, r);
    CollidesTwiceNotStored(s, r, k, j);
    assert r !in multiset(w);
  }

  /** A range that collides with two stored ranges is not itself stored. */
  lemma CollidesTwiceNotStored<V>(s: RangeSet<V>, r: Range<V>, k: nat, j: nat)
    requires s.Valid() && r.WellFormed()
    requires k < j < |s.ranges|
    requires Collides(s.ranges[k], r) && Collides(s.ranges[j], r)
    ensures r !in multiset(s.ranges)
  {
    forall m | 0 <= m < |s.ranges|
      ensures s.ranges[m] != r
    {
      if m < k {
        assert s.ranges[m].max < s.ranges[k].min;
      } else if m > k {
        assert s.ranges[k].max < s.ranges[m].min;
      } else {
        assert s.ranges[m].max < s.ranges[j].min;
      }
    }
  }

  /** A snapshot taken with getValues rebuilds the same set through the collection constructor. */
  lemma SnapshotRoundTrip<V>(s: RangeSet<V>)
    requires s.Valid()
    ensures FromCollection(GetValues(s)) == s
  {
  }

  /** Two adjacent ranges answer point lookups by the range that holds the point. */
  lemma ScenarioLookup()
    ensures var s := Add(Add(Empty(), Range(0, 9, "a")), Range(10, 19, "b"));
            Get(s, 5) == Some("a") && Get(s, 15) == Some("b") && Get(s, 20) == None
  {
    var a := Range(0, 9, "a");
    var b := Range(10, 19, "b");
    AddToEmpty(a);
    var one := Add(Empty(), a);
    AddAfterAll(one, b);
    var s := Add(one, b);
    assert s.ranges == [a, b];
    GetByMember(s, a, 5);
    GetByMember(s, b, 15);
    GetNoMember(s, 20);
  }

  /** In a batch, the earlier of two overlapping ranges is kept, whatever their order. */
  lemma ScenarioBatchFirstWins()
    ensures FromCollection([Range(5, 14, "b"), Range(0, 9, "a")]).ranges == [Range(5, 14, "b")]
    ensures FromCollection([Range(0, 9, "a"), Range(5, 14, "b")]).ranges == [Range(0, 9, "a")]
  {
    var a := Range(0, 9, "a");
    var b := Range(5, 14, "b");
    var one: seq<Range<string>> := TreeAdd([], b);
    assert one == [b];
    assert Compare(a, b) == 0;
    assert TreeAdd(one, a) == one;
    var two: seq<Range<string>> := TreeAdd([], a);
    assert two == [a];
    assert Compare(b, a) == 0;
    assert TreeAdd(two, b) == two;
  }

  /** A range overlapping the stored one is turned away by add but swapped in by replace. */
  lemma ScenarioOverlap()
    ensures var s := Add(Empty(), Range(0, 9, "a"));
            && Add(s, Range(5, 14, "b")) == s
            && Replace(s, Range(5, 14, "b")).ranges == [Range(5, 14, "b")]
  {
    var a := Range(0, 9, "a");
    var b := Range(5, 14, "b");
    AddToEmpty(a);
    var s := Add(Empty(), a);
    assert Collides(s.ranges[0], b);
    ReplaceSingleCollision(s, b, 0);
    assert multiset(Replace(s, b).ranges) == multiset{b};
    var t := Replace(s, b).ranges;
    assert t[0] in multiset(t);
  }
}
