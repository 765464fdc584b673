/** The interval record of Range.java: a closed interval of longs carrying one value. */
module Ranges {
  import opened Longs

  datatype Range<V> = Range(min: Long, max: Long, value: V) {

    /** The record never checks min <= max; the model requires it wherever RangeSet.java relies on it. */
    predicate WellFormed() {
      min <= max
    }

    /** Membership, inclusive at both ends. Only a well-formed range holds any point. */
    predicate Contains(n: int): (c: bool)
      ensures c ==> WellFormed()
    {
      n >= min && n <= max
    }
  }

  /** The natural order of ranges (compareTo): 0 when a bound of b lies in a; otherwise -1 when a
      lies wholly left of b and 1 when wholly right of it; and 0 in the remaining case, where b
      strictly encloses a. */
  function Compare<V>(a: Range<V>, b: Range<V>): (c: int)
    ensures -1 <= c <= 1
  {
    if a.Contains(b.min) || a.Contains(b.max) then 0
    else if a.max < b.min then -1
    else if a.min > b.max then 1
    else 0
  }

  /** clone along its shallow path: a new record with the same bounds and the same value. */
  function CloneRange<V>(a: Range<V>): (c: Range<V>)
    ensures c.min == a.min && c.max == a.max && c.value == a.value
  {
    Range(a.min, a.max, a.value)
  }

  /** The meaning of overlap: some point lies in both ranges. */
  ghost predicate SharePoint<V>(a: Range<V>, b: Range<V>) {
    exists p: int :: a.Contains(p) && b.Contains(p)
  }

  /** Both bounds belong to a well-formed range, and the points just outside do not. */
  lemma ContainsInclusive<V>(a: Range<V>)
    requires a.WellFormed()
    ensures a.Contains(a.min) && a.Contains(a.max)
    ensures !a.Contains(a.min - 1) && !a.Contains(a.max + 1)
  {
  }

  /** A well-formed range compares equal to itself, because it contains its own min. */
  lemma CompareSelf<V>(a: Range<V>)
    requires a.WellFormed()
    ensures Compare(a, a) == 0
  {
  }

  /** Ranges that are apart are ordered by which side they lie on, seen from either one. */
  lemma CompareApart<V>(a: Range<V>, b: Range<V>)
    requires a.WellFormed() && b.WellFormed()
    requires a.max < b.min
    ensures Compare(a, b) == -1 && Compare(b, a) == 1
  {
  }

  /** For well-formed ranges, comparing equal is exactly sharing a point, including the
      fall-through case where one range strictly encloses the other. */
  lemma CompareZeroIffSharePoint<V>(a: Range<V>, b: Range<V>)
    requires a.WellFormed() && b.WellFormed()
    ensures Compare(a, b) == 0 <==> SharePoint(a, b)
  {
    if Compare(a, b) == 0 {
      if a.Contains(b.min) {
        assert b.Contains(b.min);
      } else if a.Contains(b.max) {
        assert b.Contains(b.max);
      } else {
        assert a.Contains(a.min) && b.Contains(a.min);
      }
    }
    if SharePoint(a, b) {
      var p :| a.Contains(p) && b.Contains(p);
      assert !(a.max < b.min) && !(a.min > b.max);
    }
  }

  /** The four-bound test: a bound of one range lies in the other. */
  predicate BoundInside<V>(a: Range<V>, b: Range<V>) {
    a.Contains(b.min) || a.Contains(b.max) || b.Contains(a.min) || b.Contains(a.max)
  }

  /** For well-formed ranges, sharing a point is decided by the four bounds. */
  lemma SharePointByBounds<V>(a: Range<V>, b: Range<V>)
    ensures a.WellFormed() && b.WellFormed() ==> (SharePoint(a, b) <==> BoundInside(a, b))
  {
    if a.WellFormed() && b.WellFormed() {
      CompareZeroIffSharePoint(a, b);
      CompareZeroIffSharePoint(b, a);
      CompareAntisymmetric(a, b);
    }
  }

  /** On well-formed ranges the comparison is antisymmetric. */
  lemma CompareAntisymmetric<V>(a: Range<V>, b: Range<V>)
    requires a.WellFormed() && b.WellFormed()
    ensures Compare(a, b) == -Compare(b, a)
  {
    CompareZeroIffSharePoint(a, b);
    CompareZeroIffSharePoint(b, a);
    if SharePoint(a, b) {
      var p :| a.Contains(p) && b.Contains(p);
      assert b.Contains(p) && a.Contains(p);
    }
  }

  /** On well-formed ranges "lies left of" is transitive. */
  lemma CompareTransitive<V>(a: Range<V>, b: Range<V>, c: Range<V>)
    requires a.WellFormed() && b.WellFormed() && c.WellFormed()
    requires Compare(a, b) == -1 && Compare(b, c) == -1
    ensures Compare(a, c) == -1
  {
  }
}
