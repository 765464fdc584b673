/** Lemmas about addMax and addMin of RangeSet.java. Both read `ranges.last()`, which throws on
    an empty TreeSet, so their `lastRange != null` checks can never fail; and addMin reads the
    last range where its Javadoc speaks of the first. AddMaxFromZero and AddMinBeforeFirst are
    the corrected versions, set against the written ones: on an empty set they take the 0 that
    the dead null branches assign, and addMin places its range before the first one. */
module RangeSetGrowth {
  import opened Wrappers
  import opened Longs
  import opened Seqs
  import opened Ranges
  import opened RangeSets

  /** On a set of one range addMin is always accepted and the new range comes first. */
  lemma AddMinSingleRange<V>(s: RangeSet<V>, width: Long, value: V)
    requires s.Valid() && |s.ranges| == 1 && 0 <= width
    requires s.ranges[0].min - 1 - width >= MIN_LONG
    ensures AddMin(s, width, value).Success?
    ensures AddMin(s, width, value).value.ranges == [BelowLast(s, width, value)] + s.ranges
    ensures GetMin(AddMin(s, width, value).value) == s.ranges[0].min - 1 - width
  {
    AddBeforeAll(s, BelowLast(s, width, value));
  }

  /** addMax with the fallback of its dead null branch: the new range starts just above the last
      stored range, or at 0 on an empty set instead of throwing. (The Javadoc's "or 0 as
      starting ... and adds one" would start it at 1; this follows the branch the code writes.)
      It is always accepted and its max becomes getMax. */
  function AddMaxFromZero<V>(s: RangeSet<V>, width: Long, value: V): (t: RangeSet<V>)
    requires s.Valid() && 0 <= width
    requires |s.ranges| > 0 ==> Last(s.ranges).max + 1 + width <= MAX_LONG
    ensures t.Valid()
    ensures |s.ranges| == 0 ==> t.ranges == [Range(0, width, value)] && GetMax(t) == width
    ensures |s.ranges| > 0 ==>
              && t.ranges == s.ranges + [Range(Last(s.ranges).max + 1, Last(s.ranges).max + 1 + width, value)]
              && GetMax(t) == Last(s.ranges).max + 1 + width
  {
    var lo: Long := if |s.ranges| == 0 then 0 else Last(s.ranges).max + 1;
    var r := Range(lo, lo + width, value);
    AddAfterAll(s, r);
    assert |s.ranges| == 0 ==> s.ranges + [r] == [r];
    assert |s.ranges| > 0 ==> r == Range(Last(s.ranges).max + 1, Last(s.ranges).max + 1 + width, value);
    Add(s, r)
  }

  /** addMin as its Javadoc places it, ending just below the FIRST stored range, and with the
      fallback of its dead null branch: on an empty set the new range ends at 0 instead of
      throwing. (The Javadoc's "or 0 as starting ... and subtracts one" would end it at -1; this
      follows the branch the code writes.) It is always accepted, comes first, and its min
      becomes getMin. */
  function AddMinBeforeFirst<V>(s: RangeSet<V>, width: Long, value: V): (t: RangeSet<V>)
    requires s.Valid() && 0 <= width
    requires |s.ranges| > 0 ==> s.ranges[0].min - 1 - width >= MIN_LONG
    ensures t.Valid()
    ensures var hi := if |s.ranges| == 0 then 0 else s.ranges[0].min - 1;
            t.ranges == [Range(hi - width, hi, value)] + s.ranges && GetMin(t) == hi - width
  {
    var hi: Long := if |s.ranges| == 0 then 0 else s.ranges[0].min - 1;
    var r := Range(hi - width, hi, value);
    assert |s.ranges| > 0 ==> GetMin(s) == s.ranges[0].min;
    AddBeforeAll(s, r);
    Add(s, r)
  }

  /** On a non-empty set the corrected addMax and the written one agree. */
  lemma AddMaxAgreesWhenNonEmpty<V>(s: RangeSet<V>, width: Long, value: V)
    requires s.Valid() && |s.ranges| > 0 && 0 <= width
    requires Last(s.ranges).max + 1 + width <= MAX_LONG
    ensures AddMax(s, width, value) == Success(AddMaxFromZero(s, width, value))
  {
    var c := AboveLast(s, width, value);
    var r := Range(Last(s.ranges).max + 1, Last(s.ranges).max + 1 + width, value);
    assert c == r;
    assert AddMax(s, width, value) == Success(Add(s, c));
    assert AddMaxFromZero(s, width, value).ranges == s.ranges + [r];
  }

  /** As written, addMax on an empty set throws, where the corrected version starts at 0. */
  lemma AddMaxOnEmptyFails<V>(width: Long, value: V)
    requires 0 <= width
    ensures AddMax(Empty<V>(), width, value) == Failure(NoSuchElement)
    ensures AddMaxFromZero(Empty<V>(), width, value).ranges == [Range(0, width, value)]
  {
  }

  /** As written, addMin on an empty set throws, where the corrected version ends at 0. */
  lemma AddMinOnEmptyFails<V>(width: Long, value: V)
    requires 0 <= width
    ensures AddMin(Empty<V>(), width, value) == Failure(NoSuchElement)
    ensures AddMinBeforeFirst(Empty<V>(), width, value).ranges == [Range(-width, 0, value)]
  {
  }

  /** As written, addMin on {[0,9], [10,19]} builds [9,9] from the last range, which collides
      with [0,9], so the set is left as it was; the corrected version puts [-1,-1] first. */
  lemma AddMinUsesLastRange()
    ensures var s := RangeSet([Range(0, 9, "a"), Range(10, 19, "b")]);
            && s.Valid()
            && AddMin(s, 0, "c") == Success(s)
            && AddMinBeforeFirst(s, 0, "c").ranges == [Range(-1, -1, "c")] + s.ranges
  {
    var s := RangeSet([Range(0, 9, "a"), Range(10, 19, "b")]);
    assert Collides(s.ranges[0], Range(9, 9, "c"));
  }
}
