/** Whether one range lies inside another, as internal/metastore/segments.go
    decides it by comparing bounds rather than instants. */
module Containment {
  import opened Base
  import opened TimeRanges
  import opened Bounds

  predicate InnerStartLess(outer: TimeRange, inner: TimeRange)
    requires inner.start.Some? && outer.start.Some?
  {
    if Before(inner.start.value, outer.start.value) then true
    else if Before(outer.start.value, inner.start.value) then false
    else outer.startType == Exclusive && inner.startType == Inclusive
  }

  predicate InnerEndGreater(outer: TimeRange, inner: TimeRange)
    requires inner.end.Some? && outer.end.Some?
  {
    if Before(outer.end.value, inner.end.value) then true
    else if Before(inner.end.value, outer.end.value) then false
    else outer.endType == Exclusive && inner.endType == Inclusive
  }

  /** None is a nil dereference. */
  function RangeContains(outer: TimeRange, inner: TimeRange): Option<bool> {
    if IsEternity(outer) || IsEmpty(inner) then Some(true)
    else if IsEternity(inner) then Some(false)
    else if outer.startType != Unbounded && inner.startType == Unbounded then Some(false)
    else if outer.startType != Unbounded && (inner.start.None? || outer.start.None?) then None
    else if outer.startType != Unbounded && InnerStartLess(outer, inner) then Some(false)
    else if outer.endType != Unbounded && inner.endType == Unbounded then Some(false)
    else if outer.endType != Unbounded && (inner.end.None? || outer.end.None?) then None
    else if outer.endType != Unbounded && InnerEndGreater(outer, inner) then Some(false)
    else Some(true)
  }

  /** The one way it fails: `()` as the outer range, against a range with instants and a start. */
  lemma DereferencesNilExactlyOnEmpty(outer: TimeRange, inner: TimeRange)
    requires WellFormed(outer) && WellFormed(inner)
    ensures RangeContains(outer, inner).None? <==> outer == EMPTY && !IsEmpty(inner) && inner.start.Some?
  {
  }

  /** A whole nanosecond lies between the bounds as written but not between the
      sets: an exclusive inner bound just outside an inclusive outer one. */
  predicate OffByOne(outer: TimeRange, inner: TimeRange) {
    || (&& outer.start.Some? && inner.start.Some? && outer.startType == Inclusive && inner.startType == Exclusive
        && Instant(inner.start.value) + 1 == Instant(outer.start.value))
    || (&& outer.end.Some? && inner.end.Some? && outer.endType == Inclusive && inner.endType == Exclusive
        && Instant(inner.end.value) == Instant(outer.end.value) + 1)
  }

  /** When the comparison answers, it answers true exactly for an included range
      whose bounds are not off by one. */
  lemma ContainsExactly(outer: TimeRange, inner: TimeRange)
    requires WellFormed(outer) && WellFormed(inner) && RangeContains(outer, inner).Some?
    ensures RangeContains(outer, inner).value <==>
            Instants(inner) <= Instants(outer) && (IsEmpty(inner) || !OffByOne(outer, inner))
  {
    EmptyMeansNoInstant(inner);
    if IsEternity(outer) || IsEmpty(inner) {
      assert IsEternity(outer) ==> forall t :: Holds(outer, t);
    } else {
      ExtremesDecide(outer, inner);
    }
  }

  /** Inclusion of a range with instants is a question about its extremes. */
  lemma ExtremesDecide(outer: TimeRange, inner: TimeRange)
    requires WellFormed(outer) && WellFormed(inner) && !IsEmpty(inner)
    ensures Instants(inner) <= Instants(outer) <==>
            && outer != EMPTY
            && (outer.start.Some? ==> inner.start.Some? && FirstIn(outer) <= FirstIn(inner))
            && (outer.end.Some? ==> inner.end.Some? && FirstAfter(inner) <= FirstAfter(outer))
  {
    var w := Witness(inner);
    if Instants(inner) <= Instants(outer) {
      assert w in Instants(inner);
      if outer.start.Some? {
        var low := if inner.start.Some? then FirstIn(inner) else if FirstIn(outer) <= w then FirstIn(outer) - 1 else w;
        assert low in Instants(inner);
      }
      if outer.end.Some? {
        var high := if inner.end.Some? then FirstAfter(inner) - 1 else if w < FirstAfter(outer) then FirstAfter(outer) else w;
        assert high in Instants(inner);
      }
    }
  }

  /** Not complete on whole nanoseconds: [0:0_0:5) is inside [0:0_0:4]. */
  lemma IncompleteOnNanoseconds()
    ensures var outer := TimeRange(Some(Timestamp(0, 0)), Inclusive, Some(Timestamp(0, 4)), Inclusive);
            var inner := TimeRange(Some(Timestamp(0, 0)), Inclusive, Some(Timestamp(0, 5)), Exclusive);
            Instants(inner) == Instants(outer) && RangeContains(outer, inner) == Some(false)
  {
    var outer := TimeRange(Some(Timestamp(0, 0)), Inclusive, Some(Timestamp(0, 4)), Inclusive);
    var inner := TimeRange(Some(Timestamp(0, 0)), Inclusive, Some(Timestamp(0, 5)), Exclusive);
    assert forall t :: Holds(inner, t) <==> Holds(outer, t);
  }
}
