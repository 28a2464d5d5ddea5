/** Half-open int64 nanosecond bounds (internal/timerange/nsbounds.go), the
    interval tests that internal/metastore/segments.go runs on them in Go and in
    SQL, and their agreement with the meaning of ranges. */
module Bounds {
  import opened Base
  import opened TimeRanges

  datatype BoundsError = OutOfRange | EmptyRange

  /** The interval [lower, upper); a number is meaningful only on a bounded side. */
  datatype NsBounds = NsBounds(lower: Int64, upper: Int64, lowerUnbounded: bool, upperUnbounded: bool)

  // ----- Conversion -----

  /** The value in nanoseconds, or None if it does not fit. The typed
      intermediates show that nothing on the way overflows. */
  function ToNanos(ts: Timestamp): Option<Int64> {
    var shift := ts.seconds < 0 && ts.nanoseconds > 0;
    var s: Int64 := if shift then ts.seconds + 1 else ts.seconds;
    var ns: Int64 := if shift then ts.nanoseconds - NS_PER_SEC else ts.nanoseconds;
    if s > TruncDiv(MAX64, NS_PER_SEC) || s < TruncDiv(MIN64, NS_PER_SEC) then None
    else
      var v: Int64 := s * NS_PER_SEC;
      if (ns > 0 && v > MAX64 - ns) || (ns < 0 && v < MIN64 - ns) then None
      else Some(v + ns)
  }

  function BoundNanos(ts: Timestamp, addOne: bool): Result<Int64, BoundsError> {
    var v := ToNanos(ts);
    if v.None? || (addOne && v.value == MAX64) then Err(OutOfRange)
    else Ok(if addOne then v.value + 1 else v.value)
  }

  function ToBounds(tr: TimeRange): Result<NsBounds, BoundsError> {
    if IsEmpty(tr) then Err(EmptyRange)
    else
      var lo := if tr.start.None? then Ok(0) else BoundNanos(tr.start.value, tr.startType == Exclusive);
      var hi := if tr.end.None? then Ok(0) else BoundNanos(tr.end.value, tr.endType == Inclusive);
      if lo.Err? then Err(lo.error) else if hi.Err? then Err(hi.error)
      else Ok(NsBounds(lo.value, hi.value, tr.start.None?, tr.end.None?))
  }

  function FromDuration(d: Int64): Timestamp {
    var s, ns := TruncDiv(d, NS_PER_SEC), TruncMod(d, NS_PER_SEC);
    if ns < 0 then Timestamp(s - 1, ns + NS_PER_SEC) else Timestamp(s, ns)
  }

  // ----- What the conversion means -----

  predicate Fits(x: int) { MIN64 <= x <= MAX64 }

  predicate Inside(b: NsBounds, t: int) {
    (b.lowerUnbounded || b.lower <= t) && (b.upperUnbounded || t < b.upper)
  }

  ghost function Interval(b: NsBounds): iset<int> { iset t | Inside(b, t) }

  /** Exact when it fits, and refused only when it does not. */
  lemma ToNanosIsExact(ts: Timestamp)
    ensures ToNanos(ts) == if Fits(Instant(ts)) then Some(Instant(ts)) else None
  {
  }

  lemma DurationRoundTrip(d: Int64)
    ensures ToNanos(FromDuration(d)) == Some(d)
  {
    ToNanosIsExact(FromDuration(d));
  }

  /** The first nanosecond of a bounded start, and the first one after a bounded end. */
  function FirstIn(tr: TimeRange): int
    requires tr.start.Some?
  {
    Instant(tr.start.value) + if tr.startType == Exclusive then 1 else 0
  }

  function FirstAfter(tr: TimeRange): int
    requires tr.end.Some?
  {
    Instant(tr.end.value) + if tr.endType == Inclusive then 1 else 0
  }

  predicate Representable(tr: TimeRange) {
    (tr.start.Some? ==> Fits(FirstIn(tr)) && Fits(Instant(tr.start.value)))
    && (tr.end.Some? ==> Fits(FirstAfter(tr)) && Fits(Instant(tr.end.value)))
  }

  /** Bounds exist exactly when the range is non-empty and its timestamps and bounds
      fit, and they are then the range's set of instants. */
  lemma BoundsAreTheRange(tr: TimeRange)
    requires WellFormed(tr)
    ensures ToBounds(tr) == Err(EmptyRange) <==> Instants(tr) == iset{}
    ensures ToBounds(tr) == Err(OutOfRange) <==> Instants(tr) != iset{} && !Representable(tr)
    ensures ToBounds(tr).Ok? ==> Interval(ToBounds(tr).value) == Instants(tr) != iset{}
  {
    hide ToNanos;
    EmptyMeansNoInstant(tr);
    if tr.start.Some? { ToNanosIsExact(tr.start.value); }
    if tr.end.Some? { ToNanosIsExact(tr.end.value); }
    if ToBounds(tr).Ok? {
      forall t ensures Inside(ToBounds(tr).value, t) <==> Holds(tr, t) {}
    }
  }

  /** The unadjusted bound must fit too: an exclusive start one nanosecond below
      int64 is refused although its first instant is the smallest int64. */
  lemma AdjustedBoundIsNotEnough()
    ensures var tr := TimeRange(Some(Timestamp(-9223372037, 145224191)), Exclusive, None, Unbounded);
            WellFormed(tr) && FirstIn(tr) == MIN64 && ToBounds(tr) == Err(OutOfRange)
  {
  }

  // ----- Overlap tests -----

  predicate BoundsOverlap(a: NsBounds, b: NsBounds) {
    && (a.lowerUnbounded || b.upperUnbounded || a.lower < b.upper)
    && (b.lowerUnbounded || a.upperUnbounded || b.lower < a.upper)
  }

  function LowerParam(b: NsBounds): Option<Int64> { if b.lowerUnbounded then None else Some(b.lower) }

  function UpperParam(b: NsBounds): Option<Int64> { if b.upperUnbounded then None else Some(b.upper) }

  /** The list predicate in SQL, where a NULL parameter is an unbounded side. */
  predicate OverlapCond(lowerNs: Int64, upperNs: Int64, lo: Option<Int64>, hi: Option<Int64>) {
    (hi.None? || lowerNs < hi.value) && (lo.None? || upperNs > lo.value)
  }

  /** `int8range(lower_ns, upper_ns) && int8range($lo, $hi)`: range overlap,
      which an empty operand never satisfies. */
  predicate RangeOverlapOp(lowerNs: Int64, upperNs: Int64, lo: Option<Int64>, hi: Option<Int64>) {
    && lowerNs < upperNs && (lo.Some? && hi.Some? ==> lo.value < hi.value)
    && OverlapCond(lowerNs, upperNs, lo, hi)
  }

  ghost predicate ShareNanosecond(a: NsBounds, b: NsBounds) {
    exists t :: Inside(a, t) && Inside(b, t)
  }

  predicate Proper(b: NsBounds) { b.lowerUnbounded || b.upperUnbounded || b.lower < b.upper }

  lemma ProperBounds(tr: TimeRange)
    requires WellFormed(tr) && ToBounds(tr).Ok?
    ensures Proper(ToBounds(tr).value)
  {
    BoundsAreTheRange(tr);
    var t :| t in Interval(ToBounds(tr).value);
  }

  lemma BoundsOverlapIsSharing(a: NsBounds, b: NsBounds)
    requires Proper(a) && Proper(b)
    ensures BoundsOverlap(a, b) <==> ShareNanosecond(a, b)
  {
    if BoundsOverlap(a, b) {
      var t := if a.lowerUnbounded && b.lowerUnbounded then
                 (if a.upperUnbounded then (if b.upperUnbounded then 0 else b.upper - 1)
                  else if b.upperUnbounded || a.upper < b.upper then a.upper - 1 else b.upper - 1)
               else if a.lowerUnbounded then b.lower
               else if b.lowerUnbounded || a.lower > b.lower then a.lower else b.lower;
      assert Inside(a, t) && Inside(b, t);
    }
  }

  /** The Go test, the two SQL tests (the second range being a bounded row), the
      range algebra and a shared nanosecond: five ways to ask one question. */
  lemma OverlapTestsAgree(q: TimeRange, row: TimeRange)
    requires WellFormed(q) && WellFormed(row) && ToBounds(q).Ok? && ToBounds(row).Ok?
    ensures var b, r := ToBounds(q).value, ToBounds(row).value;
            && (BoundsOverlap(b, r) <==> ShareInstant(q, row))
            && (Overlaps(q, row) <==> ShareInstant(q, row))
            && (row.start.Some? && row.end.Some? ==>
                  && (OverlapCond(r.lower, r.upper, LowerParam(b), UpperParam(b)) <==> ShareInstant(q, row))
                  && (RangeOverlapOp(r.lower, r.upper, LowerParam(b), UpperParam(b)) <==> ShareInstant(q, row)))
  {
    var b, r := ToBounds(q).value, ToBounds(row).value;
    BoundsAreTheRange(q);
    BoundsAreTheRange(row);
    ProperBounds(q);
    ProperBounds(row);
    BoundsOverlapIsSharing(b, r);
    forall t ensures Inside(b, t) && Inside(r, t) <==> Holds(q, t) && Holds(row, t) {
      assert t in Interval(b) <==> t in Instants(q);
      assert t in Interval(r) <==> t in Instants(row);
    }
    OverlapsMeansSharedInstant(q, row);
  }
}
