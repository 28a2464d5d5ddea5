/** The span of a flow or a page: read from two rows, true of all of them. */
module Spans {
  import opened Base
  import opened TimeRanges
  import opened TimeRangeText
  import opened Bounds
  import opened Tables
  import opened StoreSpec
  import opened StoreInvariant

  predicate Between(lo: int, t: int, hi: int) { lo <= t < hi }

  ghost function HalfOpen(lo: int, hi: int): iset<int> { iset t | Between(lo, t, hi) }

  /** [lo, hi) is the smallest interval that covers the rows. */
  ghost predicate Hull(rows: seq<Row>, lo: int, hi: int) {
    && (forall r :: r in rows ==> lo <= r.lower && r.upper <= hi)
    && (exists r :: r in rows && r.lower == lo) && (exists r :: r in rows && r.upper == hi)
  }

  /** The instants of the smallest interval that covers the rows. */
  ghost predicate SpansRows(instants: iset<int>, rows: seq<Row>) {
    exists lo, hi :: Hull(rows, lo, hi) && instants == HalfOpen(lo, hi)
  }

  /** The text names the span of the rows: absent without rows, and otherwise the
      smallest covering interval. */
  ghost predicate SpanText(text: Option<string>, rows: seq<Row>) {
    if rows == [] then text.None?
    else text.Some? && ParseRange(text.value).Ok? && SpansRows(Instants(ParseRange(text.value).value), rows)
  }

  lemma SideBounds(tr: TimeRange, t: int)
    requires WellFormed(tr) && ToBounds(tr).Ok?
    ensures AfterStart(tr, t) <==> (ToBounds(tr).value.lowerUnbounded || ToBounds(tr).value.lower <= t)
    ensures BeforeEnd(tr, t) <==> (ToBounds(tr).value.upperUnbounded || t < ToBounds(tr).value.upper)
  {
    hide ToNanos;
    if tr.start.Some? { ToNanosIsExact(tr.start.value); }
    if tr.end.Some? { ToNanosIsExact(tr.end.value); }
  }

  /** Joining the start of one stored range to the end of another. */
  lemma JoinedInstants(first: Row, last: Row)
    requires RowOk(first) && RowOk(last)
    ensures var j := JoinSpan(ParseRange(first.raw).value, ParseRange(last.raw).value);
            WellFormed(j) && Instants(j) == HalfOpen(first.lower, last.upper)
  {
    hide ParseRange, ToBounds;
    var a, b := ParseRange(first.raw).value, ParseRange(last.raw).value;
    var j := JoinSpan(a, b);
    ParsedIsWellFormed(first.raw);
    ParsedIsWellFormed(last.raw);
    BoundedHasEnds(a);
    BoundedHasEnds(b);
    forall t ensures Holds(j, t) <==> first.lower <= t < last.upper {
      SideBounds(a, t);
      SideBounds(b, t);
      assert AfterStart(j, t) == AfterStart(a, t) && BeforeEnd(j, t) == BeforeEnd(b, t);
    }
  }

  lemma BoundedHasEnds(tr: TimeRange)
    requires WellFormed(tr) && ToBounds(tr).Ok? && Bounded(ToBounds(tr).value)
    ensures tr.start.Some? && tr.end.Some?
  {
    hide ToNanos;
  }

  /** Rows that lie apart are ordered alike by their lower and their upper bounds. */
  lemma HighestEndsLast(rows: seq<Row>, nextId: nat, f: Uuid)
    requires RowsOk(rows) && Ascending(rows, nextId) && rows != [] && forall r :: r in rows ==> r.flowId == f
    ensures Hull(rows, Lowest(rows).lower, Highest(rows).upper)
  {
    hide ParseRange, ToBounds, Lowest, Highest;
    var last := Highest(rows);
    forall r | r in rows ensures r.upper <= last.upper {
      if r.id == last.id {
        var i :| 0 <= i < |rows| && rows[i] == r;
        var j :| 0 <= j < |rows| && rows[j] == last;
        assert i == j;
      } else {
        assert Apart(r, last) && RowOk(r) && RowOk(last);
      }
    }
  }

  /** The span read from the first and the last row by lower bound is the span of
      all the flow's rows. */
  lemma FlowSpanIsHull(db: Db, f: Uuid)
    requires RowsOk(db.segments) && Ascending(db.segments, db.nextId)
    ensures FlowSpan(db.segments, f).Ok?
    ensures SpanText(FlowSpan(db.segments, f).value, Filter(db.segments, OfFlow(f), true))
  {
    hide ParseRange, RangeText, RowOk, Lowest, Highest, Filter;
    var mine := Filter(db.segments, OfFlow(f), true);
    FilterMember(db.segments, OfFlow(f), true);
    if mine != [] {
      FilterKeepsRows(db, OfFlow(f), true);
      HighestEndsLast(mine, db.nextId, f);
      var first, last := Lowest(mine), Highest(mine);
      assert RowOk(first) && RowOk(last);
      SpanOfRows(mine, first, last);
    }
  }

  /** The span's text runs from the start of the row with the least lower bound, as
      that row writes it, to the end of the row with the greatest. */
  lemma FlowSpanText(db: Db, f: Uuid, first: Row, last: Row)
    requires RowsOk(db.segments) && Ascending(db.segments, db.nextId)
    requires first in db.segments && first.flowId == f && last in db.segments && last.flowId == f
    requires forall r :: r in db.segments && r.flowId == f ==> first.lower <= r.lower <= last.lower
    ensures ParseRange(first.raw).Ok? && ParseRange(last.raw).Ok?
    ensures var a, b := ParseRange(first.raw).value, ParseRange(last.raw).value;
            FlowSpan(db.segments, f) == Ok(Some(RangeText(TimeRange(a.start, a.startType, b.end, b.endType))))
  {
    hide ParseRange, RangeText, ToBounds, Lowest, Highest, Filter;
    var mine := Filter(db.segments, OfFlow(f), true);
    FilterMember(db.segments, OfFlow(f), true);
    assert first in mine && last in mine && RowOk(first) && RowOk(last);
    assert Lowest(mine) in mine && Highest(mine) in mine;
    SameStart(db, Lowest(mine), first);
    SameStart(db, Highest(mine), last);
  }

  /** Two rows of a flow that start together are one row. */
  lemma SameStart(db: Db, a: Row, b: Row)
    requires RowsOk(db.segments) && Ascending(db.segments, db.nextId) && a in db.segments && b in db.segments
    requires a.flowId == b.flowId && a.lower == b.lower
    ensures a == b
  {
    hide ParseRange, ToBounds;
    assert RowOk(a) && RowOk(b);
    assert a.id != b.id ==> Apart(a, b);
    var i :| 0 <= i < |db.segments| && db.segments[i] == a;
    var j :| 0 <= j < |db.segments| && db.segments[j] == b;
    assert i == j;
  }

  lemma SpanOfRows(rows: seq<Row>, first: Row, last: Row)
    requires RowOk(first) && RowOk(last) && first in rows && last in rows && Hull(rows, first.lower, last.upper)
    ensures ParseRange(first.raw).Ok? && ParseRange(last.raw).Ok?
    ensures var j := JoinSpan(ParseRange(first.raw).value, ParseRange(last.raw).value);
            WellFormed(j) && !IsEmpty(j) && SpansRows(Instants(j), rows) && SpanText(Some(RangeText(j)), rows)
  {
    hide ParseRange, ToBounds, RangeText;
    var j := JoinSpan(ParseRange(first.raw).value, ParseRange(last.raw).value);
    JoinedInstants(first, last);
    assert first.lower in Instants(j);
    EmptyMeansNoInstant(j);
    RangeRoundTrip(j);
  }

  // ----- The stored span -----

  ghost predicate StoredSpanOk(db: Db, f: Uuid)
    requires f in db.flows
  {
    SpanText(db.flows[f].timerange, Filter(db.segments, OfFlow(f), true))
  }

  /** Every committed batch stores the span of the rows it leaves. */
  lemma InsertStoresSpan(db: Db, b: Batch)
    requires Inv(db) && Admissible(InsertSegments(b)) && TryInsert(db, b).Ok?
    ensures b.flowId in TryInsert(db, b).value.flows && StoredSpanOk(TryInsert(db, b).value, b.flowId)
  {
    hide TryInsert, RowOk, FlowSpan, SegmentBounds, AddRefs, SpanText, Filter, Converted;
    AcceptedBatch(db, b);
    InsertKeepsInv(db, b);
    FlowSpanIsHull(TryInsert(db, b).value, b.flowId);
  }

  /** So does every committed deletion that looks for rows at all. */
  lemma DeleteStoresSpan(db: Db, q: DeleteQuery)
    requires Inv(db) && TryDeleteSegments(db, q).Ok? && !IsEmpty(q.timerange)
    ensures q.flowId in TryDeleteSegments(db, q).value.db.flows
            && StoredSpanOk(TryDeleteSegments(db, q).value.db, q.flowId)
  {
    hide RowOk, FlowSpan, SpanText, Filter, Refs, ToBounds;
    DeleteSegmentsKeepsInv(db, q);
    FlowSpanIsHull(TryDeleteSegments(db, q).value.db, q.flowId);
  }

  // ----- Exactly when the stored span is right -----

  /** The event is a committed write to the flow's segments. */
  predicate RefreshesSpan(db: Db, e: Event, f: Uuid) {
    match e
    case InsertSegments(b) => b.flowId == f && TryInsert(db, b).Ok?
    case DeleteSegments(q) => q.flowId == f && TryDeleteSegments(db, q).Ok? && !IsEmpty(q.timerange)
    case _ => false
  }

  /** The event creates or updates the flow, and brings the client's own text. */
  predicate OverwritesSpan(db: Db, e: Event, f: Uuid) {
    e.UpsertFlow? && e.id == f && TryUpsertFlow(db, f, e.flow).Ok?
  }

  /** The column is right after an event that wrote it: the store computed the text,
      or the client's text named the span of the rows of the moment. */
  ghost predicate LeavesSpan(db: Db, e: Event, f: Uuid) {
    RefreshesSpan(db, e, f)
    || (OverwritesSpan(db, e, f) && SpanText(e.flow.timerange, Filter(db.segments, OfFlow(f), true)))
  }

  lemma StepSpan(db: Db, e: Event, f: Uuid)
    requires Inv(db) && Admissible(e) && f in Apply(db, e).flows
    ensures if RefreshesSpan(db, e, f) || OverwritesSpan(db, e, f)
            then StoredSpanOk(Apply(db, e), f) <==> LeavesSpan(db, e, f)
            else f in db.flows && (StoredSpanOk(Apply(db, e), f) <==> StoredSpanOk(db, f))
  {
    hide Inv, SpanText, Filter, TryInsert, TryDeleteSegments, TryDeleteFlow, TryUpsertFlow, Converted;
    match e
    case UpsertFlow(id, flow) => UpsertEffect(db, id, flow);
    case InsertSegments(b) =>
      if TryInsert(db, b).Ok? {
        if b.flowId == f {
          InsertStoresSpan(db, b);
        } else {
          InsertKeepsFlows(db, b);
          InsertOtherFlow(db, b, f);
        }
      }
    case DeleteSegments(q) =>
      if TryDeleteSegments(db, q).Ok? {
        if q.flowId == f && !IsEmpty(q.timerange) {
          DeleteStoresSpan(db, q);
        } else {
          DeleteKeepsFlows(db, q);
          DeleteOtherFlow(db, q, f);
        }
      }
    case DeleteFlow(id) => DeleteFlowOther(db, id, f);
    case _ =>
  }

  /** The k-th event of a run wrote the flow's time range, and none after it did. */
  predicate LastWrite(events: seq<Event>, k: nat, f: Uuid) {
    && k < |events| && Writes(events, k, f)
    && forall j :: k < j < |events| ==> !Writes(events, j, f)
  }

  predicate Writes(events: seq<Event>, k: nat, f: Uuid)
    requires k < |events|
  {
    var db := Run(EMPTY_DB, events[..k]);
    RefreshesSpan(db, events[k], f) || OverwritesSpan(db, events[k], f)
  }

  /** After every run, the stored time range of a flow is its span exactly when the
      last event that wrote it was a segment write, or an upsert whose text named the
      span then. Later writes repair what an upsert broke, and nothing else matters. */
  lemma {:induction false} StoredSpanExactly(events: seq<Event>, f: Uuid) returns (k: nat)
    requires AllAdmissible(events) && f in Run(EMPTY_DB, events).flows
    ensures LastWrite(events, k, f)
    ensures StoredSpanOk(Run(EMPTY_DB, events), f) <==> LeavesSpan(Run(EMPTY_DB, events[..k]), events[k], f)
  {
    hide Inv, Apply, Admissible, StoredSpanOk, LeavesSpan, RefreshesSpan, OverwritesSpan;
    if events == [] {
      assert false;
    } else {
      var n := |events| - 1;
      var front := events[..n];
      ReachableInv(front);
      StepSpan(Run(EMPTY_DB, front), events[n], f);
      if Writes(events, n, f) {
        k := n;
      } else {
        k := StoredSpanExactly(front, f);
        assert forall j :: 0 <= j <= n ==> front[..j] == events[..j];
        assert forall j :: 0 <= j < n ==> (Writes(events, j, f) <==> Writes(front, j, f));
      }
    }
  }

  lemma InsertKeepsFlows(db: Db, b: Batch)
    requires TryInsert(db, b).Ok?
    ensures TryInsert(db, b).value.flows.Keys == db.flows.Keys
  {
    hide TryInsert, FlowSpan, SegmentBounds, AddRefs;
    AcceptedBatch(db, b);
  }

  lemma DeleteKeepsFlows(db: Db, q: DeleteQuery)
    requires TryDeleteSegments(db, q).Ok?
    ensures TryDeleteSegments(db, q).value.db.flows.Keys == db.flows.Keys
  {
    hide FlowSpan, Filter, Refs;
  }

  lemma InsertOtherFlow(db: Db, b: Batch, f: Uuid)
    requires TryInsert(db, b).Ok? && f in db.flows && f != b.flowId
    ensures var after := TryInsert(db, b).value;
            f in after.flows && after.flows[f] == db.flows[f]
            && Filter(after.segments, OfFlow(f), true) == Filter(db.segments, OfFlow(f), true)
  {
    hide TryInsert, FlowSpan, SegmentBounds, AddRefs;
    AcceptedBatch(db, b);
    var added := NewRows(b.flowId, b.segments, SegmentBounds(b.segments).value, db.nextId);
    FilterAppend(db.segments, added, OfFlow(f), true);
    FilterNone(added, OfFlow(f), true);
  }

  lemma {:induction false} FilterKeepsFlow(rows: seq<Row>, c: Cond, f: Uuid)
    requires forall r :: r in rows && r.flowId == f ==> !Sat(c, r)
    ensures Filter(Filter(rows, c, false), OfFlow(f), true) == Filter(rows, OfFlow(f), true)
  {
    if rows == [] {
    } else {
      var front, last := rows[..|rows| - 1], rows[|rows| - 1];
      FilterKeepsFlow(front, c, f);
      if !Sat(c, last) { FilterAppend(Filter(front, c, false), [last], OfFlow(f), true); assert [last][..0] == []; }
    }
  }

  lemma DeleteOtherFlow(db: Db, q: DeleteQuery, f: Uuid)
    requires TryDeleteSegments(db, q).Ok? && f in db.flows && (f == q.flowId ==> IsEmpty(q.timerange))
    ensures var after := TryDeleteSegments(db, q).value.db;
            f in after.flows && after.flows[f] == db.flows[f]
            && Filter(after.segments, OfFlow(f), true) == Filter(db.segments, OfFlow(f), true)
  {
    hide FlowSpan, Filter, Refs;
    var w := QueryBounds(q.timerange).value;
    if w.Some? { FilterKeepsFlow(db.segments, CoveredBy(q.flowId, w.value, q.objectId), f); }
  }

  lemma DeleteFlowOther(db: Db, id: Uuid, f: Uuid)
    ensures var r := TryDeleteFlow(db, id);
            r.Ok? && f in r.value.flows ==>
              && f in db.flows && r.value.flows[f] == db.flows[f]
              && Filter(r.value.segments, OfFlow(f), true) == Filter(db.segments, OfFlow(f), true)
  {
    hide Filter, Refs;
    if id != f { FilterKeepsFlow(db.segments, OfFlow(id), f); }
  }

  // ----- Reported spans -----

  /** The time range GetFlow reports when asked for it (internal/service/flow/flow.go):
      the span, cut to the caller's filter. Without rows the stored column stands. */
  function ReportedTimerange(db: Db, f: Uuid, filter: Option<TimeRange>): Result<Option<string>, ParseError>
    requires f in db.flows
  {
    var span := FlowSpan(db.segments, f);
    if span.Err? then span
    else if span.value.None? then Ok(db.flows[f].timerange)
    else if filter.None? then span
    else
      var computed := ParseRange(span.value.value);
      if computed.Err? then Err(computed.error) else Ok(Some(RangeText(Meet(computed.value, filter.value))))
  }

  /** The text's instants are the span of the rows, within the filter if there is one. */
  ghost predicate ReportsSpan(text: Option<string>, rows: seq<Row>, filter: Option<TimeRange>) {
    && text.Some? && ParseRange(text.value).Ok?
    && exists span: iset<int> :: SpansRows(span, rows)
         && Instants(ParseRange(text.value).value) == if filter.None? then span else span * Instants(filter.value)
  }

  lemma ReportedIsSpanWithinFilter(db: Db, f: Uuid, filter: Option<TimeRange>)
    requires Inv(db) && f in db.flows && (filter.Some? ==> WellFormed(filter.value))
    ensures var r := ReportedTimerange(db, f, filter);
            var mine := Filter(db.segments, OfFlow(f), true);
            r.Ok? && if mine == [] then r.value == db.flows[f].timerange else ReportsSpan(r.value, mine, filter)
  {
    hide ParseRange, RangeText, FlowSpan, Meet, Filter, SpansRows;
    FlowSpanIsHull(db, f);
    if Filter(db.segments, OfFlow(f), true) != [] && filter.Some? {
      var text := FlowSpan(db.segments, f).value.value;
      var computed := ParseRange(text).value;
      ParsedIsWellFormed(text);
      MeetDenotesIntersection(computed, filter.value);
      RangeRoundTrip(Meet(computed, filter.value));
      EmptyMeansNoInstant(Meet(computed, filter.value));
      EmptyMeansNoInstant(EMPTY);
    }
  }

  /** One listed row, with its range parsed from the stored string. */
  datatype Item = Item(row: Row, timerange: TimeRange)

  predicate ItemOk(it: Item) { RowOk(it.row) && ParseRange(it.row.raw) == Ok(it.timerange) }

  function RowsOf(items: seq<Item>): (rows: seq<Row>)
    ensures |rows| == |items| && forall i :: 0 <= i < |items| ==> rows[i] == items[i].row
  {
    seq(|items|, i requires 0 <= i < |items| => items[i].row)
  }

  /** The page span looks for the least lower and the greatest upper bound, so it
      needs neither an order of the items nor that they lie apart. */
  method PageSpan(items: seq<Item>) returns (span: TimeRange)
    requires items != [] && forall i :: 0 <= i < |items| ==> ItemOk(items[i])
    ensures WellFormed(span) && SpansRows(Instants(span), RowsOf(items))
    ensures exists i, j :: 0 <= i < |items| && 0 <= j < |items|
              && span == TimeRange(items[i].timerange.start, items[i].timerange.startType,
                                   items[j].timerange.end, items[j].timerange.endType)
  {
    hide RowOk, ParseRange;
    var first, last := 0, 0;
    for i := 0 to |items|
      invariant 0 <= first < |items| && 0 <= last < |items|
      invariant forall k :: 0 <= k < i ==> items[first].row.lower <= items[k].row.lower
      invariant forall k :: 0 <= k < i ==> items[k].row.upper <= items[last].row.upper
    {
      if items[i].row.lower < items[first].row.lower { first := i; }
      if items[i].row.upper > items[last].row.upper { last := i; }
    }
    span := JoinSpan(items[first].timerange, items[last].timerange);
    ghost var rows := RowsOf(items);
    assert rows[first] in rows && rows[last] in rows;
    assert Hull(rows, rows[first].lower, rows[last].upper);
    SpanOfRows(rows, rows[first], rows[last]);
  }
}
