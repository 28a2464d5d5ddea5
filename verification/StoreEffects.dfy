/** What single transactions do, and what survives between them. */
module StoreEffects {
  import opened Base
  import opened TimeRanges
  import opened TimeRangeText
  import opened Bounds
  import opened Tables
  import opened StoreSpec
  import opened StoreInvariant

  // ----- Rows are never changed -----

  /** A step drops rows or adds rows with new ids; it changes none. */
  lemma StepRows(db: Db, e: Event)
    ensures db.nextId <= Apply(db, e).nextId
    ensures forall r :: r in Apply(db, e).segments ==> r in db.segments || db.nextId <= r.id
  {
    hide FlowSpan, Filter, SegmentBounds, AddRefs, TryInsert, TryUpsertFlow;
    match e
    case UpsertFlow(id, f) => UpsertEffect(db, id, f);
    case InsertSegments(b) => if TryInsert(db, b).Ok? { AcceptedBatch(db, b); }
    case DeleteSegments(q) =>
      var w := QueryBounds(q.timerange);
      if w.Ok? && w.value.Some? { FilterMember(db.segments, CoveredBy(q.flowId, w.value.value, q.objectId), false); }
    case DeleteFlow(id) => FilterMember(db.segments, OfFlow(id), false);
    case _ =>
  }

  /** A row seen later under an id that was already taken is the row that was there. */
  lemma {:induction false} RunRows(db: Db, events: seq<Event>)
    ensures db.nextId <= Run(db, events).nextId
    ensures forall r :: r in Run(db, events).segments ==> r in db.segments || db.nextId <= r.id
  {
    hide Apply;
    if events == [] {
    } else {
      RunRows(db, events[..|events| - 1]);
      StepRows(Run(db, events[..|events| - 1]), events[|events| - 1]);
    }
  }

  // ----- Registering the same batch again -----

  /** The event deletes nothing of the flow. */
  predicate Spares(e: Event, f: Uuid) {
    !(e.DeleteSegments? && e.query.flowId == f) && !(e.DeleteFlow? && e.id == f)
  }

  lemma StepSpares(db: Db, e: Event, f: Uuid)
    requires Spares(e, f)
    ensures f in db.flows ==> f in Apply(db, e).flows
    ensures forall r :: r in db.segments && r.flowId == f ==> r in Apply(db, e).segments
  {
    hide FlowSpan, Filter, SegmentBounds, AddRefs, TryInsert;
    match e
    case InsertSegments(b) => if TryInsert(db, b).Ok? { AcceptedBatch(db, b); }
    case DeleteSegments(q) =>
      var w := QueryBounds(q.timerange);
      if w.Ok? && w.value.Some? { FilterMember(db.segments, CoveredBy(q.flowId, w.value.value, q.objectId), false); }
    case DeleteFlow(id) => FilterMember(db.segments, OfFlow(id), false);
    case _ =>
  }

  lemma {:induction false} RunSpares(db: Db, events: seq<Event>, f: Uuid)
    requires f in db.flows && forall i :: 0 <= i < |events| ==> Spares(events[i], f)
    ensures f in Run(db, events).flows
    ensures forall r :: r in db.segments && r.flowId == f ==> r in Run(db, events).segments
  {
    hide Apply, Spares;
    if events == [] {
    } else {
      RunSpares(db, events[..|events| - 1], f);
      StepSpares(Run(db, events[..|events| - 1]), events[|events| - 1], f);
    }
  }

  /** A committed batch has its effect once. Submitted again while its flow's rows
      are left alone, it is refused, with the overlap error unless the flow has
      meanwhile been made read-only, and the tables do not change. */
  lemma ResubmissionRefused(db: Db, b: Batch, events: seq<Event>)
    requires Inv(db) && Admissible(InsertSegments(b)) && b.segments != [] && TryInsert(db, b).Ok?
    requires forall i :: 0 <= i < |events| ==> Spares(events[i], b.flowId)
    ensures var later := Run(TryInsert(db, b).value, events);
            && b.flowId in later.flows
            && TryInsert(later, b) == Err(if later.flows[b.flowId].readOnly then FlowReadOnly else SegmentOverlap)
            && Apply(later, InsertSegments(b)) == later
  {
    var after := TryInsert(db, b).value;
    var later := Run(after, events);
    FirstRowStored(db, b);
    var bounds := SegmentBounds(b.segments).value;
    var r := NewRows(b.flowId, b.segments, bounds, db.nextId)[0];
    assert b.flowId in later.flows && r in later.segments by {
      hide Run;
      assert b.flowId in after.flows by { AcceptedBatch(db, b); }
      RunSpares(after, events, b.flowId);
    }
    StoredRowBlocks(later, b, r);
  }

  lemma FirstRowStored(db: Db, b: Batch)
    requires Inv(db) && Admissible(InsertSegments(b)) && b.segments != [] && TryInsert(db, b).Ok?
    ensures SegmentBounds(b.segments).Ok? && !SelfOverlap(SegmentBounds(b.segments).value)
    ensures Bounded(SegmentBounds(b.segments).value[0])
    ensures var r := NewRows(b.flowId, b.segments, SegmentBounds(b.segments).value, db.nextId)[0];
            r in TryInsert(db, b).value.segments && r.lower < r.upper
  {
    hide FlowSpan, SegmentBounds, AddRefs, TryInsert, Converted;
    AcceptedBatch(db, b);
    AddedRowsOk(b.flowId, b.segments, db.nextId);
    var added := NewRows(b.flowId, b.segments, SegmentBounds(b.segments).value, db.nextId);
    assert added[0] in added;
    assert RowOk(added[0]);
  }

  lemma StoredRowBlocks(db: Db, b: Batch, r: Row)
    requires SegmentBounds(b.segments).Ok? && !SelfOverlap(SegmentBounds(b.segments).value) && b.segments != []
    requires Bounded(SegmentBounds(b.segments).value[0])
    requires b.flowId in db.flows && r in db.segments && r.flowId == b.flowId && r.lower < r.upper
    requires r.lower == SegmentBounds(b.segments).value[0].lower && r.upper == SegmentBounds(b.segments).value[0].upper
    ensures TryInsert(db, b) == Err(if db.flows[b.flowId].readOnly then FlowReadOnly else SegmentOverlap)
  {
    hide SegmentBounds, AddRefs, FlowSpan, SelfOverlap;
    var bounds := SegmentBounds(b.segments).value;
    var k :| 0 <= k < |db.segments| && db.segments[k] == r;
    assert HitsStored(db.segments, b.flowId, bounds[0]);
  }

  // ----- Deleting by time range -----

  lemma {:induction false} FilterCounts(rows: seq<Row>, c: Cond)
    ensures |Filter(rows, c, true)| + |Filter(rows, c, false)| == |rows|
  {
    if rows == [] {
    } else {
      FilterCounts(rows[..|rows| - 1], c);
    }
  }

  /** The row is one the query asks to delete: it is the flow's, the object's if
      one is named, and every instant of it lies in the range. */
  ghost predicate Covered(r: Row, q: DeleteQuery) {
    && r.flowId == q.flowId && (q.objectId.None? || r.objectId == q.objectId.value)
    && forall t :: r.lower <= t < r.upper ==> t in Instants(q.timerange)
  }

  lemma CoveredBySql(r: Row, q: DeleteQuery)
    requires RowOk(r) && WellFormed(q.timerange) && QueryBounds(q.timerange).Ok?
    ensures var w := QueryBounds(q.timerange).value;
            Covered(r, q) <==> w.Some? && Sat(CoveredBy(q.flowId, w.value, q.objectId), r)
  {
    hide ParseRange, ToBounds;
    BoundsAreTheRange(q.timerange);
    EmptyMeansNoInstant(q.timerange);
    assert Covered(r, q) ==> r.lower in Instants(q.timerange) && r.upper - 1 in Instants(q.timerange);
    if !IsEmpty(q.timerange) {
      var b := ToBounds(q.timerange).value;
      assert forall t :: t in Instants(q.timerange) <==> Inside(b, t);
    }
  }

  /** Exactly the covered rows go, the count is their number, each object loses
      exactly the references that went, and every other row, object field, flow
      and source stays. */
  lemma DeletionIsExact(db: Db, q: DeleteQuery)
    requires Inv(db) && WellFormed(q.timerange) && TryDeleteSegments(db, q).Ok?
    ensures var d := TryDeleteSegments(db, q).value;
            && (forall r :: r in d.db.segments <==> r in db.segments && !Covered(r, q))
            && d.deletedCount == |db.segments| - |d.db.segments|
            && d.db.objects.Keys == db.objects.Keys
            && (forall o :: o in db.objects ==>
                  d.db.objects[o] == db.objects[o].(refCount := db.objects[o].refCount - (Refs(db.segments, o) - Refs(d.db.segments, o))))
            && d.db.sources == db.sources && d.db.flows.Keys == db.flows.Keys
            && (forall f :: f in db.flows && f != q.flowId ==> d.db.flows[f] == db.flows[f])
            && (exists text :: d.db.flows == db.flows[q.flowId := db.flows[q.flowId].(timerange := text)])
            && d.db.nextId == db.nextId && (Instants(q.timerange) == iset{} ==> d.db == db)
  {
    hide FlowSpan, RowOk, Refs, Filter, Covered, Sat;
    EmptyMeansNoInstant(q.timerange);
    assert db.flows[q.flowId].(timerange := db.flows[q.flowId].timerange) == db.flows[q.flowId];
    assert db.flows[q.flowId := db.flows[q.flowId]] == db.flows;
    forall r | r in db.segments { CoveredBySql(r, q); }
    var w := QueryBounds(q.timerange).value;
    if w.Some? {
      var c := CoveredBy(q.flowId, w.value, q.objectId);
      FilterMember(db.segments, c, false);
      FilterCounts(db.segments, c);
      forall o ensures Refs(Filter(db.segments, c, true), o) == Refs(db.segments, o) - Refs(Filter(db.segments, c, false), o) {
        RefsSplit(db.segments, c, o);
      }
    }
  }

  /** Deleting a flow succeeds exactly when it exists, and then removes its rows, takes
      one reference from every object they name however often they name it, and
      changes nothing else. */
  lemma FlowDeletionIsExact(db: Db, id: Uuid)
    ensures TryDeleteFlow(db, id).Ok? <==> id in db.flows
    ensures id in db.flows ==>
              var after := TryDeleteFlow(db, id).value;
              && (forall r :: r in after.segments <==> r in db.segments && r.flowId != id)
              && after.flows == db.flows - {id} && after.sources == db.sources && after.nextId == db.nextId
              && after.objects.Keys == db.objects.Keys
              && (forall o :: o in db.objects ==>
                    after.objects[o] ==
                      db.objects[o].(refCount := db.objects[o].refCount
                                                 - if exists r :: r in db.segments && r.flowId == id && r.objectId == o then 1 else 0))
  {
    hide Filter, Refs;
    FilterMember(db.segments, OfFlow(id), true);
    FilterMember(db.segments, OfFlow(id), false);
    forall o { RefsPositive(Filter(db.segments, OfFlow(id), true), o); }
  }
}
