/** What every run of the store keeps. */
module StoreInvariant {
  import opened Base
  import opened TimeRangeText
  import opened Bounds
  import opened Tables
  import opened StoreSpec

  /** The stored bounds are the bounds of the stored string, and not empty. */
  predicate RowOk(r: Row) {
    && ParseRange(r.raw).Ok?
    && ToBounds(ParseRange(r.raw).value) == Ok(NsBounds(r.lower, r.upper, false, false))
    && r.lower < r.upper
  }

  predicate Apart(a: Row, b: Row) {
    a.flowId == b.flowId ==> a.upper <= b.lower || b.upper <= a.lower
  }

  predicate RowsOk(rows: seq<Row>) {
    && (forall r :: r in rows ==> RowOk(r))
    && (forall a, b :: a in rows && b in rows && a.id != b.id ==> Apart(a, b))
  }

  /** Every reference is counted, and a claimed object has none. */
  predicate CountsOk(objects: map<string, Object>, rows: seq<Row>) {
    && (forall o :: o in objects ==> Refs(rows, o) <= objects[o].refCount)
    && (forall o :: o in objects && objects[o].reaping ==> objects[o].refCount == 0)
  }

  /** Foreign keys, and a flow's format is its source's. */
  predicate LinksOk(db: Db) {
    && (forall r :: r in db.segments ==> r.flowId in db.flows && r.objectId in db.objects)
    && (forall f :: f in db.flows ==> db.flows[f].sourceId in db.sources
                                      && db.sources[db.flows[f].sourceId] == db.flows[f].format)
  }

  predicate Inv(db: Db) {
    Ascending(db.segments, db.nextId) && RowsOk(db.segments) && CountsOk(db.objects, db.segments) && LinksOk(db)
  }

  // ----- Inserting -----

  function Occurs(segs: seq<Segment>, o: string): nat {
    if segs == [] then 0 else Occurs(segs[..|segs| - 1], o) + if segs[|segs| - 1].objectId == o then 1 else 0
  }

  /** The object table after a batch: one more reference for each segment that names
      the object, nothing else touched, and only unclaimed objects named. */
  lemma {:induction false} AddRefsCounts(objects: map<string, Object>, segs: seq<Segment>, storageId: string)
    requires AddRefs(objects, segs, storageId).Ok?
    ensures var after := AddRefs(objects, segs, storageId).value;
            && objects.Keys <= after.Keys
            && (forall o :: o in after ==> (o in objects || Occurs(segs, o) > 0))
            && (forall o :: o in objects ==> after[o] == objects[o].(refCount := objects[o].refCount + Occurs(segs, o)))
            && (forall o :: o in after && o !in objects ==> after[o].refCount == Occurs(segs, o) && !after[o].reaping)
            && (forall o :: Occurs(segs, o) > 0 ==> o in after && !after[o].reaping)
  {
    if segs == [] {
    } else {
      AddRefsCounts(objects, segs[..|segs| - 1], storageId);
    }
  }

  lemma {:induction false} NewRowsRefs(f: Uuid, segs: seq<Segment>, bounds: seq<NsBounds>, nextId: nat, o: string)
    requires |segs| == |bounds|
    ensures Refs(NewRows(f, segs, bounds, nextId), o) == Occurs(segs, o)
  {
    if segs == [] {
    } else {
      var n := |segs| - 1;
      NewRowsRefs(f, segs[..n], bounds[..n], nextId, o);
      assert NewRows(f, segs, bounds, nextId)[..n] == NewRows(f, segs[..n], bounds[..n], nextId);
    }
  }

  lemma {:induction false} BoundsOfEach(segs: seq<Segment>, i: nat)
    requires SegmentBounds(segs).Ok? && i < |segs|
    ensures segs[i].raw != "" && ToBounds(segs[i].timerange) == Ok(SegmentBounds(segs).value[i])
  {
    if i == |segs| - 1 {
    } else {
      BoundsOfEach(segs[..|segs| - 1], i);
    }
  }

  /** The checks an accepted batch has passed, and the tables it leaves. */
  lemma AcceptedBatch(db: Db, b: Batch)
    requires TryInsert(db, b).Ok?
    ensures SegmentBounds(b.segments).Ok? && AddRefs(db.objects, b.segments, b.storageId).Ok?
    ensures b.flowId in db.flows && !db.flows[b.flowId].readOnly
    ensures var bounds := SegmentBounds(b.segments).value;
            && !SelfOverlap(bounds) && PassesStored(db.segments, b.flowId, bounds)
            && (forall i :: 0 <= i < |bounds| ==> Bounded(bounds[i]))
    ensures var rows := db.segments + NewRows(b.flowId, b.segments, SegmentBounds(b.segments).value, db.nextId);
            && FlowSpan(rows, b.flowId).Ok?
            && TryInsert(db, b).value ==
               Db(db.sources, db.flows[b.flowId := db.flows[b.flowId].(timerange := FlowSpan(rows, b.flowId).value)],
                  AddRefs(db.objects, b.segments, b.storageId).value, rows, db.nextId + |b.segments|)
  {
    hide FlowSpan, SegmentBounds, AddRefs, NewRows;
  }

  predicate PassesStored(rows: seq<Row>, f: Uuid, bounds: seq<NsBounds>) {
    forall i :: 0 <= i < |bounds| ==> !HitsStored(rows, f, bounds[i])
  }

  lemma AddedRowOk(seg: Segment, r: Row, b: NsBounds)
    requires Converted(seg) && seg.raw != "" && ToBounds(seg.timerange) == Ok(b) && Bounded(b)
    requires r.raw == seg.raw && r.lower == b.lower && r.upper == b.upper
    ensures RowOk(r)
  {
    hide ParseRange, ToBounds;
    ParsedIsWellFormed(seg.raw);
    ProperBounds(seg.timerange);
  }

  /** The rows an accepted batch adds are sound and apart from each other. */
  lemma AddedRowsOk(f: Uuid, segs: seq<Segment>, nextId: nat)
    requires SegmentBounds(segs).Ok? && !SelfOverlap(SegmentBounds(segs).value)
    requires forall i :: 0 <= i < |segs| ==> Converted(segs[i]) && Bounded(SegmentBounds(segs).value[i])
    ensures RowsOk(NewRows(f, segs, SegmentBounds(segs).value, nextId))
  {
    hide RowOk, Converted, SegmentBounds, ToBounds;
    var bounds := SegmentBounds(segs).value;
    var added := NewRows(f, segs, bounds, nextId);
    forall i | 0 <= i < |added| ensures RowOk(added[i]) {
      BoundsOfEach(segs, i);
      AddedRowOk(segs[i], added[i], bounds[i]);
    }
    forall i, j | 0 <= i < |added| && 0 <= j < |added| && i != j ensures Apart(added[i], added[j]) {
      var lo, hi := if i < j then i else j, if i < j then j else i;
      assert !BoundsOverlap(bounds[lo], bounds[hi]);
    }
  }

  /** Stored and added rows are apart, for the stored ones were probed. */
  lemma AddedRowsApart(rows: seq<Row>, f: Uuid, bounds: seq<NsBounds>, added: seq<Row>)
    requires RowsOk(rows) && RowsOk(added) && |added| == |bounds| && PassesStored(rows, f, bounds)
    requires forall i :: 0 <= i < |bounds| ==> Bounded(bounds[i]) && added[i].flowId == f
    requires forall i :: 0 <= i < |bounds| ==> added[i].lower == bounds[i].lower && added[i].upper == bounds[i].upper
    ensures RowsOk(rows + added)
  {
    hide ParseRange, ToBounds;
    forall a, x | a in rows && x in added ensures Apart(a, x) && Apart(x, a) {
      var k :| 0 <= k < |rows| && rows[k] == a;
      var i :| 0 <= i < |added| && added[i] == x;
      assert !HitsStored(rows, f, bounds[i]);
      assert RowOk(rows[k]) && RowOk(added[i]);
    }
  }

  lemma InsertKeepsInv(db: Db, b: Batch)
    requires Inv(db) && Admissible(InsertSegments(b)) && TryInsert(db, b).Ok?
    ensures Inv(TryInsert(db, b).value)
  {
    hide RowOk, TryInsert, FlowSpan, SegmentBounds, AddRefs, Converted;
    AcceptedBatch(db, b);
    var bounds := SegmentBounds(b.segments).value;
    var added := NewRows(b.flowId, b.segments, bounds, db.nextId);
    AddedRowsOk(b.flowId, b.segments, db.nextId);
    AddedRowsApart(db.segments, b.flowId, bounds, added);
    AddedCountsOk(db, b);
  }

  lemma AddedCountsOk(db: Db, b: Batch)
    requires CountsOk(db.objects, db.segments) && LinksOk(db)
    requires SegmentBounds(b.segments).Ok? && AddRefs(db.objects, b.segments, b.storageId).Ok?
    ensures var objects := AddRefs(db.objects, b.segments, b.storageId).value;
            var added := NewRows(b.flowId, b.segments, SegmentBounds(b.segments).value, db.nextId);
            && CountsOk(objects, db.segments + added)
            && (forall r :: r in db.segments + added ==> r.objectId in objects)
  {
    hide SegmentBounds, AddRefs;
    var objects := AddRefs(db.objects, b.segments, b.storageId).value;
    var bounds := SegmentBounds(b.segments).value;
    var added := NewRows(b.flowId, b.segments, bounds, db.nextId);
    AddRefsCounts(db.objects, b.segments, b.storageId);
    forall o ensures Refs(db.segments + added, o) == Refs(db.segments, o) + Occurs(b.segments, o) {
      RefsAppend(db.segments, added, o);
      NewRowsRefs(b.flowId, b.segments, bounds, db.nextId, o);
    }
    forall o | o !in db.objects ensures Refs(db.segments, o) == 0 {
      RefsPositive(db.segments, o);
    }
    forall r | r in added ensures Occurs(b.segments, r.objectId) > 0 {
      NewRowsRefs(b.flowId, b.segments, bounds, db.nextId, r.objectId);
      RefsPositive(added, r.objectId);
    }
  }

  // ----- Deleting -----

  lemma FilterKeepsRows(db: Db, c: Cond, keep: bool)
    requires Ascending(db.segments, db.nextId) && RowsOk(db.segments)
    ensures Ascending(Filter(db.segments, c, keep), db.nextId) && RowsOk(Filter(db.segments, c, keep))
  {
    hide RowOk;
    FilterAscending(db.segments, c, keep, db.nextId);
    FilterMember(db.segments, c, keep);
  }

  /** What a deletion must do to the counts: give up no more than was removed. */
  predicate Released(before: map<string, Object>, after: map<string, Object>, gone: seq<Row>) {
    && after.Keys == before.Keys
    && (forall o :: o in before ==> after[o].reaping == before[o].reaping)
    && (forall o :: o in before ==> before[o].refCount - Refs(gone, o) <= after[o].refCount <= before[o].refCount)
  }

  lemma ReleasedCountsOk(rows: seq<Row>, before: map<string, Object>, after: map<string, Object>, c: Cond)
    requires CountsOk(before, rows) && Released(before, after, Filter(rows, c, true))
    ensures CountsOk(after, Filter(rows, c, false))
  {
    forall o ensures Refs(rows, o) == Refs(Filter(rows, c, true), o) + Refs(Filter(rows, c, false), o) {
      RefsSplit(rows, c, o);
    }
  }

  lemma DeleteSegmentsKeepsInv(db: Db, q: DeleteQuery)
    requires Inv(db) && TryDeleteSegments(db, q).Ok?
    ensures Inv(TryDeleteSegments(db, q).value.db)
  {
    hide RowsOk, Ascending, CountsOk, FlowSpan, Filter, Sat, Refs;
    var w := QueryBounds(q.timerange).value;
    if w.Some? {
      var c := CoveredBy(q.flowId, w.value, q.objectId);
      FilterKeepsRows(db, c, false);
      FilterMember(db.segments, c, false);
      ReleasedCountsOk(db.segments, db.objects, TryDeleteSegments(db, q).value.db.objects, c);
    }
  }

  lemma DeleteFlowKeepsInv(db: Db, id: Uuid)
    requires Inv(db) && TryDeleteFlow(db, id).Ok?
    ensures Inv(TryDeleteFlow(db, id).value)
  {
    hide RowsOk, Ascending, CountsOk, Filter, Refs;
    var c := OfFlow(id);
    FilterKeepsRows(db, c, false);
    FilterMember(db.segments, c, false);
    ReleasedCountsOk(db.segments, db.objects, TryDeleteFlow(db, id).value.objects, c);
  }

  /** An accepted upsert sets the flow's row and leaves segments and objects alone. */
  lemma UpsertEffect(db: Db, id: Uuid, f: Flow)
    ensures var r := TryUpsertFlow(db, id, f);
            r.Ok? ==> && r.value.0.flows == db.flows[id := f] && r.value.0.segments == db.segments
                      && r.value.0.objects == db.objects && r.value.0.nextId == db.nextId
  {
  }

  lemma UpsertFlowKeepsInv(db: Db, id: Uuid, f: Flow)
    requires Inv(db) && TryUpsertFlow(db, id, f).Ok?
    ensures Inv(TryUpsertFlow(db, id, f).value.0)
  {
    hide RowsOk, Ascending, CountsOk;
  }

  lemma GcClaimKeepsInv(db: Db, o: string)
    requires Inv(db)
    ensures Inv(Apply(db, GcClaim(o)))
  {
    hide RowsOk, Ascending, Refs;
  }

  /** Reaping removes an object that no row references. */
  lemma GcReapKeepsInv(db: Db, o: string)
    requires Inv(db)
    ensures Inv(Apply(db, GcReap(o)))
  {
    hide RowsOk, Ascending, Refs;
    RefsPositive(db.segments, o);
  }

  // ----- Whole runs -----

  lemma StepKeepsInv(db: Db, e: Event)
    requires Inv(db) && Admissible(e)
    ensures Inv(Apply(db, e))
  {
    hide RowsOk, CountsOk, LinksOk, TryInsert, TryDeleteSegments, TryDeleteFlow, TryUpsertFlow, Converted;
    match e
    case UpsertFlow(id, f) => if TryUpsertFlow(db, id, f).Ok? { UpsertFlowKeepsInv(db, id, f); }
    case InsertSegments(b) => if TryInsert(db, b).Ok? { InsertKeepsInv(db, b); }
    case DeleteSegments(q) => if TryDeleteSegments(db, q).Ok? { DeleteSegmentsKeepsInv(db, q); }
    case DeleteFlow(id) => if TryDeleteFlow(db, id).Ok? { DeleteFlowKeepsInv(db, id); }
    case GcClaim(o) => GcClaimKeepsInv(db, o);
    case GcReap(o) => GcReapKeepsInv(db, o);
    case SkipIds(n) => SkipKeepsInv(db, n);
  }

  lemma SkipKeepsInv(db: Db, n: nat)
    requires Inv(db)
    ensures Inv(Apply(db, SkipIds(n)))
  {
    hide RowsOk, CountsOk;
  }

  /** Stored rows stay sound, apart, linked and counted, whatever is run. */
  lemma {:induction false} RunKeepsInv(db: Db, events: seq<Event>)
    requires Inv(db) && AllAdmissible(events)
    ensures Inv(Run(db, events))
  {
    hide Inv, Apply, Admissible;
    if events == [] {
    } else {
      RunKeepsInv(db, events[..|events| - 1]);
      StepKeepsInv(Run(db, events[..|events| - 1]), events[|events| - 1]);
    }
  }

  lemma ReachableInv(events: seq<Event>)
    requires AllAdmissible(events)
    ensures Inv(Run(EMPTY_DB, events))
  {
    RunKeepsInv(EMPTY_DB, events);
  }

  /** An object the collector has claimed has no reference in any flow. */
  lemma ClaimedIsUnreferenced(events: seq<Event>, o: string)
    requires AllAdmissible(events) && o in Run(EMPTY_DB, events).objects
    ensures Run(EMPTY_DB, events).objects[o].reaping ==> forall r :: r in Run(EMPTY_DB, events).segments ==> r.objectId != o
  {
    hide Run;
    ReachableInv(events);
    RefsPositive(Run(EMPTY_DB, events).segments, o);
  }
}
