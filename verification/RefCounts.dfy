/** How far an object's reference count runs ahead of its references. */
module RefCounts {
  import opened Tables
  import opened StoreSpec
  import opened StoreInvariant

  function Surplus(db: Db, o: string): int
    requires o in db.objects
  {
    db.objects[o].refCount - Refs(db.segments, o)
  }

  /** Every count is the number of references. */
  predicate Exact(db: Db) { forall o :: o in db.objects ==> Surplus(db, o) == 0 }

  /** The flow references some object more than once. */
  predicate RepeatsObject(db: Db, id: Uuid) {
    id in db.flows && exists o :: o in db.objects && Refs(Filter(db.segments, OfFlow(id), true), o) > 1
  }

  // ----- Single steps -----

  lemma InsertSurplus(db: Db, b: Batch, o: string)
    requires Inv(db) && TryInsert(db, b).Ok?
    ensures o in db.objects ==> o in TryInsert(db, b).value.objects
    ensures o in TryInsert(db, b).value.objects ==>
              Surplus(TryInsert(db, b).value, o) == if o in db.objects then Surplus(db, o) else 0
  {
    hide RowOk, TryInsert, FlowSpan, SegmentBounds, AddRefs;
    AcceptedBatch(db, b);
    AddRefsCounts(db.objects, b.segments, b.storageId);
    var bounds := SegmentBounds(b.segments).value;
    var added := NewRows(b.flowId, b.segments, bounds, db.nextId);
    RefsAppend(db.segments, added, o);
    NewRowsRefs(b.flowId, b.segments, bounds, db.nextId, o);
    RefsPositive(db.segments, o);
  }

  lemma DeleteSegmentsSurplus(db: Db, q: DeleteQuery, o: string)
    requires TryDeleteSegments(db, q).Ok?
    ensures TryDeleteSegments(db, q).value.db.objects.Keys == db.objects.Keys
    ensures o in db.objects ==> Surplus(TryDeleteSegments(db, q).value.db, o) == Surplus(db, o)
  {
    hide FlowSpan, Refs, Filter;
    var w := QueryBounds(q.timerange).value;
    if w.Some? { RefsSplit(db.segments, CoveredBy(q.flowId, w.value, q.objectId), o); }
  }

  /** Deleting a flow gives up one reference however many rows held it. */
  lemma DeleteFlowSurplus(db: Db, id: Uuid, o: string)
    requires TryDeleteFlow(db, id).Ok? && o in db.objects
    ensures TryDeleteFlow(db, id).value.objects.Keys == db.objects.Keys
    ensures var held := Refs(Filter(db.segments, OfFlow(id), true), o);
            Surplus(TryDeleteFlow(db, id).value, o) == Surplus(db, o) + if held > 0 then held - 1 else 0
  {
    hide Refs, Filter;
    RefsSplit(db.segments, OfFlow(id), o);
  }

  /** The effect of any step on an object's surplus; a surplus also keeps the
      object out of the collector's reach. */
  lemma StepSurplus(db: Db, e: Event, o: string)
    requires Inv(db) && o in db.objects
    ensures o in Apply(db, e).objects ==>
              Surplus(Apply(db, e), o) == Surplus(db, o) + Lost(db, e, o)
    ensures Surplus(db, o) > 0 ==> o in Apply(db, e).objects
    ensures !e.GcReap? ==> o in Apply(db, e).objects
  {
    hide Refs, Filter, TryInsert, TryDeleteSegments, TryDeleteFlow, TryUpsertFlow;
    match e
    case UpsertFlow(id, f) => UpsertEffect(db, id, f);
    case InsertSegments(b) => if TryInsert(db, b).Ok? { InsertSurplus(db, b, o); }
    case DeleteSegments(q) => if TryDeleteSegments(db, q).Ok? { DeleteSegmentsSurplus(db, q, o); }
    case DeleteFlow(id) =>
      DeleteFlowNeedsFlow(db, id);
      if TryDeleteFlow(db, id).Ok? { DeleteFlowSurplus(db, id, o); }
    case GcClaim(p) =>
    case GcReap(p) =>
    case SkipIds(n) =>
  }

  /** References a step forgets to give up. */
  function Lost(db: Db, e: Event, o: string): nat {
    if e.DeleteFlow? && e.id in db.flows && Refs(Filter(db.segments, OfFlow(e.id), true), o) > 0
    then Refs(Filter(db.segments, OfFlow(e.id), true), o) - 1 else 0
  }

  lemma DeleteFlowNeedsFlow(db: Db, id: Uuid)
    ensures TryDeleteFlow(db, id).Ok? <==> id in db.flows
  {
  }

  /** A step from exact counts to exact counts is any step but the deletion of a
      flow that repeats an object. */
  lemma StepExact(db: Db, e: Event)
    requires Inv(db) && Exact(db)
    ensures Exact(Apply(db, e)) <==> !(e.DeleteFlow? && RepeatsObject(db, e.id))
  {
    hide Inv, Apply, Refs, Filter, Surplus;
    forall o | o in Apply(db, e).objects && o !in db.objects ensures Surplus(Apply(db, e), o) == 0 {
      FreshObjectExact(db, e, o);
    }
    forall o | o in db.objects ensures o in Apply(db, e).objects ==> Surplus(Apply(db, e), o) == Lost(db, e, o)
      ensures !e.GcReap? ==> o in Apply(db, e).objects
    {
      StepSurplus(db, e, o);
    }
    if e.DeleteFlow? && RepeatsObject(db, e.id) {
      var o :| o in db.objects && Refs(Filter(db.segments, OfFlow(e.id), true), o) > 1;
      assert Lost(db, e, o) > 0;
    }
  }

  lemma FreshObjectExact(db: Db, e: Event, o: string)
    requires Inv(db) && o in Apply(db, e).objects && o !in db.objects
    ensures Surplus(Apply(db, e), o) == 0
  {
    hide Refs, Filter, TryInsert, Surplus, FlowSpan;
    if e.InsertSegments? { InsertSurplus(db, e.batch, o); }
  }

  // ----- Whole runs -----

  /** The k-th step deletes a flow that repeats an object. */
  predicate LeaksAt(events: seq<Event>, k: nat)
    requires k < |events|
  {
    events[k].DeleteFlow? && RepeatsObject(Run(EMPTY_DB, events[..k]), events[k].id)
  }

  /** Counts are exact after a run exactly when no step of it deleted a flow that
      held an object in more than one segment. */
  lemma {:induction false} ExactExactlyWithoutLeaks(events: seq<Event>)
    requires AllAdmissible(events)
    ensures Exact(Run(EMPTY_DB, events)) <==> forall k :: 0 <= k < |events| ==> !LeaksAt(events, k)
  {
    hide RepeatsObject, Apply, Admissible, Surplus, Inv;
    if events == [] {
    } else {
      var n := |events| - 1;
      var front := events[..n];
      ExactExactlyWithoutLeaks(front);
      forall k | 0 <= k < n ensures LeaksAt(events, k) <==> LeaksAt(front, k) {
        assert events[..k] == front[..k];
      }
      var db := Run(EMPTY_DB, front);
      ReachableInv(front);
      if Exact(db) {
        StepExact(db, events[n]);
        assert LeaksAt(events, n) <==> events[n].DeleteFlow? && RepeatsObject(db, events[n].id);
      } else {
        var o :| o in db.objects && Surplus(db, o) != 0;
        CountsNeverShort(db, o);
        StepSurplus(db, events[n], o);
      }
    }
  }

  lemma CountsNeverShort(db: Db, o: string)
    requires Inv(db) && o in db.objects
    ensures Surplus(db, o) >= 0
  {
  }

  /** An object whose count once runs ahead is never collected: no later run
      brings its count back to its references, so it can never be claimed. */
  lemma {:induction false} LeakIsPermanent(db: Db, o: string, events: seq<Event>)
    requires Inv(db) && AllAdmissible(events) && o in db.objects && Surplus(db, o) > 0
    ensures o in Run(db, events).objects
    ensures Surplus(Run(db, events), o) >= Surplus(db, o) && !Run(db, events).objects[o].reaping
  {
    hide Apply, Admissible;
    if events == [] {
      CountsNeverShort(db, o);
    } else {
      var front := events[..|events| - 1];
      LeakIsPermanent(db, o, front);
      RunKeepsInv(db, front);
      StepSurplus(Run(db, front), events[|events| - 1], o);
      RunKeepsInv(db, events);
    }
  }
}
