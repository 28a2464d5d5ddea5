/** When the store's transactions commit, with which reason they refuse, and what a
    committed one leaves, in terms of instants and rows alone. */
module Acceptance {
  import opened Base
  import opened TimeRanges
  import opened TimeRangeText
  import opened Bounds
  import opened Tables
  import opened StoreSpec
  import opened StoreInvariant
  import opened Spans

  // ----- The conditions on a batch -----

  /** What is wrong with a segment on its own. */
  ghost function Trouble(seg: Segment): Option<InsertError> {
    if seg.raw == "" then Some(BadInput)
    else if Instants(seg.timerange) == iset{} then Some(BadBounds(EmptyRange))
    else if !Representable(seg.timerange) then Some(BadBounds(OutOfRange))
    else None
  }

  /** What is wrong with the object a segment names. */
  function ClaimTrouble(objects: map<string, Object>, seg: Segment, storageId: string): Option<InsertError> {
    if seg.controlled && storageId == "" then Some(StorageNotConfigured)
    else if seg.objectId in objects && objects[seg.objectId].reaping then Some(ObjectReaping)
    else None
  }

  /** The first segment in trouble has this one. */
  ghost predicate FirstTrouble(segs: seq<Segment>, e: InsertError) {
    exists i :: 0 <= i < |segs| && Trouble(segs[i]) == Some(e) && forall j :: 0 <= j < i ==> Trouble(segs[j]).None?
  }

  ghost predicate FirstClaimTrouble(objects: map<string, Object>, segs: seq<Segment>, storageId: string, e: InsertError) {
    exists i :: 0 <= i < |segs| && ClaimTrouble(objects, segs[i], storageId) == Some(e)
                && forall j :: 0 <= j < i ==> ClaimTrouble(objects, segs[j], storageId).None?
  }

  ghost predicate NoTrouble(segs: seq<Segment>) {
    forall i :: 0 <= i < |segs| ==> Trouble(segs[i]).None?
  }

  predicate NoClaimTrouble(objects: map<string, Object>, segs: seq<Segment>, storageId: string) {
    forall i :: 0 <= i < |segs| ==> ClaimTrouble(objects, segs[i], storageId).None?
  }

  /** Two segments of the batch share an instant. */
  ghost predicate SegmentsShare(segs: seq<Segment>) {
    exists i, j :: 0 <= i < j < |segs| && ShareInstant(segs[i].timerange, segs[j].timerange)
  }

  /** A row holds an instant of the range. */
  ghost predicate RowShares(r: Row, tr: TimeRange) {
    exists t :: Holds(tr, t) && r.lower <= t < r.upper
  }

  /** A stored row of the same flow holds an instant of a segment. */
  ghost predicate StoredShares(rows: seq<Row>, f: Uuid, segs: seq<Segment>) {
    exists r, i :: r in rows && r.flowId == f && 0 <= i < |segs| && RowShares(r, segs[i].timerange)
  }

  predicate AllBounded(segs: seq<Segment>) {
    forall i :: 0 <= i < |segs| ==> segs[i].timerange.start.Some? && segs[i].timerange.end.Some?
  }

  // ----- The verdict -----

  /** The reason to refuse a batch, the first that applies in this order; None accepts it. */
  ghost predicate Verdict(db: Db, b: Batch, e: Option<InsertError>) {
    if !NoTrouble(b.segments) then e.Some? && FirstTrouble(b.segments, e.value)
    else if SegmentsShare(b.segments) then e == Some(SegmentOverlap)
    else if b.flowId !in db.flows then e == Some(FlowNotFound)
    else if db.flows[b.flowId].readOnly then e == Some(FlowReadOnly)
    else if StoredShares(db.segments, b.flowId, b.segments) then e == Some(SegmentOverlap)
    else if !NoClaimTrouble(db.objects, b.segments, b.storageId) then
      e.Some? && FirstClaimTrouble(db.objects, b.segments, b.storageId, e.value)
    else if !b.objectRangesOk then e == Some(InvalidObjectTimerange)
    else if !AllBounded(b.segments) then e == Some(ConstraintViolation)
    else e == None
  }

  function ErrorOf<T, E>(r: Result<T, E>): Option<E> { if r.Ok? then None else Some(r.error) }

  lemma {:induction false} BoundsVerdict(segs: seq<Segment>)
    requires forall i :: 0 <= i < |segs| ==> Converted(segs[i])
    ensures SegmentBounds(segs).Ok? <==> NoTrouble(segs)
    ensures SegmentBounds(segs).Err? ==> FirstTrouble(segs, SegmentBounds(segs).error)
  {
    hide Converted, Trouble, ToBounds;
    if segs == [] {
    } else {
      var n := |segs| - 1;
      BoundsVerdict(segs[..n]);
      TroubleIsError(segs[n]);
      if SegmentBounds(segs[..n]).Err? {
        var i :| 0 <= i < n && Trouble(segs[..n][i]) == Some(SegmentBounds(segs).error)
                 && forall j :: 0 <= j < i ==> Trouble(segs[..n][j]).None?;
        assert Trouble(segs[i]) == Some(SegmentBounds(segs).error);
        assert forall j :: 0 <= j < i ==> segs[..n][j] == segs[j];
      } else {
        assert forall j :: 0 <= j < n ==> segs[..n][j] == segs[j];
      }
    }
  }

  lemma TroubleIsError(seg: Segment)
    requires Converted(seg)
    ensures Trouble(seg) == if seg.raw == "" then Some(BadInput)
                            else if ToBounds(seg.timerange).Ok? then None
                            else Some(BadBounds(ToBounds(seg.timerange).error))
  {
    hide ParseRange, ToBounds, Representable;
    if seg.raw != "" {
      ParsedIsWellFormed(seg.raw);
      BoundsAreTheRange(seg.timerange);
      var b := ToBounds(seg.timerange);
      assert b.Err? ==> b.error.EmptyRange? || b.error.OutOfRange?;
    }
  }

  lemma {:induction false} ClaimVerdict(objects: map<string, Object>, segs: seq<Segment>, storageId: string)
    ensures AddRefs(objects, segs, storageId).Ok? <==> NoClaimTrouble(objects, segs, storageId)
    ensures AddRefs(objects, segs, storageId).Err? ==>
              FirstClaimTrouble(objects, segs, storageId, AddRefs(objects, segs, storageId).error)
  {
    if segs == [] {
    } else {
      var n := |segs| - 1;
      var front := segs[..n];
      ClaimVerdict(objects, front, storageId);
      assert forall j :: 0 <= j < n ==> front[j] == segs[j];
      if AddRefs(objects, front, storageId).Ok? {
        hide AddRef, ClaimTrouble;
        ClaimedByRef(objects, front, segs[n], storageId);
      } else {
        hide AddRef, ClaimTrouble;
        var e := AddRefs(objects, front, storageId).error;
        var i :| 0 <= i < n && ClaimTrouble(objects, front[i], storageId) == Some(e)
                 && forall j :: 0 <= j < i ==> ClaimTrouble(objects, front[j], storageId).None?;
        assert ClaimTrouble(objects, segs[i], storageId) == Some(e);
      }
    }
  }

  lemma ClaimErrors(objects: map<string, Object>, segs: seq<Segment>, storageId: string, e: InsertError)
    requires FirstClaimTrouble(objects, segs, storageId, e)
    ensures e == ObjectReaping || e == StorageNotConfigured
  {
  }

  lemma ClaimedByRef(objects: map<string, Object>, front: seq<Segment>, seg: Segment, storageId: string)
    requires AddRefs(objects, front, storageId).Ok?
    ensures ErrorOf(AddRef(AddRefs(objects, front, storageId).value, seg, storageId)) == ClaimTrouble(objects, seg, storageId)
  {
    hide AddRefs;
    AddRefsCounts(objects, front, storageId);
  }

  lemma SharesByBounds(segs: seq<Segment>)
    requires forall i :: 0 <= i < |segs| ==> Converted(segs[i])
    requires SegmentBounds(segs).Ok?
    ensures SelfOverlap(SegmentBounds(segs).value) <==> SegmentsShare(segs)
  {
    hide ParseRange, ToBounds, SegmentBounds, BoundsOverlap, ShareInstant;
    var bounds := SegmentBounds(segs).value;
    forall i, j | 0 <= i < j < |segs|
      ensures BoundsOverlap(bounds[i], bounds[j]) <==> ShareInstant(segs[i].timerange, segs[j].timerange)
    {
      BoundsOfEach(segs, i);
      BoundsOfEach(segs, j);
      ParsedIsWellFormed(segs[i].raw);
      ParsedIsWellFormed(segs[j].raw);
      OverlapTestsAgree(segs[i].timerange, segs[j].timerange);
    }
  }

  lemma RowSharesByBounds(r: Row, seg: Segment, b: NsBounds)
    requires RowOk(r) && Converted(seg) && seg.raw != "" && ToBounds(seg.timerange) == Ok(b)
    ensures RangeOverlapOp(r.lower, r.upper, LowerParam(b), UpperParam(b)) <==> RowShares(r, seg.timerange)
  {
    hide ParseRange, ToBounds;
    var row := ParseRange(r.raw).value;
    ParsedIsWellFormed(r.raw);
    ParsedIsWellFormed(seg.raw);
    BoundedHasEnds(row);
    OverlapTestsAgree(seg.timerange, row);
    BoundsAreTheRange(row);
    assert forall t :: Holds(row, t) <==> t in Interval(ToBounds(row).value);
    assert forall t :: t in Interval(ToBounds(row).value) <==> r.lower <= t < r.upper;
  }

  lemma StoredSharesByBounds(rows: seq<Row>, f: Uuid, segs: seq<Segment>)
    requires forall r :: r in rows ==> RowOk(r)
    requires forall i :: 0 <= i < |segs| ==> Converted(segs[i])
    requires SegmentBounds(segs).Ok?
    ensures PassesStored(rows, f, SegmentBounds(segs).value) <==> !StoredShares(rows, f, segs)
  {
    hide RowOk, Converted, SegmentBounds, RangeOverlapOp, RowShares;
    var bounds := SegmentBounds(segs).value;
    forall k, i | 0 <= k < |rows| && 0 <= i < |segs|
      ensures RangeOverlapOp(rows[k].lower, rows[k].upper, LowerParam(bounds[i]), UpperParam(bounds[i]))
              <==> RowShares(rows[k], segs[i].timerange)
    {
      BoundsOfEach(segs, i);
      RowSharesByBounds(rows[k], segs[i], bounds[i]);
    }
    if StoredShares(rows, f, segs) {
      var r, i :| r in rows && r.flowId == f && 0 <= i < |segs| && RowShares(r, segs[i].timerange);
      var k :| 0 <= k < |rows| && rows[k] == r;
      assert HitsStored(rows, f, bounds[i]);
    }
    if !PassesStored(rows, f, bounds) {
      var i :| 0 <= i < |bounds| && HitsStored(rows, f, bounds[i]);
      var k :| 0 <= k < |rows| && rows[k].flowId == f
               && RangeOverlapOp(rows[k].lower, rows[k].upper, LowerParam(bounds[i]), UpperParam(bounds[i]));
      assert rows[k] in rows && RowShares(rows[k], segs[i].timerange);
    }
  }

  lemma BoundedByBounds(segs: seq<Segment>)
    requires SegmentBounds(segs).Ok?
    ensures AllBounded(segs) <==> forall i :: 0 <= i < |segs| ==> Bounded(SegmentBounds(segs).value[i])
  {
    hide SegmentBounds, ToNanos;
    forall i | 0 <= i < |segs|
      ensures Bounded(SegmentBounds(segs).value[i]) <==> segs[i].timerange.start.Some? && segs[i].timerange.end.Some?
    {
      BoundsOfEach(segs, i);
    }
  }

  /** After the checks, the span of the new rows can always be read. */
  lemma SpanAlwaysReads(db: Db, b: Batch)
    requires Inv(db) && Admissible(InsertSegments(b)) && SegmentBounds(b.segments).Ok?
    requires var bounds := SegmentBounds(b.segments).value;
             && !SelfOverlap(bounds) && PassesStored(db.segments, b.flowId, bounds)
             && forall i :: 0 <= i < |bounds| ==> Bounded(bounds[i])
    ensures FlowSpan(db.segments + NewRows(b.flowId, b.segments, SegmentBounds(b.segments).value, db.nextId), b.flowId).Ok?
  {
    hide SegmentBounds, FlowSpan, RowOk, Converted, SelfOverlap, HitsStored;
    var bounds := SegmentBounds(b.segments).value;
    var added := NewRows(b.flowId, b.segments, bounds, db.nextId);
    AddedRowsOk(b.flowId, b.segments, db.nextId);
    AddedRowsApart(db.segments, b.flowId, bounds, added);
    FlowSpanIsHull(db.(segments := db.segments + added, nextId := db.nextId + |added|), b.flowId);
  }

  /** The store decides every batch by the verdict. */
  lemma InsertVerdict(db: Db, b: Batch)
    requires Inv(db) && Admissible(InsertSegments(b))
    ensures Verdict(db, b, ErrorOf(TryInsert(db, b)))
  {
    hide SegmentBounds, AddRefs, FlowSpan, NewRows, SelfOverlap, HitsStored, Converted, Bounded;
    hide NoTrouble, FirstTrouble, SegmentsShare, StoredShares, NoClaimTrouble, FirstClaimTrouble, AllBounded, RowOk, CountsOk, LinksOk;
    BoundsVerdict(b.segments);
    if SegmentBounds(b.segments).Ok? {
      SharesByBounds(b.segments);
      StoredSharesByBounds(db.segments, b.flowId, b.segments);
      ClaimVerdict(db.objects, b.segments, b.storageId);
      BoundedByBounds(b.segments);
      var bounds := SegmentBounds(b.segments).value;
      if !SelfOverlap(bounds) && PassesStored(db.segments, b.flowId, bounds) && AllBounded(b.segments) {
        SpanAlwaysReads(db, b);
      }
    }
  }

  /** A batch commits exactly when nothing stands against it. */
  lemma AcceptedExactly(db: Db, b: Batch)
    requires Inv(db) && Admissible(InsertSegments(b))
    ensures TryInsert(db, b).Ok? <==>
              && b.flowId in db.flows && !db.flows[b.flowId].readOnly
              && NoTrouble(b.segments) && AllBounded(b.segments)
              && !SegmentsShare(b.segments) && !StoredShares(db.segments, b.flowId, b.segments)
              && NoClaimTrouble(db.objects, b.segments, b.storageId) && b.objectRangesOk
  {
    hide TryInsert, Inv, Admissible;
    hide NoTrouble, FirstTrouble, SegmentsShare, StoredShares, NoClaimTrouble, FirstClaimTrouble, AllBounded;
    InsertVerdict(db, b);
  }

  // ----- What a committed batch leaves -----

  /** The row stores the segment: the client's string, its object, and its instants. */
  ghost predicate Stores(r: Row, f: Uuid, seg: Segment) {
    && r.flowId == f && r.objectId == seg.objectId && r.raw == seg.raw
    && forall t :: Holds(seg.timerange, t) <==> r.lower <= t < r.upper
  }

  /** One row per segment, in order and with the next ids, after the rows there were. */
  ghost predicate Appends(was: Db, now: Db, f: Uuid, segs: seq<Segment>) {
    && |now.segments| == |was.segments| + |segs| && now.segments[..|was.segments|] == was.segments
    && (forall i :: 0 <= i < |segs| ==>
          now.segments[|was.segments| + i].id == was.nextId + i && Stores(now.segments[|was.segments| + i], f, segs[i]))
    && now.nextId == was.nextId + |segs|
  }

  /** The storage of a new object is that of the first segment that names it. */
  predicate StoredFirst(segs: seq<Segment>, o: string, storageId: string, stored: Option<string>) {
    exists i :: 0 <= i < |segs| && segs[i].objectId == o && (forall j :: 0 <= j < i ==> segs[j].objectId != o)
                && stored == if segs[i].controlled then Some(storageId) else None
  }

  lemma {:induction false} AddRefsStorage(objects: map<string, Object>, segs: seq<Segment>, storageId: string, o: string)
    requires AddRefs(objects, segs, storageId).Ok? && o !in objects && o in AddRefs(objects, segs, storageId).value
    ensures StoredFirst(segs, o, storageId, AddRefs(objects, segs, storageId).value[o].storageId)
  {
    if segs == [] {
      assert false;
    } else {
      var n := |segs| - 1;
      var front := segs[..n];
      var before := AddRefs(objects, front, storageId).value;
      assert forall j :: 0 <= j < n ==> front[j] == segs[j];
      if o in before {
        AddRefsStorage(objects, front, storageId, o);
        assert before[o].storageId == AddRefs(objects, segs, storageId).value[o].storageId;
      } else {
        AddRefsCounts(objects, front, storageId);
        NotNamed(front, o);
      }
    }
  }

  lemma {:induction false} NotNamed(segs: seq<Segment>, o: string)
    ensures Occurs(segs, o) == 0 <==> forall j :: 0 <= j < |segs| ==> segs[j].objectId != o
  {
    if segs == [] {
    } else {
      NotNamed(segs[..|segs| - 1], o);
      assert forall j :: 0 <= j < |segs| - 1 ==> segs[..|segs| - 1][j] == segs[j];
    }
  }

  /** Each reference is counted once, and the objects that were missing are created. */
  ghost predicate Counts(was: map<string, Object>, now: map<string, Object>, segs: seq<Segment>, storageId: string) {
    && (forall o :: o in now ==> (o in was || Occurs(segs, o) > 0))
    && (forall o :: Occurs(segs, o) > 0 ==> o in now)
    && (forall o :: o in was ==> o in now && now[o] == was[o].(refCount := was[o].refCount + Occurs(segs, o)))
    && (forall o :: o in now && o !in was ==>
          now[o].refCount == Occurs(segs, o) && !now[o].reaping && StoredFirst(segs, o, storageId, now[o].storageId))
  }

  lemma AddRefsExact(objects: map<string, Object>, segs: seq<Segment>, storageId: string)
    requires AddRefs(objects, segs, storageId).Ok?
    ensures Counts(objects, AddRefs(objects, segs, storageId).value, segs, storageId)
  {
    hide AddRefs, StoredFirst;
    AddRefsCounts(objects, segs, storageId);
    var now := AddRefs(objects, segs, storageId).value;
    forall o | o in now && o !in objects ensures StoredFirst(segs, o, storageId, now[o].storageId) {
      AddRefsStorage(objects, segs, storageId, o);
    }
  }

  /** A committed batch appends its rows, counts its references, and touches nothing
      else but its flow's span. */
  lemma InsertIsExact(db: Db, b: Batch)
    requires Inv(db) && Admissible(InsertSegments(b)) && TryInsert(db, b).Ok?
    ensures var after := TryInsert(db, b).value;
            && Appends(db, after, b.flowId, b.segments) && Counts(db.objects, after.objects, b.segments, b.storageId)
            && after.sources == db.sources && b.flowId in db.flows
            && exists text :: after.flows == db.flows[b.flowId := db.flows[b.flowId].(timerange := text)]
  {
    hide TryInsert, Inv, FlowSpan, SegmentBounds, AddRefs, Converted, Stores, Counts, SelfOverlap, HitsStored;
    AcceptedBatch(db, b);
    AddRefsExact(db.objects, b.segments, b.storageId);
    var after := TryInsert(db, b).value;
    forall i | 0 <= i < |b.segments| ensures Stores(after.segments[|db.segments| + i], b.flowId, b.segments[i]) {
      RowStores(b.segments, i, after.segments[|db.segments| + i], b.flowId);
    }
  }

  lemma RowStores(segs: seq<Segment>, i: nat, r: Row, f: Uuid)
    requires SegmentBounds(segs).Ok? && i < |segs| && Converted(segs[i]) && Bounded(SegmentBounds(segs).value[i])
    requires r.flowId == f && r.objectId == segs[i].objectId && r.raw == segs[i].raw
    requires r.lower == SegmentBounds(segs).value[i].lower && r.upper == SegmentBounds(segs).value[i].upper
    ensures Stores(r, f, segs[i])
  {
    hide SegmentBounds, ParseRange, ToBounds;
    BoundsOfEach(segs, i);
    ParsedIsWellFormed(segs[i].raw);
    BoundsAreTheRange(segs[i].timerange);
    assert forall t :: Holds(segs[i].timerange, t) <==> t in Interval(SegmentBounds(segs).value[i]);
  }

  // ----- The other transactions -----

  /** A deletion is refused exactly for an unknown or read-only flow or a range that
      cannot be compared, in this order. */
  lemma DeleteVerdict(db: Db, q: DeleteQuery)
    requires Inv(db) && WellFormed(q.timerange)
    ensures ErrorOf(TryDeleteSegments(db, q)) ==
              if q.flowId !in db.flows then Some(FlowNotFound)
              else if db.flows[q.flowId].readOnly then Some(FlowReadOnly)
              else if Instants(q.timerange) != iset{} && !Representable(q.timerange) then Some(BadBounds(OutOfRange))
              else None
  {
    hide FlowSpan, Filter, Refs, ToBounds, RowOk, Representable;
    EmptyMeansNoInstant(q.timerange);
    BoundsAreTheRange(q.timerange);
    var w := QueryBounds(q.timerange);
    if w.Ok? && w.value.Some? {
      var c := CoveredBy(q.flowId, w.value.value, q.objectId);
      FilterKeepsRows(db, c, false);
      FlowSpanIsHull(db.(segments := Filter(db.segments, c, false)), q.flowId);
    } else if w.Err? {
      assert w.error.EmptyRange? || w.error.OutOfRange?;
    }
  }

  /** A flow can be created unless its source has another format, and updated unless
      that changes its source, its format, or the codec of stored segments. */
  lemma UpsertIsExact(db: Db, id: Uuid, f: Flow)
    ensures var r := TryUpsertFlow(db, id, f);
            if id !in db.flows then
              if f.sourceId in db.sources && db.sources[f.sourceId] != f.format then r == Err(FormatMismatch)
              else && r.Ok? && r.value.1 && r.value.0.flows == db.flows[id := f]
                   && r.value.0.sources == db.sources[f.sourceId := f.format]
            else if || db.flows[id].sourceId != f.sourceId || db.flows[id].format != f.format
                    || (db.flows[id].codec != f.codec && exists s :: s in db.segments && s.flowId == id)
            then r == Err(ImmutableField)
            else r.Ok? && !r.value.1 && r.value.0.flows == db.flows[id := f] && r.value.0.sources == db.sources
    ensures var r := TryUpsertFlow(db, id, f);
            r.Ok? ==> r.value.0.segments == db.segments && r.value.0.objects == db.objects && r.value.0.nextId == db.nextId
  {
    hide Filter;
    FilterMember(db.segments, OfFlow(id), true);
    var mine := Filter(db.segments, OfFlow(id), true);
    if mine != [] { assert mine[0] in mine; }
  }
}
