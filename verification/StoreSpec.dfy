/** The transactions of internal/metastore as functions on the tables. A failed
    transaction rolls back, so it returns the tables it was given. */
module StoreSpec {
  import opened Base
  import opened TimeRanges
  import opened TimeRangeText
  import opened Bounds
  import opened Tables

  // ----- Spans -----

  function Lowest(rows: seq<Row>): (r: Row)
    requires rows != []
    ensures r in rows && forall x :: x in rows ==> r.lower <= x.lower
  {
    var last := rows[|rows| - 1];
    if |rows| == 1 then last
    else
      var best := Lowest(rows[..|rows| - 1]);
      assert rows == rows[..|rows| - 1] + [last];
      if last.lower < best.lower then last else best
  }

  function Highest(rows: seq<Row>): (r: Row)
    requires rows != []
    ensures r in rows && forall x :: x in rows ==> x.lower <= r.lower
  {
    var last := rows[|rows| - 1];
    if |rows| == 1 then last
    else
      var best := Highest(rows[..|rows| - 1]);
      assert rows == rows[..|rows| - 1] + [last];
      if last.lower > best.lower then last else best
  }

  /** From the start of one range to the end of another. */
  function JoinSpan(first: TimeRange, last: TimeRange): TimeRange {
    Joined(Start(first), End(last))
  }

  /** The canonical text from the first row's start to the last row's end, both
      taken by lower bound; None when the flow has no rows. */
  function FlowSpan(rows: seq<Row>, f: Uuid): Result<Option<string>, ParseError> {
    var mine := Filter(rows, OfFlow(f), true);
    if mine == [] then Ok(None)
    else
      var first, last := ParseRange(Lowest(mine).raw), ParseRange(Highest(mine).raw);
      if first.Err? then Err(first.error) else if last.Err? then Err(last.error)
      else Ok(Some(RangeText(JoinSpan(first.value, last.value))))
  }

  // ----- InsertSegments -----

  /** A candidate row. `controlled` says that the client supplied no URLs. */
  datatype Segment = Segment(objectId: string, timerange: TimeRange, raw: string, controlled: bool)

  /** `objectRangesOk` is the outcome of comparing object time ranges with the
      stored ones (internal/metastore/segments.go:264-299). */
  datatype Batch = Batch(flowId: Uuid, segments: seq<Segment>, storageId: string, objectRangesOk: bool)

  datatype InsertError =
    | BadInput | BadBounds(error: BoundsError) | SegmentOverlap | FlowNotFound | FlowReadOnly
    | StorageNotConfigured | ObjectReaping | InvalidObjectTimerange | ConstraintViolation | BadStoredRange

  function SegmentBounds(segs: seq<Segment>): (r: Result<seq<NsBounds>, InsertError>)
    ensures r.Ok? ==> |r.value| == |segs|
  {
    if segs == [] then Ok([])
    else
      var front, last := SegmentBounds(segs[..|segs| - 1]), segs[|segs| - 1];
      if front.Err? then front
      else if last.raw == "" then Err(BadInput)
      else
        var b := ToBounds(last.timerange);
        if b.Err? then Err(BadBounds(b.error)) else Ok(front.value + [b.value])
  }

  predicate SelfOverlap(bounds: seq<NsBounds>) {
    exists i, j :: 0 <= i < j < |bounds| && BoundsOverlap(bounds[i], bounds[j])
  }

  /** A stored row of the flow overlaps the bounds. */
  predicate HitsStored(rows: seq<Row>, f: Uuid, b: NsBounds) {
    exists i :: 0 <= i < |rows| && rows[i].flowId == f
                && RangeOverlapOp(rows[i].lower, rows[i].upper, LowerParam(b), UpperParam(b))
  }

  /** One reference added, unless the garbage collector has claimed the object. */
  function AddRef(objects: map<string, Object>, seg: Segment, storageId: string): Result<map<string, Object>, InsertError> {
    var o := seg.objectId;
    if seg.controlled && storageId == "" then Err(StorageNotConfigured)
    else if o !in objects then
      Ok(objects[o := Object(1, if seg.controlled then Some(storageId) else None, false)])
    else if objects[o].reaping then Err(ObjectReaping)
    else Ok(objects[o := objects[o].(refCount := objects[o].refCount + 1)])
  }

  function AddRefs(objects: map<string, Object>, segs: seq<Segment>, storageId: string): Result<map<string, Object>, InsertError> {
    if segs == [] then Ok(objects)
    else
      var front := AddRefs(objects, segs[..|segs| - 1], storageId);
      if front.Err? then front else AddRef(front.value, segs[|segs| - 1], storageId)
  }

  predicate Bounded(b: NsBounds) { !b.lowerUnbounded && !b.upperUnbounded }

  function NewRows(f: Uuid, segs: seq<Segment>, bounds: seq<NsBounds>, nextId: nat): seq<Row>
    requires |segs| == |bounds|
  {
    seq(|segs|, i requires 0 <= i < |segs| =>
      Row(nextId + i, f, segs[i].objectId, segs[i].raw, bounds[i].lower, bounds[i].upper))
  }

  function AllIndices(n: nat): seq<nat> { seq(n, i => i) }

  /** The tables after a committed write to a flow's rows: its span is refreshed. */
  function Refreshed(db: Db, f: Uuid): Result<Db, ParseError>
    requires f in db.flows
  {
    var span := FlowSpan(db.segments, f);
    if span.Err? then Err(span.error)
    else Ok(db.(flows := db.flows[f := db.flows[f].(timerange := span.value)]))
  }

  /** The tables after a batch, or the first reason to refuse it in the order of the checks. */
  function TryInsert(db: Db, b: Batch): Result<Db, InsertError> {
    var bounds := SegmentBounds(b.segments);
    if bounds.Err? then Err(bounds.error)
    else if SelfOverlap(bounds.value) then Err(SegmentOverlap)
    else if b.flowId !in db.flows then Err(FlowNotFound)
    else if db.flows[b.flowId].readOnly then Err(FlowReadOnly)
    else if exists i :: 0 <= i < |bounds.value| && HitsStored(db.segments, b.flowId, bounds.value[i]) then Err(SegmentOverlap)
    else
      var objects := AddRefs(db.objects, b.segments, b.storageId);
      if objects.Err? then Err(objects.error)
      else if !b.objectRangesOk then Err(InvalidObjectTimerange)
      else if exists i :: 0 <= i < |bounds.value| && !Bounded(bounds.value[i]) then Err(ConstraintViolation)
      else
        var rows := db.segments + NewRows(b.flowId, b.segments, bounds.value, db.nextId);
        var r := Refreshed(db.(objects := objects.value, segments := rows, nextId := db.nextId + |b.segments|), b.flowId);
        if r.Err? then Err(BadStoredRange) else Ok(r.value)
  }

  // ----- DeleteSegmentsByTimerange -----

  datatype DeleteQuery = DeleteQuery(flowId: Uuid, timerange: TimeRange, objectId: Option<string>)

  /** SQL parameters of a query range; None when it matches nothing. */
  function QueryBounds(tr: TimeRange): Result<Option<Window>, BoundsError> {
    if IsEmpty(tr) then Ok(None)
    else
      var b := ToBounds(tr);
      if b.Err? then Err(b.error) else Ok(Some(Window(LowerParam(b.value), UpperParam(b.value))))
  }

  datatype Deletion = Deletion(db: Db, deletedCount: nat)

  function TryDeleteSegments(db: Db, q: DeleteQuery): Result<Deletion, InsertError> {
    if q.flowId !in db.flows then Err(FlowNotFound)
    else if db.flows[q.flowId].readOnly then Err(FlowReadOnly)
    else
      var w := QueryBounds(q.timerange);
      if w.Err? then Err(BadBounds(w.error))
      else if w.value.None? then Ok(Deletion(db, 0))
      else
        var c := CoveredBy(q.flowId, w.value.value, q.objectId);
        var gone := Filter(db.segments, c, true);
        var objects := map o | o in db.objects :: Dropped(db.objects[o], Refs(gone, o));
        var r := Refreshed(db.(objects := objects, segments := Filter(db.segments, c, false)), q.flowId);
        if r.Err? then Err(BadStoredRange) else Ok(Deletion(r.value, |gone|))
  }

  // ----- UpsertFlow and DeleteFlow -----

  datatype FlowError = FormatMismatch | ImmutableField | NotFound

  /** The tables after creating or updating a flow, and whether it was created.
      The update path overwrites the stored time range. */
  function TryUpsertFlow(db: Db, id: Uuid, f: Flow): Result<(Db, bool), FlowError> {
    if id !in db.flows then
      if f.sourceId in db.sources && db.sources[f.sourceId] != f.format then Err(FormatMismatch)
      else Ok((db.(sources := db.sources[f.sourceId := f.format], flows := db.flows[id := f]), true))
    else
      var was := db.flows[id];
      if was.sourceId != f.sourceId || was.format != f.format then Err(ImmutableField)
      else if was.codec != f.codec && Filter(db.segments, OfFlow(id), true) != [] then Err(ImmutableField)
      else Ok((db.(flows := db.flows[id := f]), false))
  }

  /** One reference fewer on every distinct object of the flow; its rows cascade. */
  function TryDeleteFlow(db: Db, id: Uuid): Result<Db, FlowError> {
    if id !in db.flows then Err(NotFound)
    else
      var gone := Filter(db.segments, OfFlow(id), true);
      var objects := map o | o in db.objects ::
        if Refs(gone, o) > 0 then Dropped(db.objects[o], 1) else db.objects[o];
      Ok(db.(flows := db.flows - {id}, objects := objects, segments := Filter(db.segments, OfFlow(id), false)))
  }

  // ----- Runs -----

  /** The transactions, the garbage collector's two steps, and the serial ids a
      rolled-back insert uses up. */
  datatype Event =
    | UpsertFlow(id: Uuid, flow: Flow)
    | InsertSegments(batch: Batch)
    | DeleteSegments(query: DeleteQuery)
    | DeleteFlow(id: Uuid)
    | GcClaim(objectId: string)
    | GcReap(objectId: string)
    | SkipIds(count: nat)

  function Apply(db: Db, e: Event): Db {
    match e
    case UpsertFlow(id, f) => var r := TryUpsertFlow(db, id, f); if r.Ok? then r.value.0 else db
    case InsertSegments(b) => var r := TryInsert(db, b); if r.Ok? then r.value else db
    case DeleteSegments(q) => var r := TryDeleteSegments(db, q); if r.Ok? then r.value.db else db
    case DeleteFlow(id) => var r := TryDeleteFlow(db, id); if r.Ok? then r.value else db
    case GcClaim(o) =>
      if o in db.objects && db.objects[o].refCount == 0 && !db.objects[o].reaping
      then db.(objects := db.objects[o := db.objects[o].(reaping := true)]) else db
    case GcReap(o) =>
      if o in db.objects && db.objects[o].reaping then db.(objects := db.objects - {o}) else db
    case SkipIds(n) => db.(nextId := db.nextId + n)
  }

  function Run(db: Db, events: seq<Event>): Db {
    if events == [] then db else Apply(Run(db, events[..|events| - 1]), events[|events| - 1])
  }

  const EMPTY_DB := Db(map[], map[], map[], [], 0)

  /** A candidate carries the parse of the client's string, as the conversion layer fills it in. */
  predicate Converted(seg: Segment) {
    seg.raw != "" ==> ParseRange(seg.raw) == Ok(seg.timerange)
  }

  predicate Admissible(e: Event) {
    match e
    case InsertSegments(b) => forall i :: 0 <= i < |b.segments| ==> Converted(b.segments[i])
    case DeleteSegments(q) => WellFormed(q.timerange)
    case _ => true
  }

  predicate AllAdmissible(events: seq<Event>) {
    forall i :: 0 <= i < |events| ==> Admissible(events[i])
  }
}
