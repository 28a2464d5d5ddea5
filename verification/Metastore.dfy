/** The store itself: internal/metastore's transactions as they run, loop by
    loop, each proved to be the transaction function of StoreSpec. A transaction
    works on local copies and assigns the tables only when it commits. */
module Metastore {
  import opened Base
  import opened TimeRanges
  import opened Bounds
  import opened Tables
  import opened StoreSpec
  import opened StoreInvariant
  import opened StoreEffects

  // ----- The loops of InsertSegments -----

  method ComputeBounds(segs: seq<Segment>) returns (r: Result<seq<NsBounds>, InsertError>)
    ensures r == SegmentBounds(segs)
  {
    hide ToBounds;
    var out: seq<NsBounds> := [];
    for i := 0 to |segs|
      invariant SegmentBounds(segs[..i]) == Ok(out)
    {
      assert segs[..i + 1][..i] == segs[..i];
      if segs[i].raw == "" { FirstErrorStays(segs, i + 1); return Err(BadInput); }
      var b := ToBounds(segs[i].timerange);
      if b.Err? { FirstErrorStays(segs, i + 1); return Err(BadBounds(b.error)); }
      out := out + [b.value];
    }
    assert segs[..|segs|] == segs;
    return Ok(out);
  }

  lemma {:induction false} FirstErrorStays(segs: seq<Segment>, k: nat)
    requires k <= |segs| && SegmentBounds(segs[..k]).Err?
    ensures SegmentBounds(segs) == SegmentBounds(segs[..k])
  {
    if k == |segs| {
      assert segs[..k] == segs;
    } else {
      assert segs[..|segs| - 1][..k] == segs[..k];
      FirstErrorStays(segs[..|segs| - 1], k);
    }
  }

  /** The check within the batch, over all pairs. */
  method AnyPairOverlaps(bounds: seq<NsBounds>) returns (hit: bool)
    ensures hit <==> SelfOverlap(bounds)
  {
    for i := 0 to |bounds|
      invariant forall a, c :: 0 <= a < i && a < c < |bounds| ==> !BoundsOverlap(bounds[a], bounds[c])
    {
      for j := i + 1 to |bounds|
        invariant forall c :: i < c < j ==> !BoundsOverlap(bounds[i], bounds[c])
      {
        if BoundsOverlap(bounds[i], bounds[j]) { return true; }
      }
    }
    return false;
  }

  /** The check against the stored rows, one probe per candidate. */
  method AnyStoredOverlaps(rows: seq<Row>, f: Uuid, bounds: seq<NsBounds>) returns (hit: bool)
    ensures hit <==> !PassesStored(rows, f, bounds)
  {
    for i := 0 to |bounds|
      invariant forall k :: 0 <= k < i ==> !HitsStored(rows, f, bounds[k])
    {
      if HitsStored(rows, f, bounds[i]) { return true; }
    }
    return false;
  }

  method AddReferences(objects: map<string, Object>, segs: seq<Segment>, storageId: string)
    returns (r: Result<map<string, Object>, InsertError>)
    ensures r == AddRefs(objects, segs, storageId)
  {
    var tx := objects;
    for i := 0 to |segs|
      invariant AddRefs(objects, segs[..i], storageId) == Ok(tx)
    {
      assert segs[..i + 1][..i] == segs[..i];
      var step := AddRef(tx, segs[i], storageId);
      if step.Err? { FirstRefusalStays(objects, segs, storageId, i + 1); return step; }
      tx := step.value;
    }
    assert segs[..|segs|] == segs;
    return Ok(tx);
  }

  lemma {:induction false} FirstRefusalStays(objects: map<string, Object>, segs: seq<Segment>, storageId: string, k: nat)
    requires k <= |segs| && AddRefs(objects, segs[..k], storageId).Err?
    ensures AddRefs(objects, segs, storageId) == AddRefs(objects, segs[..k], storageId)
  {
    if k == |segs| {
      assert segs[..k] == segs;
    } else {
      assert segs[..|segs| - 1][..k] == segs[..k];
      FirstRefusalStays(objects, segs[..|segs| - 1], storageId, k);
    }
  }

  /** The row inserts, each under the NOT NULL columns and the exclusion
      constraint of the table. After the two overlap checks the constraint never
      fires, so the only refusal left is a missing bound. */
  method InsertRows(rows: seq<Row>, f: Uuid, segs: seq<Segment>, bounds: seq<NsBounds>, nextId: nat)
    returns (r: Result<seq<Row>, InsertError>)
    requires |segs| == |bounds| && !SelfOverlap(bounds) && PassesStored(rows, f, bounds)
    ensures r == if exists i :: 0 <= i < |bounds| && !Bounded(bounds[i]) then Err(ConstraintViolation)
                 else Ok(rows + NewRows(f, segs, bounds, nextId))
  {
    var tx := rows;
    for i := 0 to |segs|
      invariant forall k :: 0 <= k < i ==> Bounded(bounds[k])
      invariant tx == rows + NewRows(f, segs[..i], bounds[..i], nextId)
    {
      if !Bounded(bounds[i]) { return Err(ConstraintViolation); }
      ExclusionHolds(rows, f, segs[..i], bounds, nextId);
      if HitsStored(tx, f, bounds[i]) { return Err(SegmentOverlap); }
      tx := tx + [Row(nextId + i, f, segs[i].objectId, segs[i].raw, bounds[i].lower, bounds[i].upper)];
    }
    assert segs[..|segs|] == segs && bounds[..|bounds|] == bounds;
    return Ok(tx);
  }

  lemma ExclusionHolds(rows: seq<Row>, f: Uuid, segs: seq<Segment>, bounds: seq<NsBounds>, nextId: nat)
    requires |segs| < |bounds| && !SelfOverlap(bounds) && PassesStored(rows, f, bounds)
    requires forall k :: 0 <= k <= |segs| ==> Bounded(bounds[k])
    ensures !HitsStored(rows + NewRows(f, segs, bounds[..|segs|], nextId), f, bounds[|segs|])
  {
    var added := NewRows(f, segs, bounds[..|segs|], nextId);
    var b := bounds[|segs|];
    forall i | 0 <= i < |rows + added|
      ensures !((rows + added)[i].flowId == f
                && RangeOverlapOp((rows + added)[i].lower, (rows + added)[i].upper, LowerParam(b), UpperParam(b)))
    {
      if i < |rows| {
        assert !HitsStored(rows, f, b);
      } else {
        assert !BoundsOverlap(bounds[i - |rows|], b);
      }
    }
  }

  // ----- The loop of DeleteSegmentsByTimerange -----

  /** What the groups say about one object, and about all of them. */
  function CountIn(g: seq<(string, nat)>, o: string): nat {
    if g == [] then 0 else CountIn(g[..|g| - 1], o) + if g[|g| - 1].0 == o then g[|g| - 1].1 else 0
  }

  function Total(g: seq<(string, nat)>): nat {
    if g == [] then 0 else Total(g[..|g| - 1]) + g[|g| - 1].1
  }

  predicate HasGroup(g: seq<(string, nat)>, o: string) { exists k :: 0 <= k < |g| && g[k].0 == o }

  /** One more row for an object: its group grows, or a new one is added. */
  function Grown(g: seq<(string, nat)>, o: string): (r: seq<(string, nat)>) {
    if g == [] then [(o, 1)]
    else
      var front, last := g[..|g| - 1], g[|g| - 1];
      if last.0 == o then front + [(o, last.1 + 1)] else Grown(front, o) + [last]
  }

  /** GROUP BY object_id over the deleted rows. */
  function Groups(rows: seq<Row>): seq<(string, nat)> {
    if rows == [] then [] else Grown(Groups(rows[..|rows| - 1]), rows[|rows| - 1].objectId)
  }

  lemma {:induction false} GrownCounts(g: seq<(string, nat)>, o: string, x: string)
    ensures CountIn(Grown(g, o), x) == CountIn(g, x) + if x == o then 1 else 0
    ensures Total(Grown(g, o)) == Total(g) + 1
  {
    if g == [] {
      assert [(o, 1)][..0] == [];
    } else {
      var n := |g| - 1;
      GrownCounts(g[..n], o, x);
      var r := Grown(g, o);
      assert r[..|r| - 1] == if g[n].0 == o then g[..n] else Grown(g[..n], o);
    }
  }

  /** The groups count every deleted row once, under its object. */
  lemma {:induction false} GroupsCount(rows: seq<Row>, o: string)
    ensures CountIn(Groups(rows), o) == Refs(rows, o) && Total(Groups(rows)) == |rows|
  {
    hide Grown, CountIn, Total;
    if rows == [] {
      assert CountIn([], o) == 0 && Total([]) == 0 by { NoGroups(o); }
    } else {
      GroupsCount(rows[..|rows| - 1], o);
      GrownCounts(Groups(rows[..|rows| - 1]), rows[|rows| - 1].objectId, o);
    }
  }

  lemma NoGroups(o: string)
    ensures CountIn([], o) == 0 && Total([]) == 0
  {
  }

  predicate OneEach(g: seq<(string, nat)>) { forall j, k :: 0 <= j < k < |g| ==> g[j].0 != g[k].0 }

  lemma {:induction false} GrownGroups(g: seq<(string, nat)>, o: string)
    requires OneEach(g)
    ensures OneEach(Grown(g, o)) && forall k :: 0 <= k < |Grown(g, o)| ==> Grown(g, o)[k].0 == o || HasGroup(g, Grown(g, o)[k].0)
  {
    if g == [] {
    } else {
      var n := |g| - 1;
      var front, r := Grown(g[..n], o), Grown(g, o);
      GrownGroups(g[..n], o);
      assert forall k :: 0 <= k < n ==> g[..n][k] == g[k];
      if g[n].0 != o {
        forall k | 0 <= k < |front| ensures front[k].0 != g[n].0 {
          if front[k].0 != o {
            assert HasGroup(g[..n], front[k].0);
          }
        }
      }
    }
  }

  /** Every object has one group. */
  lemma {:induction false} GroupsAreSeparate(rows: seq<Row>)
    ensures OneEach(Groups(rows))
  {
    if rows == [] {
    } else {
      GroupsAreSeparate(rows[..|rows| - 1]);
      GrownGroups(Groups(rows[..|rows| - 1]), rows[|rows| - 1].objectId);
    }
  }

  /** One UPDATE per group, and the total of the counts. */
  method ReleaseReferences(objects: map<string, Object>, gone: seq<Row>)
    returns (after: map<string, Object>, totalDeleted: nat)
    ensures after == map o | o in objects :: Dropped(objects[o], Refs(gone, o))
    ensures totalDeleted == |gone|
  {
    hide Refs, Groups;
    var perObject := Groups(gone);
    totalDeleted := 0;
    for i := 0 to |perObject|
      invariant totalDeleted == Total(perObject[..i])
    {
      assert perObject[..i + 1][..i] == perObject[..i];
      totalDeleted := totalDeleted + perObject[i].1;
    }
    after := objects;
    for i := 0 to |perObject|
      invariant after.Keys == objects.Keys
      invariant forall o :: o in objects ==> after[o] == Dropped(objects[o], CountIn(perObject[..i], o))
    {
      assert perObject[..i + 1][..i] == perObject[..i];
      var (id, count) := perObject[i];
      if id in after { after := after[id := Dropped(after[id], count)]; }
    }
    assert perObject[..|perObject|] == perObject;
    forall o { GroupsCount(gone, o); }
    GroupsCount(gone, "");
  }

  class PostgresStore {
    var sources: map<Uuid, string>
    var flows: map<Uuid, Flow>
    var objects: map<string, Object>
    var segments: seq<Row>
    var nextId: nat

    function Snapshot(): Db
      reads this
    {
      Db(sources, flows, objects, segments, nextId)
    }

    constructor ()
      ensures Snapshot() == EMPTY_DB && Inv(Snapshot())
    {
      sources, flows, objects, segments, nextId := map[], map[], map[], [], 0;
    }

    /** Commits the whole batch and accepts every index, or changes nothing and
        gives the reason. Either way the invariant stays. */
    method InsertSegments(b: Batch) returns (r: Result<seq<nat>, InsertError>)
      requires Inv(Snapshot()) && Admissible(Event.InsertSegments(b))
      modifies this
      ensures Snapshot() == Apply(old(Snapshot()), Event.InsertSegments(b)) && Inv(Snapshot())
      ensures var t := TryInsert(old(Snapshot()), b);
              r == if t.Ok? then Ok(AllIndices(|b.segments|)) else Err(t.error)
    {
      hide Inv, SegmentBounds, FlowSpan, AddRefs, NewRows, SelfOverlap, HitsStored, Converted;
      StepKeepsInv(Snapshot(), Event.InsertSegments(b));
      var bounds := ComputeBounds(b.segments);
      if bounds.Err? { return Err(bounds.error); }
      var selfHit := AnyPairOverlaps(bounds.value);
      if selfHit { return Err(SegmentOverlap); }
      if b.flowId !in flows { return Err(FlowNotFound); }
      if flows[b.flowId].readOnly { return Err(FlowReadOnly); }
      var storedHit := AnyStoredOverlaps(segments, b.flowId, bounds.value);
      if storedHit { return Err(SegmentOverlap); }
      var refs := AddReferences(objects, b.segments, b.storageId);
      if refs.Err? { return Err(refs.error); }
      if !b.objectRangesOk { return Err(InvalidObjectTimerange); }
      var rows := InsertRows(segments, b.flowId, b.segments, bounds.value, nextId);
      if rows.Err? { return Err(rows.error); }
      var span := FlowSpan(rows.value, b.flowId);
      if span.Err? { return Err(BadStoredRange); }
      segments, nextId, objects := rows.value, nextId + |b.segments|, refs.value;
      flows := flows[b.flowId := flows[b.flowId].(timerange := span.value)];
      return Ok(AllIndices(|b.segments|));
    }

    method DeleteSegmentsByTimerange(q: DeleteQuery) returns (r: Result<nat, InsertError>)
      requires Inv(Snapshot()) && WellFormed(q.timerange)
      modifies this
      ensures Snapshot() == Apply(old(Snapshot()), DeleteSegments(q)) && Inv(Snapshot())
      ensures var t := TryDeleteSegments(old(Snapshot()), q);
              r == if t.Ok? then Ok(t.value.deletedCount) else Err(t.error)
    {
      hide Inv, FlowSpan, Filter, Refs;
      StepKeepsInv(Snapshot(), DeleteSegments(q));
      if q.flowId !in flows { return Err(FlowNotFound); }
      if flows[q.flowId].readOnly { return Err(FlowReadOnly); }
      var w := QueryBounds(q.timerange);
      if w.Err? { return Err(BadBounds(w.error)); }
      if w.value.None? { return Ok(0); }
      var c := CoveredBy(q.flowId, w.value.value, q.objectId);
      var gone, kept := Filter(segments, c, true), Filter(segments, c, false);
      var after, totalDeleted := ReleaseReferences(objects, gone);
      var span := FlowSpan(kept, q.flowId);
      if span.Err? { return Err(BadStoredRange); }
      segments, objects := kept, after;
      flows := flows[q.flowId := flows[q.flowId].(timerange := span.value)];
      return Ok(totalDeleted);
    }

    method UpsertFlow(id: Uuid, f: Flow) returns (r: Result<bool, FlowError>)
      requires Inv(Snapshot())
      modifies this
      ensures Snapshot() == Apply(old(Snapshot()), Event.UpsertFlow(id, f)) && Inv(Snapshot())
      ensures var t := TryUpsertFlow(old(Snapshot()), id, f);
              r == if t.Ok? then Ok(t.value.1) else Err(t.error)
    {
      hide Inv, Filter;
      StepKeepsInv(Snapshot(), Event.UpsertFlow(id, f));
      if id !in flows {
        if f.sourceId !in sources {
          sources := sources[f.sourceId := f.format];
        } else if sources[f.sourceId] != f.format {
          return Err(FormatMismatch);
        }
        flows := flows[id := f];
        return Ok(true);
      }
      var existing := flows[id];
      if existing.sourceId != f.sourceId { return Err(ImmutableField); }
      if existing.format != f.format { return Err(ImmutableField); }
      if existing.codec != f.codec {
        if |Filter(segments, OfFlow(id), true)| > 0 { return Err(ImmutableField); }
      }
      flows := flows[id := f];
      return Ok(false);
    }

    method DeleteFlow(id: Uuid) returns (r: Result<(), FlowError>)
      requires Inv(Snapshot())
      modifies this
      ensures Snapshot() == Apply(old(Snapshot()), Event.DeleteFlow(id)) && Inv(Snapshot())
      ensures r == if id in old(flows) then Ok(()) else Err(NotFound)
    {
      hide Inv, Filter, Refs;
      StepKeepsInv(Snapshot(), Event.DeleteFlow(id));
      FlowDeletionIsExact(Snapshot(), id);
      var refs := ObjectsOf(segments, id);
      var after := map o | o in objects :: Dropped(objects[o], if o in refs then 1 else 0);
      if id !in flows { return Err(NotFound); }
      objects, segments, flows := after, Filter(segments, OfFlow(id), false), flows - {id};
      return Ok(());
    }
  }
}
