/** Runs in which the reference counts of RefCounts run ahead and the stored time
    range of Spans goes wrong. */
module StoreExamples {
  import opened Base
  import opened TimeRanges
  import opened TimeRangeText
  import opened Bounds
  import opened Tables
  import opened StoreSpec
  import opened StoreInvariant
  import opened Spans

  function Second(i: nat): TimeRange
    requires i < 10
  {
    TimeRange(Some(Timestamp(i, 0)), Inclusive, Some(Timestamp(i + 1, 0)), Exclusive)
  }

  function SecondOf(i: nat): Segment
    requires i < 10
  {
    Segment("object", Second(i), RangeText(Second(i)), true)
  }

  function SecondBounds(i: nat): NsBounds
    requires i < 10
  {
    NsBounds(i * NS_PER_SEC, (i + 1) * NS_PER_SEC, false, false)
  }

  lemma SecondConverts(i: nat)
    requires i < 10
    ensures SecondOf(i).raw != "" && ParseRange(SecondOf(i).raw) == Ok(Second(i))
    ensures ToBounds(Second(i)) == Ok(SecondBounds(i))
  {
    hide RangeText, Denote, Peel;
    RangeRoundTrip(Second(i));
    SecondHasBounds(i);
  }

  lemma SecondHasBounds(i: nat)
    requires i < 10
    ensures ToBounds(Second(i)) == Ok(SecondBounds(i))
  {
  }

  const FLOW := Flow("source", "video", None, false, None)

  function Twice(): Batch {
    Batch("flow", [SecondOf(0)] + [SecondOf(1)], "default", true)
  }

  lemma TwiceBounds()
    ensures SegmentBounds(Twice().segments) == Ok([SecondBounds(0)] + [SecondBounds(1)])
  {
    hide RangeText, ParseRange, ToBounds;
    SecondConverts(0);
    SecondConverts(1);
    var segs := Twice().segments;
    assert segs[..|segs| - 1] == [SecondOf(0)] && segs[|segs| - 1] == SecondOf(1);
    assert [SecondOf(0)][..0] == [];
    assert [] + [SecondBounds(0)] == [SecondBounds(0)];
    assert SegmentBounds([SecondOf(0)]) == Ok([SecondBounds(0)]);
  }

  lemma TwiceRefs()
    ensures var r := AddRefs(map[], Twice().segments, "default");
            r.Ok? && r.value.Keys == {"object"} && r.value["object"].refCount == 2 && !r.value["object"].reaping
  {
    hide RangeText, ParseRange, ToBounds;
    var segs := Twice().segments;
    assert segs[..1] == [SecondOf(0)] && segs[1] == SecondOf(1);
    assert [SecondOf(0)][..0] == [];
    var one := AddRefs(map[], [SecondOf(0)], "default");
    assert one == Ok(map["object" := Object(1, Some("default"), false)]);
  }

  /** The store after the flow exists and holds the batch. */
  lemma Filled() returns (events: seq<Event>, db: Db)
    ensures AllAdmissible(events) && |events| == 2 && Run(EMPTY_DB, events) == db
    ensures "flow" in db.flows && db.flows["flow"].(timerange := None) == FLOW
    ensures db.objects.Keys == {"object"} && db.objects["object"].refCount == 2
    ensures |db.segments| == 2 && forall r :: r in db.segments ==> r.flowId == "flow" && r.objectId == "object"
  {
    hide RangeText, ParseRange, ToBounds, SegmentBounds, AddRefs, TryInsert, FlowSpan;
    events := [UpsertFlow("flow", FLOW), InsertSegments(Twice())];
    SecondConverts(0);
    SecondConverts(1);
    var db0 := EMPTY_DB.(sources := map["source" := "video"], flows := map["flow" := FLOW]);
    TwiceAccepted(db0);
    AcceptedBatch(db0, Twice());
    TwiceRefs();
    db := TryInsert(db0, Twice()).value;
    assert events[..1] == [events[0]] && [events[0]][..0] == [];
    assert Run(EMPTY_DB, [events[0]]) == db0;
  }

  /** A flow that registers one object in two segments and is then deleted leaves
      the object counted once and referenced nowhere. */
  lemma LeakHappens() returns (events: seq<Event>)
    ensures AllAdmissible(events)
    ensures var db := Run(EMPTY_DB, events);
            db.segments == [] && "object" in db.objects && db.objects["object"].refCount == 1
  {
    var db;
    events, db := Filled();
    hide Run, TryDeleteFlow;
    DeleteEmpties(db);
    RunOn(events, DeleteFlow("flow"));
    events := events + [DeleteFlow("flow")];
  }

  /** Putting the flow again as it was created, without a time range, empties the
      column although the flow has segments. */
  lemma OverwriteHappens() returns (events: seq<Event>)
    ensures AllAdmissible(events)
    ensures var db := Run(EMPTY_DB, events); "flow" in db.flows && !StoredSpanOk(db, "flow")
  {
    var db;
    events, db := Filled();
    hide Run, Filter, SpansRows;
    FilterMember(db.segments, OfFlow("flow"), true);
    assert db.segments[0] in Filter(db.segments, OfFlow("flow"), true);
    RunOn(events, UpsertFlow("flow", FLOW));
    events := events + [UpsertFlow("flow", FLOW)];
  }

  lemma RunOn(events: seq<Event>, e: Event)
    ensures Run(EMPTY_DB, events + [e]) == Apply(Run(EMPTY_DB, events), e)
  {
    hide Apply;
    assert (events + [e])[..|events|] == events;
  }

  lemma DeleteEmpties(db: Db)
    requires "flow" in db.flows && "object" in db.objects && db.segments != []
    requires forall r :: r in db.segments ==> r.flowId == "flow" && r.objectId == "object"
    ensures var r := TryDeleteFlow(db, "flow");
            && r.Ok? && r.value.segments == [] && "object" in r.value.objects
            && r.value.objects["object"].refCount == db.objects["object"].refCount - 1
  {
    FilterMember(db.segments, OfFlow("flow"), true);
    FilterNone(db.segments, OfFlow("flow"), false);
    assert db.segments[0] in Filter(db.segments, OfFlow("flow"), true);
    RefsPositive(Filter(db.segments, OfFlow("flow"), true), "object");
  }

  lemma SpanReads(rows: seq<Row>, f: Uuid)
    requires forall r :: r in rows ==> ParseRange(r.raw).Ok?
    ensures FlowSpan(rows, f).Ok?
  {
    hide ParseRange, RangeText, Filter;
    FilterMember(rows, OfFlow(f), true);
  }

  lemma SecondsApart()
    ensures !SelfOverlap([SecondBounds(0)] + [SecondBounds(1)])
  {
  }

  lemma TwiceAccepted(db: Db)
    requires db.segments == [] && db.objects == map[] && "flow" in db.flows && !db.flows["flow"].readOnly
    ensures TryInsert(db, Twice()).Ok?
  {
    hide RangeText, ParseRange, ToBounds, SegmentBounds, AddRefs, FlowSpan, SelfOverlap;
    TwiceBounds();
    TwiceRefs();
    SecondsApart();
    SecondConverts(0);
    SecondConverts(1);
    var rows := NewRows("flow", Twice().segments, SegmentBounds(Twice().segments).value, db.nextId);
    SpanReads([] + rows, "flow");
  }
}
