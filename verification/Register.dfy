/** Registering a batch (internal/service/segment/segment.go): which segments reach
    the store, and what becomes of all of them. */
module Register {
  import opened Base
  import opened TimeRanges
  import opened TimeRangeText
  import opened Bounds
  import opened Tables
  import opened StoreSpec
  import opened StoreInvariant
  import opened StoreEffects
  import opened Acceptance
  import opened Metastore

  datatype Violation = IsEmptyRange | NotBounded | ExclusiveStart | NotInt64

  datatype Reason = NoObjectId | BadRange(violation: Violation)

  datatype FailedSegment = FailedSegment(segment: Segment, reason: Reason)

  /** The zero value is no outcome at all. */
  datatype Outcome = Unset | AllAccepted | Partial | AllRejected

  datatype RegisterResult = RegisterResult(outcome: Outcome, accepted: seq<Segment>, failed: seq<FailedSegment>)

  datatype RegisterError = InvalidRequest | StoreError(error: InsertError)

  // ----- Validation -----

  function SegmentTimerangeViolation(tr: TimeRange): Option<Violation> {
    if IsEmpty(tr) then Some(IsEmptyRange)
    else if tr.start.None? || tr.end.None? then Some(NotBounded)
    else if tr.startType != Inclusive then Some(ExclusiveStart)
    else if ToBounds(tr).Err? then Some(NotInt64)
    else None
  }

  /** A range that passes is a proper bounded interval of int64 nanoseconds, and
      nothing else is refused. */
  lemma PassesExactly(tr: TimeRange)
    requires WellFormed(tr)
    ensures SegmentTimerangeViolation(tr).None? <==>
            Instants(tr) != iset{} && tr.start.Some? && tr.end.Some? && tr.startType == Inclusive && Representable(tr)
    ensures SegmentTimerangeViolation(tr).None? ==>
            ToBounds(tr).Ok? && Bounded(ToBounds(tr).value) && ToBounds(tr).value.lower < ToBounds(tr).value.upper
  {
    hide ToNanos;
    EmptyMeansNoInstant(tr);
    BoundsAreTheRange(tr);
    if ToBounds(tr).Ok? { ProperBounds(tr); }
  }

  function Reject(seg: Segment): Option<Reason> {
    if seg.objectId == "" then Some(NoObjectId)
    else
      var v := SegmentTimerangeViolation(seg.timerange);
      if v.Some? then Some(BadRange(v.value)) else None
  }

  /** The segment can be stored: it names an object, and its range is non-empty,
      bounded, starts inclusively and fits. */
  ghost predicate Passes(seg: Segment) {
    && seg.objectId != "" && Instants(seg.timerange) != iset{}
    && seg.timerange.start.Some? && seg.timerange.end.Some? && seg.timerange.startType == Inclusive
    && Representable(seg.timerange)
  }

  /** The reason for a rejection is the first of these that applies. */
  lemma RejectExactly(seg: Segment)
    requires WellFormed(seg.timerange)
    ensures Reject(seg) ==
              if seg.objectId == "" then Some(NoObjectId)
              else if Instants(seg.timerange) == iset{} then Some(BadRange(IsEmptyRange))
              else if seg.timerange.start.None? || seg.timerange.end.None? then Some(BadRange(NotBounded))
              else if seg.timerange.startType != Inclusive then Some(BadRange(ExclusiveStart))
              else if !Representable(seg.timerange) then Some(BadRange(NotInt64))
              else None
    ensures Reject(seg).None? <==> Passes(seg)
  {
    hide ToBounds, Representable;
    EmptyMeansNoInstant(seg.timerange);
    BoundsAreTheRange(seg.timerange);
    var b := ToBounds(seg.timerange);
    assert b.Err? ==> b.error.EmptyRange? || b.error.OutOfRange?;
  }

  /** The segments that pass, and those that do not with their reasons, in input order. */
  function Survivors(segs: seq<Segment>): seq<Segment> {
    if segs == [] then []
    else Survivors(segs[..|segs| - 1]) + if Reject(segs[|segs| - 1]).None? then [segs[|segs| - 1]] else []
  }

  function Failures(segs: seq<Segment>): seq<FailedSegment> {
    if segs == [] then []
    else
      var last := segs[|segs| - 1];
      Failures(segs[..|segs| - 1]) + if Reject(last).Some? then [FailedSegment(last, Reject(last).value)] else []
  }

  /** Every segment is accounted for exactly once. */
  lemma {:induction false} NothingIsLost(segs: seq<Segment>)
    ensures |Survivors(segs)| + |Failures(segs)| == |segs|
    ensures forall s :: s in segs <==> s in Survivors(segs) || exists k :: 0 <= k < |Failures(segs)| && Failures(segs)[k].segment == s
    ensures forall i :: 0 <= i < |Survivors(segs)| ==> Reject(Survivors(segs)[i]).None?
    ensures forall k :: 0 <= k < |Failures(segs)| ==> Reject(Failures(segs)[k].segment) == Some(Failures(segs)[k].reason)
  {
    hide Reject;
    if segs == [] {
    } else {
      var front, last := segs[..|segs| - 1], segs[|segs| - 1];
      NothingIsLost(front);
      assert segs == front + [last];
      var f, f' := Failures(front), Failures(segs);
      assert forall k :: 0 <= k < |f| ==> f'[k] == f[k];
      if Reject(last).Some? { assert f'[|f|].segment == last; }
    }
  }

  /** The places, in order, of the segments that are rejected or of those that are not. */
  predicate Places(segs: seq<Segment>, rejected: bool, places: seq<nat>) {
    && (forall j, k :: 0 <= j < k < |places| ==> places[j] < places[k])
    && (forall k :: 0 <= k < |places| ==> places[k] < |segs|)
    && (forall i: nat :: i < |segs| ==> (i in places <==> Reject(segs[i]).Some? == rejected))
  }

  lemma PlacesStep(segs: seq<Segment>, rejected: bool, places: seq<nat>)
    requires segs != [] && Places(segs[..|segs| - 1], rejected, places)
    ensures Places(segs, rejected, places + if Reject(segs[|segs| - 1]).Some? == rejected then [|segs| - 1] else [])
  {
    hide Reject;
    var n := |segs| - 1;
    assert forall i :: 0 <= i < n ==> segs[..n][i] == segs[i];
    assert n !in places;
    assert forall i :: i in places + [n] <==> i in places || i == n;
    assert places + [] == places;
  }

  lemma {:induction false} SurvivorsInOrder(segs: seq<Segment>) returns (places: seq<nat>)
    ensures Places(segs, false, places) && |places| == |Survivors(segs)|
    ensures forall k :: 0 <= k < |places| ==> Survivors(segs)[k] == segs[places[k]]
  {
    hide Reject;
    if segs == [] {
      places := [];
    } else {
      var n := |segs| - 1;
      places := SurvivorsInOrder(segs[..n]);
      PlacesStep(segs, false, places);
      hide Places;
      if Reject(segs[n]).None? { places := places + [n]; } else { assert places + [] == places; }
    }
  }

  lemma {:induction false} FailuresInOrder(segs: seq<Segment>) returns (places: seq<nat>)
    ensures Places(segs, true, places) && |places| == |Failures(segs)|
    ensures forall k :: 0 <= k < |places| ==>
              Failures(segs)[k].segment == segs[places[k]] && Some(Failures(segs)[k].reason) == Reject(segs[places[k]])
  {
    hide Reject;
    if segs == [] {
      places := [];
    } else {
      var n := |segs| - 1;
      places := FailuresInOrder(segs[..n]);
      PlacesStep(segs, true, places);
      hide Places;
      if Reject(segs[n]).Some? { places := places + [n]; } else { assert places + [] == places; }
    }
  }

  lemma {:induction false} NoFailures(segs: seq<Segment>)
    requires Failures(segs) == []
    ensures Survivors(segs) == segs
  {
    hide Reject;
    if segs == [] {
    } else {
      NoFailures(segs[..|segs| - 1]);
      assert segs == segs[..|segs| - 1] + [segs[|segs| - 1]];
    }
  }

  // ----- The registration as a function -----

  datatype Request = Request(flowId: Uuid, segments: seq<Segment>, storageId: string, objectRangesOk: bool)

  /** A segment as it comes from the wire: the parse of the client's string. */
  predicate FromWire(seg: Segment) { ParseRange(seg.raw) == Ok(seg.timerange) }

  predicate AllFromWire(segs: seq<Segment>) { forall i :: 0 <= i < |segs| ==> FromWire(segs[i]) }

  function BatchOf(req: Request): Batch {
    Batch(req.flowId, Survivors(req.segments), req.storageId, req.objectRangesOk)
  }

  function Registered(db: Db, req: Request): (r: (Db, Result<RegisterResult, RegisterError>))
    ensures r.1.Ok? ==> r.1.value.outcome != Unset
  {
    if req.segments == [] then (db, Err(InvalidRequest))
    else if Survivors(req.segments) == [] then (db, Ok(RegisterResult(AllRejected, [], Failures(req.segments))))
    else
      var t := TryInsert(db, BatchOf(req));
      if t.Err? then (db, Err(StoreError(t.error)))
      else
        var failed := Failures(req.segments);
        (t.value, Ok(RegisterResult(if failed == [] then AllAccepted else Partial, Survivors(req.segments), failed)))
  }

  lemma SurvivorsAdmissible(req: Request)
    requires AllFromWire(req.segments)
    ensures Admissible(Event.InsertSegments(BatchOf(req)))
    ensures forall i :: 0 <= i < |Survivors(req.segments)| ==> FromWire(Survivors(req.segments)[i])
  {
    hide FromWire, Reject;
    NothingIsLost(req.segments);
    forall i | 0 <= i < |Survivors(req.segments)| ensures FromWire(Survivors(req.segments)[i]) && Converted(Survivors(req.segments)[i]) {
      var s := Survivors(req.segments)[i];
      assert s in req.segments;
      WireConverts(s);
    }
  }

  lemma WireConverts(s: Segment)
    requires FromWire(s)
    ensures Converted(s) && s.raw != "" && WellFormed(s.timerange)
  {
    hide Denote, Peel;
    ParsedIsWellFormed(s.raw);
  }

  // ----- What validation makes unreachable -----

  /** Refusals that only a server defect could cause: malformed bounds, a missing
      bound, an unreadable stored string. */
  predicate Defect(e: InsertError) {
    e.BadInput? || e.BadBounds? || e.ConstraintViolation? || e.BadStoredRange?
  }

  /** The survivors of a request from the wire have nothing wrong with them. */
  lemma SurvivorsAreSound(req: Request)
    requires AllFromWire(req.segments)
    ensures NoTrouble(Survivors(req.segments)) && AllBounded(Survivors(req.segments))
  {
    hide FromWire, Reject, Survivors, Failures, Representable;
    SurvivorsAdmissible(req);
    NothingIsLost(req.segments);
    forall i | 0 <= i < |Survivors(req.segments)| ensures Passes(Survivors(req.segments)[i]) && Survivors(req.segments)[i].raw != "" {
      var s := Survivors(req.segments)[i];
      WireConverts(s);
      RejectExactly(s);
    }
  }

  /** What a registration comes to: an empty request is invalid; without survivors all
      are rejected and nothing happens; otherwise the store's verdict on the survivors
      decides, and the outcome says whether any segment was rejected. */
  lemma OutcomeExactly(db: Db, req: Request)
    requires Inv(db) && AllFromWire(req.segments)
    ensures var now, r := Registered(db, req).0, Registered(db, req).1;
            var good, bad := Survivors(req.segments), Failures(req.segments);
            if req.segments == [] then now == db && r == Err(InvalidRequest)
            else if good == [] then now == db && r == Ok(RegisterResult(AllRejected, [], bad))
            else if r.Ok? then
              && Verdict(db, BatchOf(req), None) && Appends(db, now, req.flowId, good)
              && r.value == RegisterResult(if bad == [] then AllAccepted else Partial, good, bad)
            else
              now == db && r.error.StoreError? && Verdict(db, BatchOf(req), Some(r.error.error))
  {
    hide Inv, TryInsert, Survivors, Failures, Admissible, AllFromWire, Verdict, Appends;
    SurvivorsAdmissible(req);
    InsertVerdict(db, BatchOf(req));
    if TryInsert(db, BatchOf(req)).Ok? { InsertIsExact(db, BatchOf(req)); }
  }

  lemma VerdictOnSound(db: Db, b: Batch, e: InsertError)
    requires Verdict(db, b, Some(e)) && NoTrouble(b.segments) && AllBounded(b.segments)
    ensures !Defect(e)
  {
    hide NoTrouble, FirstTrouble, SegmentsShare, StoredShares, NoClaimTrouble, FirstClaimTrouble, AllBounded;
    if FirstClaimTrouble(db.objects, b.segments, b.storageId, e) { ClaimErrors(db.objects, b.segments, b.storageId, e); }
  }

  /** No input from the wire makes the store report a defect: what reaches it has
      proper bounds, so the table's constraints never fire. */
  lemma DefectsUnreachable(db: Db, req: Request)
    requires Inv(db) && AllFromWire(req.segments)
    ensures var r := Registered(db, req).1; r.Err? && r.error.StoreError? ==> !Defect(r.error.error)
  {
    hide Inv, Registered, Survivors, Failures, AllFromWire, Verdict, NoTrouble, AllBounded, Appends, Defect;
    OutcomeExactly(db, req);
    SurvivorsAreSound(req);
    var r := Registered(db, req).1;
    if r.Err? && r.error.StoreError? && req.segments != [] && Survivors(req.segments) != [] {
      VerdictOnSound(db, BatchOf(req), r.error.error);
    }
  }

  /** A registration that stored something, sent again while the flow's rows are left
      alone, is refused and changes nothing: the effect happens at most once even
      when the idempotency key is gone. */
  lemma RetryHasNoEffect(db: Db, req: Request, events: seq<Event>)
    requires Inv(db) && AllFromWire(req.segments)
    requires Registered(db, req).1.Ok? && Registered(db, req).1.value.accepted != []
    requires forall i :: 0 <= i < |events| ==> Spares(events[i], req.flowId)
    ensures var later := Run(Registered(db, req).0, events);
            && Registered(later, req).0 == later && req.flowId in later.flows
            && Registered(later, req).1 ==
               Err(StoreError(if later.flows[req.flowId].readOnly then FlowReadOnly else SegmentOverlap))
  {
    hide TryInsert, Run, Survivors, Failures, Inv, Admissible;
    SurvivorsAdmissible(req);
    ResubmissionRefused(db, BatchOf(req), events);
  }

  // ----- The registration as it runs -----

  /** The validation loop, which keeps the survivors' input positions. */
  method Validate(segs: seq<Segment>)
    returns (failed: seq<FailedSegment>, survivors: seq<Segment>, survivorIdx: seq<nat>)
    ensures failed == Failures(segs) && survivors == Survivors(segs)
    ensures |survivorIdx| == |survivors|
    ensures forall k :: 0 <= k < |survivors| ==> survivorIdx[k] < |segs| && segs[survivorIdx[k]] == survivors[k]
    ensures forall j, k :: 0 <= j < k < |survivorIdx| ==> survivorIdx[j] < survivorIdx[k]
  {
    hide Reject;
    failed, survivors, survivorIdx := [], [], [];
    for i := 0 to |segs|
      invariant failed == Failures(segs[..i]) && survivors == Survivors(segs[..i])
      invariant |survivorIdx| == |survivors|
      invariant forall k :: 0 <= k < |survivors| ==> survivorIdx[k] < i && segs[survivorIdx[k]] == survivors[k]
      invariant forall j, k :: 0 <= j < k < |survivorIdx| ==> survivorIdx[j] < survivorIdx[k]
    {
      assert segs[..i + 1][..i] == segs[..i];
      var reason := Reject(segs[i]);
      if reason.Some? {
        failed := failed + [FailedSegment(segs[i], reason.value)];
      } else {
        survivors := survivors + [segs[i]];
        survivorIdx := survivorIdx + [i];
      }
    }
    assert segs[..|segs|] == segs;
  }

  /** The survivors the store accepted. A survivor it did not accept would be looked
      up by its input position; the store accepts all or none, so there is none. */
  method Gather(survivors: seq<Segment>, survivorIdx: seq<nat>, indices: seq<nat>) returns (accepted: seq<Segment>)
    requires indices == AllIndices(|survivors|) && |survivorIdx| == |survivors|
    ensures accepted == survivors
  {
    accepted := [];
    var acceptedSet: set<nat> := {};
    for i := 0 to |indices|
      invariant accepted == survivors[..i] && forall k: nat :: k < i ==> k in acceptedSet
    {
      accepted := accepted + [survivors[indices[i]]];
      acceptedSet := acceptedSet + {indices[i]};
    }
    for k := 0 to |survivorIdx| {
      if k in acceptedSet { continue; }
      assert false;
    }
    assert survivors[..|survivors|] == survivors;
  }

  method RegisterBatch(store: PostgresStore, req: Request) returns (r: Result<RegisterResult, RegisterError>)
    requires Inv(store.Snapshot()) && AllFromWire(req.segments)
    modifies store
    ensures (store.Snapshot(), r) == Registered(old(store.Snapshot()), req) && Inv(store.Snapshot())
    ensures r.Ok? ==> |r.value.accepted| + |r.value.failed| == |req.segments|
  {
    hide Inv, TryInsert, Survivors, Failures, AllFromWire;
    if req.segments == [] { return Err(InvalidRequest); }
    NothingIsLost(req.segments);
    SurvivorsAdmissible(req);
    var failed, survivors, survivorIdx := Validate(req.segments);
    if survivors == [] { return Ok(RegisterResult(AllRejected, [], failed)); }
    var res := store.InsertSegments(BatchOf(req));
    if res.Err? { return Err(StoreError(res.error)); }
    var accepted := Gather(survivors, survivorIdx, res.value);
    var outcome := Unset;
    if |failed| == 0 && |accepted| > 0 {
      outcome := AllAccepted;
    } else if |accepted| == 0 && |failed| > 0 {
      outcome := AllRejected;
    } else {
      outcome := Partial;
    }
    return Ok(RegisterResult(outcome, accepted, failed));
  }
}
