/** POST /flows/{id}/segments (internal/httpx/handlers/segments.go): acquire a key,
    register, and settle the key on every path out, a panic included. */
module PostHandler {
  import opened Base
  import opened Tables
  import opened StoreSpec
  import opened StoreInvariant
  import opened Acceptance
  import opened Register
  import I = Idempotency
  import Runs = IdempotencyRuns

  const MAX_BATCH := 1000

  datatype Response =
    | Created                                                  // 201
    | BulkFailure(failed: seq<FailedSegment>)                  // 200
    | Problem(status: int, slug: string, detail: string)

  function Status(r: Response): int {
    match r
    case Created => 201
    case BulkFailure(_) => 200
    case Problem(status, _, _) => status
  }

  /** How the handler leaves: with a response, with an error that the middleware gives
      its status (internal/httpx/middleware/middleware.go:60-82), or by panicking. */
  datatype Exit = Responded(response: Response) | Failed(status: int) | Panicked

  /** JSON encoding of response bodies. Reading back gives what was written, no
      encoding is the empty string, and what is read for a status has that status. */
  datatype Codec = Codec(marshal: Response -> Option<string>, unmarshal: (int, string) -> Option<Response>) {
    ghost predicate Faithful() {
      && (forall r :: marshal(r).Some? ==> marshal(r).value != "" && unmarshal(Status(r), marshal(r).value) == Some(r))
      && (forall s, b :: unmarshal(s, b).Some? ==> Status(unmarshal(s, b).value) == s)
    }
  }

  /** Whether the handler panics: before the commit, between the commit and settling
      the key, or after settling it. */
  datatype Panic = Never | BeforeCommit | AfterCommit | AfterSettling

  /** Panics, and which of the calls on the way out work. A call that does not work
      reports an error and has no effect. */
  datatype Env = Env(panic: Panic, completeWorks: bool, releaseWorks: bool, deferredReleaseWorks: bool) {
    /** The handler comes to settle the key itself. */
    predicate Settles() { panic == Never || panic == AfterSettling }
  }

  // ----- Responses -----

  /** The responses to refused registrations; None is left to the middleware. */
  function ErrorResponse(e: RegisterError): Option<Response> {
    match e
    case InvalidRequest => Some(Problem(400, "schema-validation", "invalid request"))
    case StoreError(FlowNotFound) => Some(Problem(404, "not-found", "flow not found"))
    case StoreError(FlowReadOnly) => Some(Problem(403, "read-only", "flow is read-only"))
    case StoreError(SegmentOverlap) => Some(Problem(422, "segment-overlap", "batch contains overlap"))
    case StoreError(ObjectReaping) => Some(Problem(409, "object-reaping", "object is being reaped"))
    case StoreError(_) => None
  }

  /** The status the middleware gives an error: a catalogued one its own, any other 500. */
  function ErrorStatus(e: RegisterError): int {
    if e == StoreError(InvalidObjectTimerange) then 400 else 500
  }

  function ConflictResponse(detail: string): Response { Problem(409, "idempotency-conflict", detail) }

  function Decoded(c: Codec, status: int, body: Option<string>, fallback: Response): Response {
    if body.Some? && body.value != "" && c.unmarshal(status, body.value).Some?
    then c.unmarshal(status, body.value).value else fallback
  }

  function CachedPostResponse(c: Codec, status: int, body: Option<string>): Response {
    match status
    case 200 => Decoded(c, 200, body, Created)
    case 201 => Created
    case 400 => Decoded(c, 400, body, Problem(400, "schema-validation", ""))
    case 403 => Decoded(c, 403, body, Problem(403, "read-only", ""))
    case 404 => Decoded(c, 404, body, Problem(404, "not-found", ""))
    case 409 => Decoded(c, 409, body, Problem(409, "object-reaping", ""))
    case 422 => Decoded(c, 422, body, Problem(422, "segment-overlap", ""))
    case _ => Created
  }

  // ----- What a finished row may hold -----

  /** The row replays the response: same status, and the same response outright when
      its body could be encoded. */
  predicate Replays(c: Codec, e: I.Entry, r: Response) {
    && !e.inFlight && e.status == Status(r)
    && Status(CachedPostResponse(c, e.status, e.body)) == Status(r)
    && (r.Created? || c.marshal(r).Some? ==> CachedPostResponse(c, e.status, e.body) == r)
  }

  /** The body a key is completed with. */
  function BodyOf(c: Codec, r: Response): Option<string> { if r.Created? then None else c.marshal(r) }

  /** Every response the handler can complete a key with. */
  predicate Completable(r: Response) {
    r.Created? || r.BulkFailure? || r.status in {400, 403, 404, 409, 422}
  }

  /** Which is why a completed key always replays. */
  lemma CompletedReplays(c: Codec, e: I.Entry, r: Response)
    requires c.Faithful() && Completable(r) && !e.inFlight && e.status == Status(r)
    requires e.body == BodyOf(c, r)
    requires r.BulkFailure? ==> c.marshal(r).Some?
    ensures Replays(c, e, r)
  {
    assert c.marshal(r).Some? ==> c.unmarshal(Status(r), c.marshal(r).value) == Some(r);
  }

  /** The statuses that survive a replay are exactly those the handler completes with,
      200 only with a body that decodes; any other comes back as 201. */
  lemma StatusSurvivesExactly(c: Codec, status: int, body: Option<string>)
    requires c.Faithful()
    ensures Status(CachedPostResponse(c, status, body)) == status <==>
              || status in {201, 400, 403, 404, 409, 422}
              || (status == 200 && body.Some? && body.value != "" && c.unmarshal(200, body.value).Some?)
    ensures status !in {200, 400, 403, 404, 409, 422} ==> CachedPostResponse(c, status, body) == Created
    ensures status == 200 && Status(CachedPostResponse(c, status, body)) != 200 ==> CachedPostResponse(c, status, body) == Created
  {
    assert body.Some? && c.unmarshal(status, body.value).Some? ==> Status(c.unmarshal(status, body.value).value) == status;
  }

  // ----- The handler -----

  /** Completes the key with the response, encoded where it has a body. True when
      the row is final. A body that cannot be encoded is left out, except that a
      bulk failure is then not completed at all. */
  method Finalise(idem: I.PostgresStore, c: Codec, key: string, r: Response, works: bool) returns (finalised: bool)
    requires I.CheckKey(key).None? && Completable(r)
    modifies idem
    ensures finalised <==> works && (r.BulkFailure? ==> c.marshal(r).Some?)
    ensures idem.rows == if finalised then I.AfterComplete(old(idem.rows), key, Status(r), BodyOf(c, r))
                         else old(idem.rows)
  {
    var body := BodyOf(c, r);
    if r.BulkFailure? && body.None? { return false; }
    if !works { return false; }
    var res := idem.Complete(key, Status(r), body);
    return res.Ok?;
  }

  /** The exit for what the service returned. Its three outcomes are all there are; an
      unknown one would be completed with 500. */
  function ExitOf(res: Result<RegisterResult, RegisterError>): (x: Exit)
    requires res.Ok? ==> res.value.outcome != Unset
    ensures x.Responded? ==> Completable(x.response)
  {
    if res.Err? then
      var e := ErrorResponse(res.error);
      if e.Some? then Responded(e.value) else Failed(ErrorStatus(res.error))
    else
      match res.value.outcome
      case AllAccepted => Responded(Created)
      case Partial => Responded(BulkFailure(res.value.failed))
      case AllRejected => Responded(BulkFailure(res.value.failed))
  }

  /** What the handler has decided by the time it settles the key. */
  function Decided(db: Db, req: Request, env: Env): Exit {
    if env.Settles() then ExitOf(Registered(db, req).1) else Panicked
  }

  /** The key is settled: gone, or finished with a row that replays the decision. */
  predicate SettledAs(c: Codec, rows: I.Table, key: string, decided: Exit) {
    key !in rows || (decided.Responded? && Replays(c, rows[key], decided.response))
  }

  /** The exit is a problem of this status and type. */
  predicate Says(exit: Exit, status: int, slug: string) {
    exit.Responded? && exit.response.Problem? && exit.response.status == status && exit.response.slug == slug
  }

  /** The answer to a request, from the tables before and after it. The first
      condition that applies decides; `good` and `bad` are the segments that pass and
      those that do not. */
  ghost predicate Answered(req: Request, was: Db, now: Db, exit: Exit) {
    var good, bad := Survivors(req.segments), Failures(req.segments);
    if req.segments == [] then now == was && Says(exit, 400, "schema-validation")
    else if good == [] then now == was && exit == Responded(BulkFailure(bad))
    else if SegmentsShare(good) then now == was && Says(exit, 422, "segment-overlap")
    else if req.flowId !in was.flows then now == was && Says(exit, 404, "not-found")
    else if was.flows[req.flowId].readOnly then now == was && Says(exit, 403, "read-only")
    else if StoredShares(was.segments, req.flowId, good) then now == was && Says(exit, 422, "segment-overlap")
    else if !NoClaimTrouble(was.objects, good, req.storageId) then
      && now == was
      && (|| (FirstClaimTrouble(was.objects, good, req.storageId, ObjectReaping) && Says(exit, 409, "object-reaping"))
          || (FirstClaimTrouble(was.objects, good, req.storageId, StorageNotConfigured) && exit == Failed(500)))
    else if !req.objectRangesOk then now == was && exit == Failed(400)
    else
      && Appends(was, now, req.flowId, good)
      && exit == Responded(if bad == [] then Created else BulkFailure(bad))
  }

  /** Every decision of the handler is the answer to its request. */
  lemma DecisionIsAnswer(db: Db, req: Request)
    requires Inv(db) && AllFromWire(req.segments)
    ensures Answered(req, db, Registered(db, req).0, ExitOf(Registered(db, req).1))
  {
    hide Inv, Registered, Survivors, Failures, AllFromWire, Appends;
    hide NoTrouble, FirstTrouble, SegmentsShare, StoredShares, NoClaimTrouble, FirstClaimTrouble, AllBounded;
    OutcomeExactly(db, req);
    SurvivorsAreSound(req);
    var r := Registered(db, req).1;
    var good := Survivors(req.segments);
    if r.Err? && r.error.StoreError? && FirstClaimTrouble(db.objects, good, req.storageId, r.error.error) {
      ClaimErrors(db.objects, good, req.storageId, r.error.error);
    }
  }

  /** 201 means that this call stored every segment of the request, and nothing else does. */
  lemma CreatedMeansStored(req: Request, was: Db, now: Db, exit: Exit)
    requires Answered(req, was, now, exit)
    ensures exit == Responded(Created) <==> req.segments != [] && Appends(was, now, req.flowId, req.segments)
  {
    hide Survivors, Failures, SegmentsShare, StoredShares, NoClaimTrouble, FirstClaimTrouble, Stores;
    NothingIsLost(req.segments);
    if Failures(req.segments) == [] { NoFailures(req.segments); }
  }

  /** A bulk failure lists exactly the segments that do not pass, in order and with
      their reasons, and the others are stored. */
  lemma BulkFailureIsExact(req: Request, was: Db, now: Db, exit: Exit) returns (places: seq<nat>)
    requires Answered(req, was, now, exit) && exit.Responded? && exit.response.BulkFailure?
    ensures var failed := exit.response.failed;
            && failed != [] && Places(req.segments, true, places) && |places| == |failed|
            && (forall k :: 0 <= k < |places| ==>
                  failed[k].segment == req.segments[places[k]] && Some(failed[k].reason) == Reject(req.segments[places[k]]))
            && (if |failed| == |req.segments| then now == was else Appends(was, now, req.flowId, Survivors(req.segments)))
  {
    hide Survivors, Failures, SegmentsShare, StoredShares, NoClaimTrouble, FirstClaimTrouble, Appends, Reject, Places;
    NothingIsLost(req.segments);
    places := FailuresInOrder(req.segments);
  }

  /** The handler's effect once it holds the key: the registration commits unless the
      handler panics first, the decision is the answer to the request, the exit is the
      decision unless the handler panics, with a working safety net the key never
      stays in flight, and a completion that can be recorded is. */
  ghost predicate Handled(c: Codec, req: Request, env: Env, key: string, was: Db, now: Db, rows: I.Table, exit: Exit) {
    var decided := Decided(was, req, env);
    && now == (if env.panic == BeforeCommit then was else Registered(was, req).0)
    && (env.Settles() ==> Answered(req, was, now, decided))
    && exit == (if env.panic == Never then decided else Panicked)
    && (env.deferredReleaseWorks ==> SettledAs(c, rows, key, decided))
    && (decided.Responded? && Recordable(c, env, decided.response) ==> key in rows && SettledAs(c, rows, key, decided))
  }

  /** Only this key's entry differs, and it keeps its hash and its times. */
  predicate OnlyKey(before: I.Table, after: I.Table, key: string) {
    && after - {key} == before - {key}
    && (key in after ==> key in before && after[key].hash == before[key].hash
                         && after[key].acquiredAt == before[key].acquiredAt && after[key].expiresAt == before[key].expiresAt)
  }

  /** The completion can be recorded: the call works and a bulk failure encodes. */
  predicate Recordable(c: Codec, env: Env, r: Response) {
    env.completeWorks && (r.BulkFailure? ==> c.marshal(r).Some?)
  }

  /** The part of the handler that holds the key: register, respond and settle. */
  method Settle(idem: I.PostgresStore, store: Metastore.PostgresStore, c: Codec, key: string, req: Request, env: Env)
    returns (exit: Exit)
    requires I.CheckKey(key).None? && key in idem.rows
    requires Inv(store.Snapshot()) && AllFromWire(req.segments) && c.Faithful()
    modifies idem, store
    ensures Inv(store.Snapshot()) && OnlyKey(old(idem.rows), idem.rows, key)
    ensures Handled(c, req, env, key, old(store.Snapshot()), store.Snapshot(), idem.rows, exit)
    ensures env.panic == Never ==> Answered(req, old(store.Snapshot()), store.Snapshot(), exit)
  {
    hide Inv, Registered, AllFromWire, Replays, Answered;
    DecisionIsAnswer(store.Snapshot(), req);
    var finalised := false;
    exit := Panicked;
    if env.panic != BeforeCommit {
      var res := RegisterBatch(store, req);
      if env.Settles() {
        exit := ExitOf(res);
        if exit.Responded? {
          finalised := Finalise(idem, c, key, exit.response, env.completeWorks);
          if finalised { CompletedReplays(c, idem.rows[key], exit.response); }
        } else if env.releaseWorks {
          var released := idem.Release(key);
          finalised := released.Ok?;
        }
        if env.panic == AfterSettling { exit := Panicked; }
      }
    }
    // The deferred safety net.
    if !finalised && env.deferredReleaseWorks {
      var _ := idem.Release(key);
    }
  }

  /** The whole handler. Nothing is written unless the key is acquired. */
  method PostFlowSegments(idem: I.PostgresStore, store: Metastore.PostgresStore, c: Codec,
                          key: string, hash: string, now: int, expiresAt: int, req: Request, env: Env)
    returns (exit: Exit)
    requires Inv(store.Snapshot()) && AllFromWire(req.segments) && c.Faithful()
    modifies idem, store
    ensures Inv(store.Snapshot())
    ensures var before := old(idem.rows);
            if key == "" || |req.segments| > 1000 then
              Says(exit, 400, if key == "" then "missing-idempotency-key" else "batch-too-large") && idem.rows == before && store.Snapshot() == old(store.Snapshot())
            else if |key| > 255 then
              exit == Failed(400) && idem.rows == before && store.Snapshot() == old(store.Snapshot())
            else
              match I.Answer(before, key, hash, now)
              case Conflict =>
                && Says(exit, 409, "idempotency-conflict") && exit.response.detail == "idempotency key reused with a different request body"
                && idem.rows == before && store.Snapshot() == old(store.Snapshot())
              case InFlight =>
                && Says(exit, 409, "idempotency-conflict") && exit.response.detail == "idempotency key is already in-flight"
                && idem.rows == before && store.Snapshot() == old(store.Snapshot())
              case Cached(status, body) =>
                && exit == Responded(CachedPostResponse(c, status, body))
                && idem.rows == before && store.Snapshot() == old(store.Snapshot())
              case Acquired =>
                && OnlyKey(I.AfterAcquire(before, key, hash, now, expiresAt), idem.rows, key)
                && Handled(c, req, env, key, old(store.Snapshot()), store.Snapshot(), idem.rows, exit)
                && (env.panic == Never ==> Answered(req, old(store.Snapshot()), store.Snapshot(), exit))
  {
    hide Inv, Registered, AllFromWire, OnlyKey, CachedPostResponse, Handled, Answered;
    if key == "" { return Responded(Problem(400, "missing-idempotency-key", "X-Idempotency-Key header required")); }
    if |req.segments| > MAX_BATCH { return Responded(Problem(400, "batch-too-large", "batch exceeds maximum of 1000 segments")); }
    var acq := idem.Acquire(key, hash, now, expiresAt);
    if acq.Err? { return Failed(400); }
    match acq.value
    case Conflict => return Responded(ConflictResponse("idempotency key reused with a different request body"));
    case InFlight => return Responded(ConflictResponse("idempotency key is already in-flight"));
    case Cached(status, body) => return Responded(CachedPostResponse(c, status, body));
    case Acquired =>
      exit := Settle(idem, store, c, key, req, env);
  }

  /** Over every interleaving of requests: once a response has been completed for a
      key, everyone who sends the same body before the key expires is answered with
      that status, and with the whole response when its body was encoded. */
  lemma ReplayReproduces(c: Codec, before: seq<Runs.Event>, r: nat, first: Response, after: seq<Runs.Event>, most: int)
    requires c.Faithful() && Completable(first) && (first.BulkFailure? ==> c.marshal(first).Some?)
    requires Runs.Assumed(Runs.START, before, most) && r in Runs.Run(Runs.START, before).owners
    requires var s := Runs.Run(Runs.START, before);
             Runs.Run(Runs.Step(s, Runs.Complete(r, Status(first), BodyOf(c, first))), after).now < s.owners[r].expires
    ensures var s := Runs.Run(Runs.START, before);
            var later := Runs.Run(Runs.Step(s, Runs.Complete(r, Status(first), BodyOf(c, first))), after);
            var a := I.Answer(later.table, s.owners[r].key, s.owners[r].hash, later.now);
            && a.Cached? && Status(CachedPostResponse(c, a.status, a.body)) == Status(first)
            && (first.Created? || c.marshal(first).Some? ==> CachedPostResponse(c, a.status, a.body) == first)
  {
    hide Runs.Run, Runs.Step, Runs.Assumed, CachedPostResponse;
    var o := Runs.Run(Runs.START, before).owners[r];
    Runs.ReplayUntilExpiry(before, r, Status(first), BodyOf(c, first), after, o.hash, most);
    CompletedReplays(c, I.Entry(o.hash, false, Status(first), BodyOf(c, first), o.since, o.expires), first);
  }
}
