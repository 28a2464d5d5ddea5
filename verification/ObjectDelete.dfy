/** Deleting objects from the backend in chunks (internal/objectstore/objectstore.go,
    DeleteObjects): dispatch each id once, and never report a success that did not
    happen. */
module ObjectDelete {
  import opened Base

  const BATCH_SIZE: nat := 1000

  /** A backend call ends with a list of per-key errors, or with an error for the whole call. */
  datatype Reply = Done(errors: seq<KeyError>) | AuthFailed | Cancelled | CallFailed

  datatype KeyError = KeyError(key: string, code: string)

  datatype Failure = Transient | Auth | Other(code: string)

  datatype DeleteResult = DeleteResult(id: string, error: Option<Failure>)

  datatype SliceError = NotStarted | AuthError

  function ClassifyCode(code: string): Failure {
    if code in {"InternalError", "ServiceUnavailable", "SlowDown", "RequestTimeout"} then Transient
    else if code in {"AccessDenied", "InvalidAccessKeyId", "SignatureDoesNotMatch"} then Auth
    else Other(code)
  }

  /** Server-side trouble is transient, refused credentials are an authentication
      failure, and any other code is passed on. */
  lemma CodesExactly(code: string)
    ensures ClassifyCode(code) == Transient <==>
              code == "InternalError" || code == "ServiceUnavailable" || code == "SlowDown" || code == "RequestTimeout"
    ensures ClassifyCode(code) == Auth <==>
              code == "AccessDenied" || code == "InvalidAccessKeyId" || code == "SignatureDoesNotMatch"
    ensures ClassifyCode(code).Other? ==> ClassifyCode(code).code == code
  {
  }

  // ----- Deduplication -----

  /** The ids without repeats, each where it first appears. */
  function Distinct(ids: seq<string>): seq<string> {
    if ids == [] then []
    else
      var front := Distinct(ids[..|ids| - 1]);
      if ids[|ids| - 1] in front then front else front + [ids[|ids| - 1]]
  }

  predicate NoRepeats(ids: seq<string>) {
    forall i, j :: 0 <= i < j < |ids| ==> ids[i] != ids[j]
  }

  lemma {:induction false} DistinctIsSet(ids: seq<string>)
    ensures NoRepeats(Distinct(ids)) && forall id :: id in Distinct(ids) <==> id in ids
  {
    if ids == [] {
    } else {
      DistinctIsSet(ids[..|ids| - 1]);
      assert ids == ids[..|ids| - 1] + [ids[|ids| - 1]];
    }
  }

  /** The id is already there before the other first appears. */
  predicate SeenBefore(ids: seq<string>, x: string, y: string) {
    exists p :: 0 <= p < |ids| && ids[p] == x && y !in ids[..p + 1]
  }

  /** The distinct ids come in the order of their first appearance. */
  lemma {:induction false} DistinctInOrder(ids: seq<string>, i: nat, j: nat)
    requires i < j < |Distinct(ids)|
    ensures SeenBefore(ids, Distinct(ids)[i], Distinct(ids)[j])
  {
    var n := |ids| - 1;
    var front, d := ids[..n], Distinct(ids[..n]);
    DistinctIsSet(front);
    if j < |d| {
      DistinctInOrder(front, i, j);
      var p :| 0 <= p < |front| && front[p] == d[i] && d[j] !in front[..p + 1];
      assert ids[p] == d[i] && ids[..p + 1] == front[..p + 1];
    } else {
      assert d[i] in front;
      var p :| 0 <= p < n && front[p] == d[i];
      assert ids[p] == d[i];
      assert forall k :: 0 <= k <= p ==> ids[k] == front[k] && front[k] in front;
      assert ids[n] !in ids[..p + 1];
    }
  }

  method Dedup(ids: seq<string>) returns (uniqueOrder: seq<string>)
    ensures uniqueOrder == Distinct(ids)
  {
    uniqueOrder := [];
    var seen: set<string> := {};
    for i := 0 to |ids|
      invariant uniqueOrder == Distinct(ids[..i]) && forall id :: id in seen <==> id in uniqueOrder
    {
      assert ids[..i + 1][..i] == ids[..i];
      if ids[i] in seen { continue; }
      seen := seen + {ids[i]};
      uniqueOrder := uniqueOrder + [ids[i]];
    }
    assert ids[..|ids|] == ids;
  }

  // ----- The outcome of a run of calls -----

  predicate Names(errors: seq<KeyError>, id: string) {
    exists k :: 0 <= k < |errors| && errors[k].key == id
  }

  /** One backend call: the chunk sent and what came back. */
  datatype Call = Call(chunk: seq<string>, reply: Reply)

  /** The id was sent, the call that carried it went through without an error for it,
      and no later call reported one either. */
  predicate Deleted(calls: seq<Call>, id: string) {
    exists j :: 0 <= j < |calls| && id in calls[j].chunk && Clean(calls, j, id)
  }

  predicate Clean(calls: seq<Call>, j: nat, id: string)
    requires j < |calls|
  {
    && calls[j].reply.Done?
    && forall k :: j <= k < |calls| && calls[k].reply.Done? ==> !Names(calls[k].reply.errors, id)
  }

  function Sent(calls: seq<Call>): seq<string> {
    if calls == [] then [] else Sent(calls[..|calls| - 1]) + calls[|calls| - 1].chunk
  }

  /** The calls of one run: whole chunks of the distinct ids in order, all but the last
      of full size, and nothing after an authentication failure or a cancellation. */
  predicate Dispatched(calls: seq<Call>, order: seq<string>) {
    && Sent(calls) <= order
    && (forall j :: 0 <= j < |calls| ==> 0 < |calls[j].chunk| <= 1000)
    && (forall j :: 0 <= j < |calls| - 1 ==> |calls[j].chunk| == 1000 && !calls[j].reply.AuthFailed? && !calls[j].reply.Cancelled?)
  }

  // ----- The loop -----

  type Outcomes = map<string, Option<Failure>>

  function AllSame(m: Outcomes, ids: seq<string>, v: Option<Failure>): Outcomes {
    map id | id in m.Keys + (set i | 0 <= i < |ids| :: ids[i]) :: if id in ids then v else m[id]
  }

  function WithErrors(m: Outcomes, errors: seq<KeyError>): Outcomes {
    if errors == [] then m
    else
      var last := errors[|errors| - 1];
      WithErrors(m, errors[..|errors| - 1])[last.key := Some(ClassifyCode(last.code))]
  }

  /** The code of the last error for an id. */
  function LastCode(errors: seq<KeyError>, id: string): string
    requires Names(errors, id)
  {
    var last := errors[|errors| - 1];
    if last.key == id then last.code
    else
      assert forall k :: 0 <= k < |errors| - 1 ==> errors[..|errors| - 1][k] == errors[k];
      LastCode(errors[..|errors| - 1], id)
  }

  /** The last word of the backend on an id that was sent: the error a call named it
      with, or how the call that carried it ended. */
  function LastWord(calls: seq<Call>, id: string): Option<Failure> {
    if calls == [] then Some(Transient)
    else
      var call := calls[|calls| - 1];
      if call.reply.Done? && Names(call.reply.errors, id) then Some(ClassifyCode(LastCode(call.reply.errors, id)))
      else if id in call.chunk then (if call.reply.Done? then None else Some(Transient))
      else LastWord(calls[..|calls| - 1], id)
  }

  lemma LastWordStep(before: seq<Call>, call: Call, id: string)
    ensures LastWord(before + [call], id) ==
            if call.reply.Done? && Names(call.reply.errors, id) then Some(ClassifyCode(LastCode(call.reply.errors, id)))
            else if id in call.chunk then (if call.reply.Done? then None else Some(Transient))
            else LastWord(before, id)
    ensures Sent(before + [call]) == Sent(before) + call.chunk
  {
    assert (before + [call])[..|before|] == before;
  }

  lemma {:induction false} WithErrorsAt(m: Outcomes, errors: seq<KeyError>, id: string)
    ensures (id in m || Names(errors, id)) <==> id in WithErrors(m, errors)
    ensures Names(errors, id) ==> WithErrors(m, errors)[id] == Some(ClassifyCode(LastCode(errors, id)))
    ensures !Names(errors, id) && id in m ==> WithErrors(m, errors)[id] == m[id]
  {
    if errors == [] {
    } else {
      var front, last := errors[..|errors| - 1], errors[|errors| - 1];
      WithErrorsAt(m, front, id);
      assert last.key == id ==> Names(errors, id);
      assert forall k :: 0 <= k < |front| ==> front[k] == errors[k];
      hide ClassifyCode;
    }
  }

  /** What the map says of an id after some calls: no error exactly when it was
      deleted, the backend's last word if it was sent, and a transient failure if it
      never was. */
  predicate Faithful(m: Outcomes, calls: seq<Call>, id: string) {
    && id in m && (m[id].None? <==> Deleted(calls, id))
    && m[id] == if id in Sent(calls) then LastWord(calls, id) else Some(Transient)
  }

  /** How one more call changes what is deleted. */
  lemma DeletedStep(before: seq<Call>, call: Call, id: string)
    ensures Deleted(before + [call], id) <==>
            if call.reply.Done? then !Names(call.reply.errors, id) && (Deleted(before, id) || id in call.chunk)
            else Deleted(before, id)
  {
    hide Names;
    var calls := before + [call];
    if Deleted(before, id) && (call.reply.Done? ==> !Names(call.reply.errors, id)) {
      var j :| 0 <= j < |before| && id in before[j].chunk && Clean(before, j, id);
      assert Clean(calls, j, id) && id in calls[j].chunk;
    }
    if call.reply.Done? && id in call.chunk && !Names(call.reply.errors, id) {
      assert Clean(calls, |before|, id) && id in calls[|before|].chunk;
    }
    if Deleted(calls, id) {
      var j :| 0 <= j < |calls| && id in calls[j].chunk && Clean(calls, j, id);
      assert calls[|before|] == call && forall k :: 0 <= k < |before| ==> before[k] == calls[k];
      if j < |before| { assert Clean(before, j, id) && id in before[j].chunk; }
    }
  }

  lemma {:induction false} SentHolds(calls: seq<Call>, j: nat, id: string)
    requires j < |calls| && id in calls[j].chunk
    ensures id in Sent(calls)
  {
    if j == |calls| - 1 {
    } else {
      SentHolds(calls[..|calls| - 1], j, id);
    }
  }

  /** What has not been sent has not been deleted. */
  lemma NotYetSent(calls: seq<Call>, order: seq<string>, start: nat, i: nat)
    requires NoRepeats(order) && start <= i < |order| && Sent(calls) == order[..start]
    ensures !Deleted(calls, order[i])
  {
    if Deleted(calls, order[i]) {
      var j :| 0 <= j < |calls| && order[i] in calls[j].chunk && Clean(calls, j, order[i]);
      SentHolds(calls, j, order[i]);
      assert false;
    }
  }

  predicate FaithfulTo(m: Outcomes, calls: seq<Call>, order: seq<string>, n: nat)
    requires n <= |order|
  {
    forall i :: 0 <= i < n ==> Faithful(m, calls, order[i])
  }

  /** A call that failed as a whole deletes nothing. */
  lemma FailedFaithful(before: seq<Call>, call: Call, order: seq<string>, start: nat, end: nat, m: Outcomes)
    requires NoRepeats(order) && start <= end <= |order| && Sent(before) == order[..start] && !call.reply.Done? && call.chunk == order[start..end]
    requires FaithfulTo(m, before, order, start)
    ensures FaithfulTo(AllSame(m, order[start..end], Some(Transient)), before + [call], order, end)
  {
    hide Deleted, LastWord, Sent;
    var m' := AllSame(m, order[start..end], Some(Transient));
    forall i | 0 <= i < end ensures Faithful(m', before + [call], order[i]) {
      DeletedStep(before, call, order[i]);
      LastWordStep(before, call, order[i]);
      if i >= start { NotYetSent(before, order, start, i); assert order[start..end][i - start] == order[i]; }
      else { assert Faithful(m, before, order[i]) && order[i] !in order[start..end]; }
    }
  }

  /** A cancelled call deletes nothing, and everything still waiting is stamped too. */
  lemma CancelledFaithful(before: seq<Call>, call: Call, order: seq<string>, start: nat, end: nat, m: Outcomes)
    requires NoRepeats(order) && start <= end <= |order| && Sent(before) == order[..start] && !call.reply.Done? && call.chunk == order[start..end]
    requires FaithfulTo(m, before, order, start)
    ensures FaithfulTo(AllSame(AllSame(m, order[start..end], Some(Transient)), order[end..], Some(Transient)),
                       before + [call], order, |order|)
  {
    hide Deleted, LastWord, Sent;
    FailedFaithful(before, call, order, start, end, m);
    var m1 := AllSame(m, order[start..end], Some(Transient));
    var m' := AllSame(m1, order[end..], Some(Transient));
    forall i | 0 <= i < |order| ensures Faithful(m', before + [call], order[i]) {
      DeletedStep(before, call, order[i]);
      LastWordStep(before, call, order[i]);
      assert order[..end] == order[..start] + order[start..end];
      if i >= end { NotYetSent(before, order, start, i); assert order[end..][i - end] == order[i]; }
      else { assert Faithful(m1, before + [call], order[i]) && order[i] !in order[end..]; }
    }
  }

  /** A call that went through deletes its chunk, less the keys it names. */
  lemma DoneFaithful(before: seq<Call>, call: Call, order: seq<string>, start: nat, end: nat, m: Outcomes)
    requires NoRepeats(order) && start <= end <= |order| && Sent(before) == order[..start]
    requires call.reply.Done? && call.chunk == order[start..end] && FaithfulTo(m, before, order, start)
    ensures FaithfulTo(WithErrors(AllSame(m, call.chunk, None), call.reply.errors), before + [call], order, end)
  {
    hide Deleted, WithErrors, Names, LastWord, LastCode, Sent, ClassifyCode;
    var m1 := AllSame(m, call.chunk, None);
    var m' := WithErrors(m1, call.reply.errors);
    forall i | 0 <= i < end ensures Faithful(m', before + [call], order[i]) {
      DeletedStep(before, call, order[i]);
      LastWordStep(before, call, order[i]);
      WithErrorsAt(m1, call.reply.errors, order[i]);
      if i >= start { NotYetSent(before, order, start, i); assert call.chunk[i - start] == order[i]; }
      else { assert Faithful(m, before, order[i]) && order[i] !in call.chunk; }
    }
  }

  /** The backend answers call j on a chunk as it likes. Returns the calls made and,
      unless authentication failed, one outcome for every id. */
  method DeleteChunks(order: seq<string>, backend: (nat, seq<string>) -> Reply)
    returns (calls: seq<Call>, outcome: Outcomes, authFailed: bool)
    requires NoRepeats(order)
    ensures Dispatched(calls, order)
    ensures forall j :: 0 <= j < |calls| ==> calls[j].reply == backend(j, calls[j].chunk)
    ensures authFailed <==> calls != [] && calls[|calls| - 1].reply.AuthFailed?
    ensures !authFailed ==> forall id :: id in order ==> Faithful(outcome, calls, id)
    ensures !authFailed && (calls == [] || !calls[|calls| - 1].reply.Cancelled?) ==> Sent(calls) == order
  {
    hide Faithful, AllSame, WithErrors, NoRepeats;
    calls, outcome, authFailed := [], map[], false;
    var start := 0;
    while start < |order|
      invariant 0 <= start <= |order| && Sent(calls) == order[..start] && Dispatched(calls, order)
      invariant start < |order| ==> forall j :: 0 <= j < |calls| ==> |calls[j].chunk| == BATCH_SIZE
      invariant forall j :: 0 <= j < |calls| ==> calls[j].reply == backend(j, calls[j].chunk)
      invariant forall j :: 0 <= j < |calls| ==> !calls[j].reply.AuthFailed? && !calls[j].reply.Cancelled?
      invariant FaithfulTo(outcome, calls, order, start)
    {
      var end := if start + BATCH_SIZE > |order| then |order| else start + BATCH_SIZE;
      var chunk := order[start..end];
      var reply := backend(|calls|, chunk);
      ghost var before, was := calls, outcome;
      calls := calls + [Call(chunk, reply)];
      assert calls[..|before|] == before;
      assert order[..end] == order[..start] + chunk;
      match reply {
        case AuthFailed =>
          authFailed := true;
          return;
        case Cancelled =>
          outcome := AllSame(outcome, chunk, Some(Transient));
          outcome := AllSame(outcome, order[end..], Some(Transient));
          CancelledFaithful(before, Call(chunk, reply), order, start, end, was);
          return;
        case CallFailed =>
          outcome := AllSame(outcome, chunk, Some(Transient));
          FailedFaithful(before, Call(chunk, reply), order, start, end, was);
        case Done(errors) =>
          outcome := WithErrors(AllSame(outcome, chunk, None), errors);
          DoneFaithful(before, Call(chunk, reply), order, start, end, was);
      }
      start := end;
    }
    assert order[..|order|] == order;
  }

  /** Deletes the ids. Either the call could not begin or authentication failed, and
      there are no results; or there is one result per input position, and it is
      free of error exactly when that id was deleted. Each distinct id is sent at
      most once, in order of first appearance, in chunks of at most a thousand. */
  method DeleteObjects(ids: seq<string>, cancelledAtStart: bool, backend: (nat, seq<string>) -> Reply)
    returns (r: Result<seq<DeleteResult>, SliceError>, calls: seq<Call>)
    ensures Dispatched(calls, Distinct(ids)) && NoRepeats(Sent(calls))
    ensures forall j :: 0 <= j < |calls| ==> calls[j].reply == backend(j, calls[j].chunk)
    ensures r == Err(NotStarted) <==> ids != [] && cancelledAtStart
    ensures r == Err(AuthError) <==> calls != [] && calls[|calls| - 1].reply.AuthFailed?
    ensures r.Err? && r.error.NotStarted? ==> calls == []
    ensures r.Ok? ==> |r.value| == |ids|
    ensures r.Ok? ==> forall i :: 0 <= i < |ids| ==>
              r.value[i].id == ids[i] && (r.value[i].error.None? <==> Deleted(calls, ids[i]))
    ensures r.Ok? ==> forall i :: 0 <= i < |ids| ==>
              r.value[i].error == if ids[i] in Sent(calls) then LastWord(calls, ids[i]) else Some(Transient)
    ensures r.Ok? && (calls == [] || !calls[|calls| - 1].reply.Cancelled?) ==> Sent(calls) == Distinct(ids)
  {
    hide Distinct, Deleted, LastWord, Sent;
    calls := [];
    DistinctIsSet(ids);
    NothingToSend();
    if ids == [] { return Ok([]), calls; }
    if cancelledAtStart { return Err(NotStarted), calls; }
    var order := Dedup(ids);
    var outcome, authFailed;
    calls, outcome, authFailed := DeleteChunks(order, backend);
    if authFailed { return Err(AuthError), calls; }
    var results: seq<DeleteResult> := [];
    for i := 0 to |ids|
      invariant |results| == i
      invariant forall k :: 0 <= k < i ==> results[k].id == ids[k] && (results[k].error.None? <==> Deleted(calls, ids[k]))
      invariant forall k :: 0 <= k < i ==>
                  results[k].error == if ids[k] in Sent(calls) then LastWord(calls, ids[k]) else Some(Transient)
    {
      assert ids[i] in order && Faithful(outcome, calls, ids[i]);
      results := results + [DeleteResult(ids[i], outcome[ids[i]])];
    }
    return Ok(results), calls;
  }

  lemma NothingToSend()
    ensures Distinct([]) == [] && Sent([]) == []
  {
  }
}
