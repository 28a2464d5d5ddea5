/** The key protocol under every interleaving of requests, crashes, expiry and
    reaping. Nothing in the table names an owner: Complete and Release match on
    the key alone, so what is proved rests on time and on acknowledgements. */
module IdempotencyRuns {
  import opened Base
  import opened Idempotency

  /** A request that holds a key: it has been told Acquired and has not finished. */
  datatype Owner = Owner(key: string, hash: string, since: int, expires: int)

  datatype Sys = Sys(table: Table, now: int, owners: map<nat, Owner>)

  datatype Event =
    | Arrive(req: nat, key: string, hash: string, expiresAt: int)
    | Complete(req: nat, status: int, body: Option<string>)
    | CompleteLost(req: nat, status: int, body: Option<string>)  // applied, but reported as failed
    | Release(req: nat)
    | ReleaseLost(req: nat)                                      // applied, but reported as failed
    | Crash(req: nat)
    | Prune
    | ReapStale(threshold: int)
    | Tick(elapsed: nat)

  const START := Sys(map[], 0, map[])

  function Step(s: Sys, e: Event): Sys {
    match e
    case Arrive(req, key, hash, expiresAt) =>
      if req in s.owners || CheckKey(key).Some? then s
      else s.(table := AfterAcquire(s.table, key, hash, s.now, expiresAt),
              owners := if Answer(s.table, key, hash, s.now).Acquired?
                        then s.owners[req := Owner(key, hash, s.now, expiresAt)] else s.owners)
    case Complete(req, status, body) =>
      if req !in s.owners then s
      else s.(table := AfterComplete(s.table, s.owners[req].key, status, body), owners := s.owners - {req})
    case CompleteLost(req, status, body) =>
      if req !in s.owners then s else s.(table := AfterComplete(s.table, s.owners[req].key, status, body))
    case Release(req) =>
      if req !in s.owners then s else s.(table := s.table - {s.owners[req].key}, owners := s.owners - {req})
    case ReleaseLost(req) =>
      if req !in s.owners then s else s.(table := s.table - {s.owners[req].key})
    case Crash(req) => s.(owners := s.owners - {req})
    case Prune => s.(table := AfterPrune(s.table, s.now))
    case ReapStale(threshold) => s.(table := AfterReap(s.table, s.now, threshold))
    case Tick(elapsed) => s.(now := s.now + elapsed)
  }

  function Run(s: Sys, events: seq<Event>): Sys {
    if events == [] then s else Step(Run(s, events[..|events| - 1]), events[|events| - 1])
  }

  // ----- The assumptions -----

  /** Every running request is within its time: less than `most` since it acquired
      its key, and before the key expires. */
  predicate Timely(s: Sys, most: int) {
    forall r :: r in s.owners ==> s.now < s.owners[r].since + most && s.now < s.owners[r].expires
  }

  /** The reaper waits at least that long, and no applied Release is reported as failed. */
  predicate Fair(e: Event, most: int) {
    (e.ReapStale? ==> e.threshold >= most) && !e.ReleaseLost?
  }

  predicate Assumed(s: Sys, events: seq<Event>, most: int) {
    && (forall i :: 0 <= i < |events| ==> Fair(events[i], most))
    && (forall i :: 0 <= i <= |events| ==> Timely(Run(s, events[..i]), most))
  }

  // ----- The invariant -----

  /** A running request's key is in the table as it left it. */
  predicate Owns(s: Sys, r: nat)
    requires r in s.owners
  {
    var o := s.owners[r];
    && o.key in s.table && s.table[o.key].hash == o.hash
    && s.table[o.key].acquiredAt == o.since && s.table[o.key].expiresAt == o.expires
  }

  predicate Exclusive(s: Sys) {
    forall r, q :: r in s.owners && q in s.owners && r != q ==> s.owners[r].key != s.owners[q].key
  }

  predicate Inv(s: Sys) {
    Exclusive(s) && forall r :: r in s.owners ==> Owns(s, r)
  }

  lemma StepKeepsInv(s: Sys, e: Event, most: int)
    requires Inv(s) && Timely(s, most) && Fair(e, most)
    ensures Inv(Step(s, e))
  {
    match e
    case Arrive(req, key, hash, expiresAt) => ArriveKeepsInv(s, req, key, hash, expiresAt, most);
    case _ =>
  }

  lemma ArriveKeepsInv(s: Sys, req: nat, key: string, hash: string, expiresAt: int, most: int)
    requires Inv(s) && Timely(s, most)
    ensures Inv(Step(s, Arrive(req, key, hash, expiresAt)))
  {
    forall r | r in s.owners && s.owners[r].key == key ensures Holds(s.table, key, s.now) {
      assert Owns(s, r);
    }
  }

  lemma {:induction false} RunKeepsInv(s: Sys, events: seq<Event>, most: int)
    requires Inv(s) && Assumed(s, events, most)
    ensures Inv(Run(s, events))
  {
    hide Step, Timely;
    if events == [] {
    } else {
      var front := events[..|events| - 1];
      AssumedFront(s, events, most);
      RunKeepsInv(s, front, most);
      StepKeepsInv(Run(s, front), events[|events| - 1], most);
    }
  }

  lemma AssumedFront(s: Sys, events: seq<Event>, most: int)
    requires events != [] && Assumed(s, events, most)
    ensures var front := events[..|events| - 1];
            Assumed(s, front, most) && Timely(Run(s, front), most) && Timely(Run(s, events), most)
  {
    hide Step, Timely, Fair;
    var front := events[..|events| - 1];
    assert forall i :: 0 <= i <= |front| ==> front[..i] == events[..i];
    assert events[..|events|] == events && front[..|front|] == front;
  }

  /** In every reachable state at most one running request holds a key. */
  lemma OneOwnerPerKey(events: seq<Event>, most: int)
    requires Assumed(START, events, most)
    ensures Exclusive(Run(START, events))
  {
    RunKeepsInv(START, events, most);
  }

  // ----- Replays -----

  /** The key is finished: its entry is this one, and no running request holds it. */
  predicate Settled(s: Sys, key: string, e: Entry) {
    key in s.table && s.table[key] == e && !e.inFlight && forall r :: r in s.owners ==> s.owners[r].key != key
  }

  lemma CompleteSettles(s: Sys, r: nat, status: int, body: Option<string>)
    requires Inv(s) && r in s.owners
    ensures var o := s.owners[r];
            Settled(Step(s, Complete(r, status, body)), o.key, Entry(o.hash, false, status, body, o.since, o.expires))
  {
    assert Owns(s, r);
  }

  lemma StepKeepsSettled(s: Sys, ev: Event, key: string, e: Entry)
    requires Settled(s, key, e) && s.now < e.expiresAt
    ensures Settled(Step(s, ev), key, e)
  {
  }

  lemma {:induction false} ClockOnlyAdvances(s: Sys, events: seq<Event>)
    ensures s.now <= Run(s, events).now
  {
    if events == [] {
    } else {
      ClockOnlyAdvances(s, events[..|events| - 1]);
    }
  }

  lemma {:induction false} RunKeepsSettled(s: Sys, events: seq<Event>, key: string, e: Entry)
    requires Settled(s, key, e) && Run(s, events).now < e.expiresAt
    ensures Settled(Run(s, events), key, e)
  {
    hide Settled;
    if events == [] {
    } else {
      var front, last := events[..|events| - 1], events[|events| - 1];
      assert Run(s, front).now <= Run(s, events).now;
      hide Step;
      RunKeepsSettled(s, front, key, e);
      StepKeepsSettled(Run(s, front), last, key, e);
    }
  }

  /** Until the key expires, everyone who asks after an acknowledged Complete is
      answered with exactly what was completed if they sent the same request, and
      with a conflict otherwise, whatever else happens in between. */
  lemma ReplayUntilExpiry(before: seq<Event>, r: nat, status: int, body: Option<string>,
                          after: seq<Event>, hash: string, most: int)
    requires Assumed(START, before, most) && r in Run(START, before).owners
    requires Run(Step(Run(START, before), Complete(r, status, body)), after).now < Run(START, before).owners[r].expires
    ensures var o := Run(START, before).owners[r];
            var later := Run(Step(Run(START, before), Complete(r, status, body)), after);
            Answer(later.table, o.key, hash, later.now) == if hash == o.hash then Cached(status, body) else Conflict
  {
    hide Step, Run;
    var s := Run(START, before);
    var o := s.owners[r];
    assert Inv(START);
    RunKeepsInv(START, before, most);
    CompleteSettles(s, r, status, body);
    var e := Entry(o.hash, false, status, body, o.since, o.expires);
    RunKeepsSettled(Step(s, Complete(r, status, body)), after, o.key, e);
  }

  // ----- While a request runs -----

  /** The request runs, and its row is still in flight. */
  predicate Flying(s: Sys, r: nat) {
    r in s.owners && Owns(s, r) && s.table[s.owners[r].key].inFlight
  }

  /** The k-th event of a run is the one that gave the request its key. */
  predicate Acquires(events: seq<Event>, k: nat, r: nat) {
    k < |events| && r !in Run(START, events[..k]).owners && r in Run(START, events[..k + 1]).owners
  }

  predicate CompletesFor(e: Event, r: nat) { e.CompleteLost? && e.req == r }

  lemma StepKeepsFlying(s: Sys, e: Event, r: nat, most: int)
    requires Inv(s) && Timely(s, most) && Fair(e, most) && Flying(s, r)
    requires r in Step(s, e).owners && !CompletesFor(e, r)
    ensures Flying(Step(s, e), r)
  {
    StepKeepsInv(s, e, most);
    assert Owns(Step(s, e), r);
  }

  lemma ArrivalFlies(s: Sys, e: Event, r: nat)
    requires r !in s.owners && r in Step(s, e).owners
    ensures Flying(Step(s, e), r)
  {
  }

  lemma {:induction false} RunKeepsFlying(events: seq<Event>, k: nat, r: nat, most: int)
    requires Assumed(START, events, most) && Acquires(events, k, r)
    requires forall i :: k < i <= |events| ==> r in Run(START, events[..i]).owners
    requires forall i :: k < i < |events| ==> !CompletesFor(events[i], r)
    ensures Flying(Run(START, events), r)
  {
    hide Step, Timely, Fair, CompletesFor, Flying;
    var n := |events| - 1;
    var front := events[..n];
    assert events[..n + 1] == events;
    if k == n {
      ArrivalFlies(Run(START, front), events[n], r);
    } else {
      assert forall i :: 0 <= i <= n ==> front[..i] == events[..i];
      AssumedFront(START, events, most);
      assert front[..n] == front;
      RunKeepsFlying(front, k, r, most);
      assert Inv(START) by { StartIsInv(); }
      RunKeepsInv(START, front, most);
      StepKeepsFlying(Run(START, front), events[n], r, most);
    }
  }

  lemma StartIsInv()
    ensures Inv(START)
  {
  }

  /** From the moment a request acquires a key until it settles it, the same body is
      told that the key is in flight, and any other body that it conflicts. */
  lemma InFlightWhileRunning(events: seq<Event>, k: nat, r: nat, hash: string, most: int)
    requires Assumed(START, events, most) && Acquires(events, k, r)
    requires forall i :: k < i <= |events| ==> r in Run(START, events[..i]).owners
    requires forall i :: k < i < |events| ==> !CompletesFor(events[i], r)
    ensures r in Run(START, events).owners
    ensures var s := Run(START, events);
            Answer(s.table, s.owners[r].key, hash, s.now) == if hash == s.owners[r].hash then InFlight else Conflict
  {
    hide Step, Run, Fair, CompletesFor;
    RunKeepsFlying(events, k, r, most);
    assert events[..|events|] == events;
    assert Timely(Run(START, events), most);
  }

  // ----- Where an answer comes from -----

  /** The i-th event completes the key with this response. */
  predicate CompletesKey(events: seq<Event>, i: nat, key: string, status: int, body: Option<string>)
    requires i < |events|
  {
    var s := Run(START, events[..i]);
    match events[i]
    case Complete(r, st, b) => r in s.owners && s.owners[r].key == key && st == status && b == body
    case CompleteLost(r, st, b) => r in s.owners && s.owners[r].key == key && st == status && b == body
    case _ => false
  }

  predicate Finished(t: Table, key: string) { key in t && !t[key].inFlight }

  lemma FinishedStep(s: Sys, e: Event, key: string)
    requires Finished(Step(s, e).table, key)
    ensures || (Finished(s.table, key) && Step(s, e).table[key].status == s.table[key].status
                && Step(s, e).table[key].body == s.table[key].body)
            || ((e.Complete? || e.CompleteLost?) && e.req in s.owners && s.owners[e.req].key == key
                && e.status == Step(s, e).table[key].status && e.body == Step(s, e).table[key].body)
  {
  }

  /** In every run whatever, a finished row holds what some event completed its key with. */
  lemma {:induction false} FinishedWasCompleted(events: seq<Event>, key: string)
    requires Finished(Run(START, events).table, key)
    ensures var e := Run(START, events).table[key];
            exists i :: 0 <= i < |events| && CompletesKey(events, i, key, e.status, e.body)
  {
    hide Step;
    if events == [] {
      assert false;
    } else {
      var n := |events| - 1;
      var front := events[..n];
      var s, e := Run(START, front), Run(START, events).table[key];
      assert Run(START, events) == Step(s, events[n]);
      FinishedStep(s, events[n], key);
      if Finished(s.table, key) && e.status == s.table[key].status && e.body == s.table[key].body {
        FinishedWasCompleted(front, key);
        var i :| 0 <= i < n && CompletesKey(front, i, key, e.status, e.body);
        assert front[..i] == events[..i];
        assert CompletesKey(events, i, key, e.status, e.body);
      } else {
        assert CompletesKey(events, n, key, e.status, e.body);
      }
    }
  }

  /** A replayed answer is one that was completed for that key. */
  lemma CachedWasCompleted(events: seq<Event>, key: string, hash: string)
    ensures var s := Run(START, events);
            var a := Answer(s.table, key, hash, s.now);
            a.Cached? ==> exists i :: 0 <= i < |events| && CompletesKey(events, i, key, a.status, a.body)
  {
    hide Step, Run, CompletesKey;
    var s := Run(START, events);
    if Answer(s.table, key, hash, s.now).Cached? { FinishedWasCompleted(events, key); }
  }

  // ----- The exact condition -----

  /** How a server is set up: the time to live of a key, the reaper's threshold, the
      time in which requests finish, and whether an applied Release may be reported
      as failed. */
  datatype Settings = Settings(ttl: int, reapAfter: int, most: int, lossy: bool) {
    predicate Valid() { ttl > 0 && reapAfter > 0 && most > 0 }

    /** One owner per key is safe with these settings. */
    predicate Safe() { most <= ttl && most <= reapAfter && !lossy }
  }

  /** The event is one that such a server can see in this state. */
  predicate Configured(s: Sys, e: Event, c: Settings) {
    match e
    case Arrive(_, _, _, expiresAt) => expiresAt == s.now + c.ttl
    case ReapStale(threshold) => threshold == c.reapAfter
    case ReleaseLost(_) => c.lossy
    case _ => true
  }

  predicate Prompt(s: Sys, most: int) {
    forall r :: r in s.owners ==> s.now < s.owners[r].since + most
  }

  /** A run of the server in which every request finishes in less than `most`. */
  predicate RunsAs(events: seq<Event>, c: Settings) {
    && (forall i :: 0 <= i < |events| ==> Configured(Run(START, events[..i]), events[i], c))
    && (forall i :: 0 <= i <= |events| ==> Prompt(Run(START, events[..i]), c.most))
  }

  lemma RunsAsFront(events: seq<Event>, k: nat, c: Settings)
    requires RunsAs(events, c) && k <= |events|
    ensures RunsAs(events[..k], c)
  {
    hide Run, Configured, Prompt;
    var front := events[..k];
    assert forall i :: 0 <= i <= k ==> front[..i] == events[..i];
  }

  lemma RunExtends(s: Sys, events: seq<Event>, e: Event)
    ensures Run(s, events + [e]) == Step(Run(s, events), e)
  {
    hide Step;
    assert (events + [e])[..|events|] == events;
  }

  /** One more event the server can see, after which requests are still prompt. */
  lemma RunsOn(events: seq<Event>, e: Event, c: Settings)
    requires RunsAs(events, c) && Configured(Run(START, events), e, c) && Prompt(Step(Run(START, events), e), c.most)
    ensures RunsAs(events + [e], c) && Run(START, events + [e]) == Step(Run(START, events), e)
  {
    hide Run, Step, Configured, Prompt;
    RunExtends(START, events, e);
    var more := events + [e];
    assert events[..|events|] == events && more[..|more|] == more;
    forall i | 0 <= i <= |events| ensures more[..i] == events[..i] {}
  }

  lemma PromptNow(events: seq<Event>, c: Settings)
    requires RunsAs(events, c)
    ensures Prompt(Run(START, events), c.most)
  {
    hide Run, Configured, Prompt;
    assert events[..|events|] == events;
  }

  /** Every key in use expires its whole time to live after it was acquired. */
  lemma {:induction false} ExpiryFollows(events: seq<Event>, c: Settings)
    requires RunsAs(events, c)
    ensures forall r :: r in Run(START, events).owners ==>
              Run(START, events).owners[r].expires == Run(START, events).owners[r].since + c.ttl
  {
    if events == [] {
    } else {
      var n := |events| - 1;
      RunsAsFront(events, n, c);
      ExpiryFollows(events[..n], c);
      assert Configured(Run(START, events[..n]), events[n], c);
      hide Run;
      OwnersOfStep(Run(START, events[..n]), events[n]);
      RunExtends(START, events[..n], events[n]);
      assert events[..n] + [events[n]] == events;
    }
  }

  /** A step changes no owner, and an arrival brings its own expiry. */
  lemma OwnersOfStep(s: Sys, e: Event)
    ensures forall r :: r in Step(s, e).owners ==>
              || (r in s.owners && Step(s, e).owners[r] == s.owners[r])
              || (e.Arrive? && Step(s, e).owners[r].since == s.now && Step(s, e).owners[r].expires == e.expiresAt)
  {
  }

  lemma SafeIsAssumed(events: seq<Event>, c: Settings)
    requires c.Safe() && RunsAs(events, c)
    ensures Assumed(START, events, c.most)
  {
    hide Run;
    forall i | 0 <= i <= |events| ensures Timely(Run(START, events[..i]), c.most) {
      RunsAsFront(events, i, c);
      ExpiryFollows(events[..i], c);
      assert Prompt(Run(START, events[..i]), c.most);
    }
    forall i | 0 <= i < |events| ensures Fair(events[i], c.most) {
      assert Configured(Run(START, events[..i]), events[i], c);
    }
  }

  /** A request slower than its key's time to live shares the key with the next one. */
  lemma ExpiredKeyIsShared(c: Settings) returns (events: seq<Event>)
    requires c.Valid() && c.ttl < c.most
    ensures RunsAs(events, c) && !Exclusive(Run(START, events))
  {
    hide Run, RunsAs, Exclusive;
    events := Begin(c);
    RunsOn(events, Tick(c.ttl), c);
    events := events + [Tick(c.ttl)];
    events := Intrude(c, events, 0, 1);
  }

  /** A request slower than the reaper shares its key with the next one. */
  lemma ReapedKeyIsShared(c: Settings) returns (events: seq<Event>)
    requires c.Valid() && c.reapAfter < c.most
    ensures RunsAs(events, c) && !Exclusive(Run(START, events))
  {
    hide Run, RunsAs, Exclusive;
    events := Begin(c);
    RunsOn(events, Tick(c.reapAfter), c);
    events := events + [Tick(c.reapAfter)];
    RunsOn(events, ReapStale(c.reapAfter), c);
    events := events + [ReapStale(c.reapAfter)];
    events := Intrude(c, events, 0, 1);
  }

  /** The second Release of a request whose first one was applied but reported as
      failed takes the key away from the next request, and a third one runs beside it. */
  lemma LostReleaseSharesTheKey(c: Settings) returns (events: seq<Event>)
    requires c.Valid() && c.lossy
    ensures RunsAs(events, c) && !Exclusive(Run(START, events))
  {
    hide Run, RunsAs, Exclusive;
    events := Begin(c);
    RunsOn(events, ReleaseLost(0), c);
    events := events + [ReleaseLost(0)];
    RunsOn(events, Arrive(1, "k", "h", c.ttl), c);
    events := events + [Arrive(1, "k", "h", c.ttl)];
    RunsOn(events, Release(0), c);
    events := events + [Release(0)];
    events := Intrude(c, events, 1, 2);
  }

  /** The first request for a key. */
  lemma Begin(c: Settings) returns (events: seq<Event>)
    requires c.Valid()
    ensures RunsAs(events, c)
    ensures Run(START, events) == Sys(map["k" := Entry("h", true, 0, None, 0, c.ttl)], 0, map[0 := Owner("k", "h", 0, c.ttl)])
  {
    assert RunsAs([], c) && Run(START, []) == START;
    hide Run, RunsAs;
    RunsOn([], Arrive(0, "k", "h", c.ttl), c);
    events := [] + [Arrive(0, "k", "h", c.ttl)];
  }

  /** A new request for a key whose holder has lost it. */
  lemma Intrude(c: Settings, events: seq<Event>, holder: nat, req: nat) returns (more: seq<Event>)
    requires c.Valid() && RunsAs(events, c)
    requires var s := Run(START, events);
             !Holds(s.table, "k", s.now) && req !in s.owners && holder in s.owners && s.owners[holder].key == "k"
    ensures RunsAs(more, c) && !Exclusive(Run(START, more))
  {
    hide Run, RunsAs;
    var s := Run(START, events);
    var e := Arrive(req, "k", "h", s.now + c.ttl);
    PromptNow(events, c);
    RunsOn(events, e, c);
    more := events + [e];
    var owners := Run(START, more).owners;
    assert owners[holder].key == owners[req].key;
  }

  /** Every run of the server keeps one owner per key exactly when requests finish
      within the time to live and the reaper's threshold and no applied Release is
      reported as failed. */
  lemma ExclusiveExactly(c: Settings)
    requires c.Valid()
    ensures (forall events :: RunsAs(events, c) ==> Exclusive(Run(START, events))) <==> c.Safe()
  {
    hide Run, RunsAs, Exclusive;
    if c.Safe() {
      forall events | RunsAs(events, c) ensures Exclusive(Run(START, events)) {
        SafeIsAssumed(events, c);
        OneOwnerPerKey(events, c.most);
      }
    } else if c.lossy {
      var events := LostReleaseSharesTheKey(c);
    } else if c.ttl < c.most {
      var events := ExpiredKeyIsShared(c);
    } else {
      var events := ReapedKeyIsShared(c);
    }
  }

  // ----- Where the server stands -----

  /** Seconds a request may run before the server cuts it off. */
  const WRITE_TIMEOUT := 60

  /** What start-up accepts, checked before the reaper's threshold is raised. */
  predicate Accepted(ttl: int, threshold: int) { 0 < threshold < ttl }

  /** The settings start-up arrives at. */
  function Started(ttl: int, threshold: int, lossy: bool): Settings {
    Settings(ttl, if threshold < WRITE_TIMEOUT then WRITE_TIMEOUT else threshold, WRITE_TIMEOUT, lossy)
  }

  /** Raising the threshold makes the reaper harmless. What start-up does not ask for
      is a time to live that covers the write timeout. */
  lemma StartedServerExactly(ttl: int, threshold: int, lossy: bool)
    requires Accepted(ttl, threshold)
    ensures var c := Started(ttl, threshold, lossy);
            c.ttl == ttl && c.most == 60 && c.reapAfter >= 60 && c.reapAfter >= threshold && c.reapAfter in {60, threshold}
    ensures var c := Started(ttl, threshold, lossy);
            (forall events :: RunsAs(events, c) ==> Exclusive(Run(START, events))) <==> ttl >= WRITE_TIMEOUT && !lossy
  {
    hide Run, RunsAs, Exclusive;
    ExclusiveExactly(Started(ttl, threshold, lossy));
  }
}
