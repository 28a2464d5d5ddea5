/** Idempotency keys (internal/idempotency/idempotency.go): the table and its five
    operations. `now` is the database clock; an expiry is the caller's clock plus
    the time to live. */
module Idempotency {
  import opened Base

  datatype Entry = Entry(hash: string, inFlight: bool, status: int, body: Option<string>,
                         acquiredAt: int, expiresAt: int)

  type Table = map<string, Entry>

  datatype Acquisition = Acquired | InFlight | Cached(status: int, body: Option<string>) | Conflict

  datatype KeyError = EmptyKey | KeyTooLong

  function CheckKey(key: string): Option<KeyError> {
    if key == "" then Some(EmptyKey) else if |key| > 255 then Some(KeyTooLong) else None
  }

  predicate Expired(e: Entry, now: int) { e.expiresAt <= now }

  /** The entry that counts: an expired one is as good as absent. */
  predicate Holds(t: Table, key: string, now: int) { key in t && !Expired(t[key], now) }

  function Answer(t: Table, key: string, hash: string, now: int): Acquisition {
    if !Holds(t, key, now) then Acquired
    else if t[key].hash != hash then Conflict
    else if t[key].inFlight then InFlight
    else Cached(t[key].status, t[key].body)
  }

  function AfterAcquire(t: Table, key: string, hash: string, now: int, expiresAt: int): Table {
    if Holds(t, key, now) then t else t[key := Entry(hash, true, 0, None, now, expiresAt)]
  }

  function AfterComplete(t: Table, key: string, status: int, body: Option<string>): Table {
    if key in t then t[key := t[key].(inFlight := false, status := status, body := body)] else t
  }

  function AfterPrune(t: Table, now: int): Table {
    map k | k in t && !Expired(t[k], now) :: t[k]
  }

  predicate Stale(e: Entry, now: int, threshold: int) { e.inFlight && e.acquiredAt <= now - threshold }

  function AfterReap(t: Table, now: int, threshold: int): Table {
    map k | k in t && !Stale(t[k], now, threshold) :: t[k]
  }

  class PostgresStore {
    var rows: Table

    constructor ()
      ensures rows == map[]
    {
      rows := map[];
    }

    /** One transaction: drop an expired entry, look, and claim the key if it is free.
        Any answer but Acquired rolls back. */
    method Acquire(key: string, hash: string, now: int, expiresAt: int) returns (r: Result<Acquisition, KeyError>)
      modifies this
      ensures CheckKey(key).Some? ==> r == Err(CheckKey(key).value) && rows == old(rows)
      ensures CheckKey(key).None? ==>
                && r == Ok(Answer(old(rows), key, hash, now))
                && rows == AfterAcquire(old(rows), key, hash, now, expiresAt)
      ensures r.Err? <==> key == "" || |key| > 255
      ensures r.Err? ==> r.error == if key == "" then EmptyKey else KeyTooLong
      ensures r.Ok? && key in old(rows) && now < old(rows)[key].expiresAt ==>
                && rows == old(rows)
                && r.value == if old(rows)[key].hash != hash then Conflict
                              else if old(rows)[key].inFlight then InFlight
                              else Cached(old(rows)[key].status, old(rows)[key].body)
      ensures r.Ok? && !(key in old(rows) && now < old(rows)[key].expiresAt) ==>
                r.value == Acquired && rows == old(rows)[key := Entry(hash, true, 0, None, now, expiresAt)]
    {
      if CheckKey(key).Some? { return Err(CheckKey(key).value); }
      var tx := rows;
      if key in tx && Expired(tx[key], now) { tx := tx - {key}; }
      if key !in tx {
        tx := tx[key := Entry(hash, true, 0, None, now, expiresAt)];
        rows := tx;
        return Ok(Acquired);
      }
      var stored := tx[key];
      if stored.hash != hash { return Ok(Conflict); }
      if stored.inFlight { return Ok(InFlight); }
      return Ok(Cached(stored.status, stored.body));
    }

    /** No effect on an unknown key. Matches by key alone. */
    method Complete(key: string, status: int, body: Option<string>) returns (r: Result<(), KeyError>)
      modifies this
      ensures r.Ok? <==> CheckKey(key).None?
      ensures rows == if r.Ok? then AfterComplete(old(rows), key, status, body) else old(rows)
      ensures rows.Keys == old(rows).Keys && forall k :: k in rows && k != key ==> rows[k] == old(rows)[k]
      ensures r.Ok? && key in rows ==> rows[key] == old(rows)[key].(inFlight := false, status := status, body := body)
    {
      if CheckKey(key).Some? { return Err(CheckKey(key).value); }
      if key in rows { rows := rows[key := rows[key].(inFlight := false, status := status, body := body)]; }
      return Ok(());
    }

    method Release(key: string) returns (r: Result<(), KeyError>)
      modifies this
      ensures r.Ok? <==> CheckKey(key).None?
      ensures rows == if r.Ok? then old(rows) - {key} else old(rows)
    {
      if CheckKey(key).Some? { return Err(CheckKey(key).value); }
      rows := rows - {key};
      return Ok(());
    }

    method Prune(now: int) returns (count: nat)
      modifies this
      ensures rows == AfterPrune(old(rows), now) && count == |old(rows)| - |rows|
      ensures forall k :: k in rows <==> k in old(rows) && now < old(rows)[k].expiresAt
      ensures forall k :: k in rows ==> rows[k] == old(rows)[k]
    {
      var gone := set k | k in rows && Expired(rows[k], now);
      count := |gone|;
      rows := rows - gone;
      assert rows.Keys == old(rows.Keys) - gone;
      assert |rows| == |rows.Keys| && |old(rows)| == |old(rows.Keys)|;
    }

    method ReapStale(now: int, threshold: int) returns (count: nat)
      modifies this
      ensures rows == AfterReap(old(rows), now, threshold) && count == |old(rows)| - |rows|
      ensures forall k :: k in rows <==> k in old(rows) && !(old(rows)[k].inFlight && threshold <= now - old(rows)[k].acquiredAt)
      ensures forall k :: k in rows ==> rows[k] == old(rows)[k]
    {
      var gone := set k | k in rows && Stale(rows[k], now, threshold);
      count := |gone|;
      rows := rows - gone;
      assert rows.Keys == old(rows.Keys) - gone;
      assert |rows| == |rows.Keys| && |old(rows)| == |old(rows.Keys)|;
    }
  }
}
