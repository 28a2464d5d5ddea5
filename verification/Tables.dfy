/** The tables behind internal/metastore and the row filters its SQL uses. */
module Tables {
  import opened Base
  import opened Bounds

  type Uuid = string

  datatype Flow = Flow(sourceId: Uuid, format: string, codec: Option<string>,
                       readOnly: bool, timerange: Option<string>)

  datatype Object = Object(refCount: int, storageId: Option<string>, reaping: bool)

  function Dropped(o: Object, n: int): Object { o.(refCount := o.refCount - n) }

  /** A row of `segments`: the client's string and its half-open bounds. */
  datatype Row = Row(id: nat, flowId: Uuid, objectId: string, raw: string, lower: Int64, upper: Int64)

  /** The database. Segment rows are kept in the order of their serial ids. */
  datatype Db = Db(sources: map<Uuid, string>, flows: map<Uuid, Flow>, objects: map<string, Object>,
                   segments: seq<Row>, nextId: nat)

  /** The position of a row in a listing. */
  datatype Key = Key(lower: Int64, id: nat)

  function KeyOf(r: Row): Key { Key(r.lower, r.id) }

  /** (lower_ns, id) comparison in the direction of the listing. */
  predicate Precedes(reverse: bool, a: Key, b: Key) {
    if reverse then b.lower < a.lower || (b.lower == a.lower && b.id < a.id)
    else a.lower < b.lower || (a.lower == b.lower && a.id < b.id)
  }

  datatype Window = Window(lo: Option<Int64>, hi: Option<Int64>)

  /** The WHERE clauses over `segments`. */
  datatype Cond =
    | OfFlow(flowId: Uuid)
    | CoveredBy(flowId: Uuid, window: Window, objectId: Option<string>)
    | Listed(flowId: Uuid, overlapping: Option<Window>, objectId: Option<string>,
             reverse: bool, after: Option<Key>)

  predicate Sat(c: Cond, r: Row) {
    match c
    case OfFlow(f) => r.flowId == f
    case CoveredBy(f, w, o) =>
      && r.flowId == f && (w.lo.None? || r.lower >= w.lo.value) && (w.hi.None? || r.upper <= w.hi.value)
      && (o.None? || r.objectId == o.value)
    case Listed(f, w, o, reverse, after) =>
      && r.flowId == f && (w.None? || OverlapCond(r.lower, r.upper, w.value.lo, w.value.hi))
      && (o.None? || r.objectId == o.value)
      && (after.None? || Precedes(reverse, after.value, KeyOf(r)))
  }

  /** The rows that meet the condition, or those that do not. */
  function Filter(rows: seq<Row>, c: Cond, keep: bool): seq<Row> {
    if rows == [] then []
    else
      var front := Filter(rows[..|rows| - 1], c, keep);
      if Sat(c, rows[|rows| - 1]) == keep then front + [rows[|rows| - 1]] else front
  }

  lemma {:induction false} FilterMember(rows: seq<Row>, c: Cond, keep: bool)
    ensures forall r :: r in Filter(rows, c, keep) <==> r in rows && Sat(c, r) == keep
    ensures |Filter(rows, c, keep)| <= |rows|
  {
    if rows == [] {
    } else {
      FilterMember(rows[..|rows| - 1], c, keep);
      assert rows == rows[..|rows| - 1] + [rows[|rows| - 1]];
    }
  }

  lemma {:induction false} FilterAppend(a: seq<Row>, b: seq<Row>, c: Cond, keep: bool)
    ensures Filter(a + b, c, keep) == Filter(a, c, keep) + Filter(b, c, keep)
  {
    if b == [] {
      assert a + b == a;
    } else {
      FilterAppend(a, b[..|b| - 1], c, keep);
      assert (a + b)[..|a + b| - 1] == a + b[..|b| - 1];
    }
  }

  lemma {:induction false} FilterNone(rows: seq<Row>, c: Cond, keep: bool)
    requires forall r :: r in rows ==> Sat(c, r) != keep
    ensures Filter(rows, c, keep) == []
  {
    if rows == [] {
    } else {
      FilterNone(rows[..|rows| - 1], c, keep);
    }
  }

  /** The distinct objects a flow's rows reference. */
  function ObjectsOf(rows: seq<Row>, f: Uuid): set<string> { set r | r in rows && r.flowId == f :: r.objectId }

  /** The number of rows that reference an object. */
  function Refs(rows: seq<Row>, o: string): nat {
    if rows == [] then 0
    else Refs(rows[..|rows| - 1], o) + if rows[|rows| - 1].objectId == o then 1 else 0
  }

  lemma {:induction false} RefsAppend(a: seq<Row>, b: seq<Row>, o: string)
    ensures Refs(a + b, o) == Refs(a, o) + Refs(b, o)
  {
    if b == [] {
      assert a + b == a;
    } else {
      RefsAppend(a, b[..|b| - 1], o);
      assert (a + b)[..|a + b| - 1] == a + b[..|b| - 1];
    }
  }

  lemma {:induction false} RefsSplit(rows: seq<Row>, c: Cond, o: string)
    ensures Refs(rows, o) == Refs(Filter(rows, c, true), o) + Refs(Filter(rows, c, false), o)
  {
    if rows == [] {
    } else {
      var front, last := rows[..|rows| - 1], rows[|rows| - 1];
      RefsSplit(front, c, o);
      RefsAppend(Filter(front, c, Sat(c, last)), [last], o);
      assert [last][..0] == [];
    }
  }

  lemma {:induction false} RefsPositive(rows: seq<Row>, o: string)
    ensures Refs(rows, o) > 0 <==> exists r :: r in rows && r.objectId == o
  {
    if rows == [] {
    } else {
      var front, last := rows[..|rows| - 1], rows[|rows| - 1];
      RefsPositive(front, o);
      assert rows == front + [last];
      if rows[|rows| - 1].objectId == o { assert last in rows; }
    }
  }

  /** Serial ids: distinct, in table order, below the next one. */
  predicate Ascending(rows: seq<Row>, nextId: nat) {
    && (forall i, j :: 0 <= i < j < |rows| ==> rows[i].id < rows[j].id)
    && (forall i :: 0 <= i < |rows| ==> rows[i].id < nextId)
  }

  lemma {:induction false} FilterAscending(rows: seq<Row>, c: Cond, keep: bool, nextId: nat)
    requires Ascending(rows, nextId)
    ensures Ascending(Filter(rows, c, keep), nextId)
  {
    hide Sat;
    if rows == [] {
    } else {
      var front, last := rows[..|rows| - 1], rows[|rows| - 1];
      FilterAscending(front, c, keep, nextId);
      FilterMember(front, c, keep);
      var kept := Filter(front, c, keep);
      forall i | 0 <= i < |kept| ensures kept[i].id < last.id {
        assert kept[i] in kept;
        var k :| 0 <= k < |front| && front[k] == kept[i];
        assert rows[k].id < rows[|rows| - 1].id;
      }
    }
  }
}
