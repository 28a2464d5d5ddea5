/** Listing a flow's segments page by page (internal/metastore/segments.go,
    ListSegments), on a store that stands still and on one that does not. */
module Paging {
  import opened Base
  import opened TimeRanges
  import opened TimeRangeText
  import opened Bounds
  import opened Tables
  import opened StoreSpec
  import opened StoreInvariant
  import opened StoreEffects
  import opened Spans

  const HARD_LIMIT: nat := 1000

  datatype ListQuery = ListQuery(flowId: Uuid, timerange: Option<TimeRange>, objectId: Option<string>, reverse: bool)

  datatype ListError = UnknownFlow | BadTimerange(error: BoundsError)

  /** The cursor is the key of the last item; its text coding is not modelled. */
  datatype Page = Page(items: seq<Row>, next: Option<Key>)

  function EffectiveLimit(limit: int): (n: nat)
    ensures n == if 1 <= limit <= 1000 then limit else 1000
  {
    if limit <= 0 || limit > HARD_LIMIT then HARD_LIMIT else limit
  }

  // ----- ORDER BY -----

  predicate StrictlySorted(reverse: bool, rows: seq<Row>) {
    forall i, j :: 0 <= i < j < |rows| ==> Precedes(reverse, KeyOf(rows[i]), KeyOf(rows[j]))
  }

  function InsertRow(reverse: bool, r: Row, sorted: seq<Row>): seq<Row> {
    if sorted == [] then [r]
    else if Precedes(reverse, KeyOf(r), KeyOf(sorted[0])) then [r] + sorted
    else [sorted[0]] + InsertRow(reverse, r, sorted[1..])
  }

  function Sort(reverse: bool, rows: seq<Row>): seq<Row> {
    if rows == [] then [] else InsertRow(reverse, rows[|rows| - 1], Sort(reverse, rows[..|rows| - 1]))
  }

  lemma {:induction false} InsertRowSorts(reverse: bool, r: Row, sorted: seq<Row>)
    requires StrictlySorted(reverse, sorted) && forall x :: x in sorted ==> x.id != r.id
    ensures StrictlySorted(reverse, InsertRow(reverse, r, sorted))
    ensures forall x :: x in InsertRow(reverse, r, sorted) <==> x == r || x in sorted
  {
    if sorted == [] {
    } else {
      assert sorted == [sorted[0]] + sorted[1..];
      if !Precedes(reverse, KeyOf(r), KeyOf(sorted[0])) {
        InsertRowSorts(reverse, r, sorted[1..]);
        var rest := InsertRow(reverse, r, sorted[1..]);
        forall i | 0 <= i < |rest| ensures Precedes(reverse, KeyOf(sorted[0]), KeyOf(rest[i])) {
          assert rest[i] in rest;
        }
      }
    }
  }

  lemma {:induction false} SortSorts(reverse: bool, rows: seq<Row>, nextId: nat)
    requires Ascending(rows, nextId)
    ensures StrictlySorted(reverse, Sort(reverse, rows))
    ensures forall x :: x in Sort(reverse, rows) <==> x in rows
  {
    if rows == [] {
    } else {
      var front, last := rows[..|rows| - 1], rows[|rows| - 1];
      SortSorts(reverse, front, nextId);
      assert rows == front + [last];
      InsertRowSorts(reverse, last, Sort(reverse, front));
    }
  }

  lemma SomeMember(s: seq<Row>) returns (x: Row)
    requires s != []
    ensures x in s
  {
    x := s[0];
  }

  /** A strictly sorted sequence is determined by its members. */
  lemma {:induction false} SortedIsUnique(reverse: bool, a: seq<Row>, b: seq<Row>)
    requires StrictlySorted(reverse, a) && StrictlySorted(reverse, b)
    requires forall x :: x in a <==> x in b
    ensures a == b
  {
    if a == [] {
      if b != [] { var x := SomeMember(b); assert false; }
    } else if b == [] {
      var x := SomeMember(a);
      assert false;
    } else {
      assert a[0] in b && b[0] in a;
      assert a == [a[0]] + a[1..] && b == [b[0]] + b[1..];
      forall x ensures x in a[1..] <==> x in b[1..] {
        assert x in a[1..] ==> x in a && x != a[0];
        assert x in b[1..] ==> x in b && x != b[0];
      }
      SortedIsUnique(reverse, a[1..], b[1..]);
    }
  }

  // ----- One page -----

  /** The rows a query matches past a position, in listing order. */
  function Listing(rows: seq<Row>, q: ListQuery, w: Option<Window>, after: Option<Key>): seq<Row> {
    Sort(q.reverse, Filter(rows, Listed(q.flowId, w, q.objectId, q.reverse, after), true))
  }

  function Cut(found: seq<Row>, n: nat): Page
    requires n > 0
  {
    if |found| > n then Page(found[..n], Some(KeyOf(found[n - 1]))) else Page(found, None)
  }

  /** One page, from a position on. A query range without instants matches nothing. */
  function ListSegments(db: Db, q: ListQuery, after: Option<Key>, limit: int): Result<Page, ListError> {
    if q.flowId !in db.flows then Err(UnknownFlow)
    else if q.timerange.None? then Ok(Cut(Listing(db.segments, q, None, after), EffectiveLimit(limit)))
    else
      var w := QueryBounds(q.timerange.value);
      if w.Err? then Err(BadTimerange(w.error))
      else if w.value.None? then Ok(Page([], None))
      else Ok(Cut(Listing(db.segments, q, w.value, after), EffectiveLimit(limit)))
  }

  /** The row belongs in the answer, by instants rather than by bounds. */
  ghost predicate Matches(r: Row, q: ListQuery) {
    && r.flowId == q.flowId && (q.objectId.None? || r.objectId == q.objectId.value)
    && (q.timerange.None? || exists t :: r.lower <= t < r.upper && t in Instants(q.timerange.value))
  }

  predicate Past(reverse: bool, after: Option<Key>, r: Row) {
    after.None? || Precedes(reverse, after.value, KeyOf(r))
  }

  lemma OverlapIsSharing(r: Row, tr: TimeRange)
    requires RowOk(r) && WellFormed(tr) && QueryBounds(tr).Ok?
    ensures var w := QueryBounds(tr).value;
            (w.Some? && OverlapCond(r.lower, r.upper, w.value.lo, w.value.hi))
            <==> exists t :: r.lower <= t < r.upper && t in Instants(tr)
  {
    hide ParseRange, ToBounds;
    EmptyMeansNoInstant(tr);
    if !IsEmpty(tr) {
      var b := ToBounds(tr).value;
      BoundsAreTheRange(tr);
      ProperBounds(tr);
      var row := NsBounds(r.lower, r.upper, false, false);
      BoundsOverlapIsSharing(b, row);
      assert forall t :: t in Instants(tr) <==> Inside(b, t);
      assert OverlapCond(r.lower, r.upper, LowerParam(b), UpperParam(b)) <==> BoundsOverlap(b, row);
      if BoundsOverlap(b, row) {
        var t :| Inside(b, t) && Inside(row, t);
        assert r.lower <= t < r.upper && t in Instants(tr);
      }
      forall t | r.lower <= t < r.upper && t in Instants(tr) ensures ShareNanosecond(b, row) {
        assert Inside(b, t) && Inside(row, t);
      }
    }
  }

  /** The rows that belong in the answer past a position. */
  ghost function MatchingPast(db: Db, q: ListQuery, after: Option<Key>): set<Row> {
    set r | r in db.segments && Matches(r, q) && Past(q.reverse, after, r)
  }

  /** Ascending by lower bound, or descending when the listing is reversed. */
  predicate Ordered(reverse: bool, rows: seq<Row>) {
    forall i, j :: 0 <= i < j < |rows| ==> if reverse then rows[j].lower < rows[i].lower else rows[i].lower < rows[j].lower
  }

  /** What an answered page is: the first rows, in listing order, of all the matching
      rows past the cursor, as many as asked for up to a thousand, or all if there are
      no more. It names a next position exactly when it left some out; that position
      is its last item's, and what was left out lies past it. */
  lemma PageIsExact(db: Db, q: ListQuery, after: Option<Key>, limit: int)
    requires Inv(db) && (q.timerange.Some? ==> WellFormed(q.timerange.value))
    requires ListSegments(db, q, after, limit).Ok?
    ensures var p := ListSegments(db, q, after, limit).value;
            var all := MatchingPast(db, q, after);
            var most := if 1 <= limit <= 1000 then limit else 1000;
            && StrictlySorted(q.reverse, p.items) && Ordered(q.reverse, p.items)
            && |p.items| == (if |all| <= most then |all| else most)
            && (forall r :: r in p.items ==> r in all)
            && (p.next.Some? <==> exists r :: r in all && r !in p.items)
            && (p.next.Some? ==> p.items != [] && p.next.value == KeyOf(p.items[|p.items| - 1]))
            && (forall r :: r in all && r !in p.items ==> p.next.Some? && Precedes(q.reverse, p.next.value, KeyOf(r)))
  {
    hide RowOk, QueryBounds, Listing, Matches, Precedes, Past, Sat, Cut, StrictlySorted, Ordered, Ascending, CountsOk, LinksOk;
    var w := if q.timerange.None? then None else QueryBounds(q.timerange.value).value;
    var all := MatchingPast(db, q, after);
    forall r | r in db.segments
      ensures Matches(r, q) <==> (q.timerange.None? || w.Some?)
                                 && Sat(Listed(q.flowId, w, q.objectId, q.reverse, None), r)
    {
      MatchesBySql(r, q);
    }
    if q.timerange.None? || w.Some? {
      var found := Listing(db.segments, q, w, after);
      ListingMembers(db, q, w, after);
      assert all == set r | r in found;
      SortedSize(q.reverse, found);
      CutSorted(q.reverse, found, EffectiveLimit(limit));
      MatchesOfFlow(db, q);
      SortedIsOrdered(db, q.flowId, q.reverse, Cut(found, EffectiveLimit(limit)).items);
    } else {
      assert all == {};
      assert StrictlySorted(q.reverse, []) && Ordered(q.reverse, []) by { EmptyIsSorted(q.reverse); }
    }
  }

  /** A strictly sorted sequence has as many members as places. */
  lemma {:induction false} SortedSize(reverse: bool, rows: seq<Row>)
    requires StrictlySorted(reverse, rows)
    ensures |set r | r in rows| == |rows|
  {
    if rows == [] {
      assert (set r | r in rows) == {};
    } else {
      var front, last := rows[..|rows| - 1], rows[|rows| - 1];
      SortedSize(reverse, front);
      assert last !in front;
      assert (set r | r in rows) == (set r | r in front) + {last};
    }
  }

  /** No two rows of a flow start together, so the order is one by lower bound. */
  lemma SortedIsOrdered(db: Db, f: Uuid, reverse: bool, rows: seq<Row>)
    requires RowsOk(db.segments) && StrictlySorted(reverse, rows)
    requires forall r :: r in rows ==> r in db.segments && r.flowId == f
    ensures Ordered(reverse, rows)
  {
    hide ParseRange, ToBounds;
    forall i, j | 0 <= i < j < |rows|
      ensures if reverse then rows[j].lower < rows[i].lower else rows[i].lower < rows[j].lower
    {
      assert rows[i] in rows && rows[j] in rows;
      assert RowOk(rows[i]) && RowOk(rows[j]);
      assert rows[i].id != rows[j].id ==> Apart(rows[i], rows[j]);
    }
  }

  /** A page is answered exactly for a known flow and a range that can be compared. */
  lemma ListVerdict(db: Db, q: ListQuery, after: Option<Key>, limit: int)
    requires q.timerange.Some? ==> WellFormed(q.timerange.value)
    ensures var r := ListSegments(db, q, after, limit);
            if q.flowId !in db.flows then r == Err(UnknownFlow)
            else if q.timerange.Some? && Instants(q.timerange.value) != iset{} && !Representable(q.timerange.value)
            then r == Err(BadTimerange(OutOfRange))
            else r.Ok?
  {
    hide Listing, Cut, ToBounds, Representable;
    if q.timerange.Some? {
      EmptyMeansNoInstant(q.timerange.value);
      BoundsAreTheRange(q.timerange.value);
      var b := ToBounds(q.timerange.value);
      assert b.Err? ==> b.error.EmptyRange? || b.error.OutOfRange?;
    }
  }

  lemma EmptyIsSorted(reverse: bool)
    ensures StrictlySorted(reverse, []) && Ordered(reverse, [])
  {
  }

  /** ORDER BY over WHERE: strictly ordered, and exactly the rows past the cursor. */
  lemma ListingMembers(db: Db, q: ListQuery, w: Option<Window>, after: Option<Key>)
    requires Ascending(db.segments, db.nextId)
    ensures StrictlySorted(q.reverse, Listing(db.segments, q, w, after))
    ensures forall r :: r in Listing(db.segments, q, w, after) <==>
              r in db.segments && Past(q.reverse, after, r) && Sat(Listed(q.flowId, w, q.objectId, q.reverse, None), r)
  {
    hide Sort, Filter;
    var c := Listed(q.flowId, w, q.objectId, q.reverse, after);
    FilterMember(db.segments, c, true);
    FilterAscending(db.segments, c, true, db.nextId);
    SortSorts(q.reverse, Filter(db.segments, c, true), db.nextId);
  }

  lemma MatchesBySql(r: Row, q: ListQuery)
    requires RowOk(r) && (q.timerange.Some? ==> WellFormed(q.timerange.value) && QueryBounds(q.timerange.value).Ok?)
    ensures var w := if q.timerange.None? then None else QueryBounds(q.timerange.value).value;
            Matches(r, q) <==> (q.timerange.None? || w.Some?)
                               && Sat(Listed(q.flowId, w, q.objectId, q.reverse, None), r)
  {
    hide RowOk, QueryBounds;
    if q.timerange.Some? { OverlapIsSharing(r, q.timerange.value); }
  }

  lemma CutSorted(reverse: bool, found: seq<Row>, n: nat)
    requires n > 0 && StrictlySorted(reverse, found)
    ensures var p := Cut(found, n);
            && StrictlySorted(reverse, p.items) && |p.items| == (if |found| <= n then |found| else n)
            && (forall r :: r in p.items ==> r in found)
            && (p.next.Some? <==> exists r :: r in found && r !in p.items)
            && (p.next.Some? ==> p.items != [] && p.next.value == KeyOf(p.items[|p.items| - 1]))
            && (forall r :: r in found ==> r in p.items || (p.next.Some? && Precedes(reverse, p.next.value, KeyOf(r))))
  {
    if |found| > n {
      assert found[n] in found && found[n] !in found[..n];
      forall r | r in found && r !in found[..n] ensures Precedes(reverse, KeyOf(found[n - 1]), KeyOf(r)) {
        var i :| 0 <= i < |found| && found[i] == r;
        assert found == found[..n] + found[n..];
      }
    }
  }

  // ----- Following cursors on a store that stands still -----

  /** The SQL window of a query that has one. */
  function WindowOf(q: ListQuery): Option<Window> {
    if q.timerange.None? then None
    else
      var w := QueryBounds(q.timerange.value);
      if w.Err? then None else w.value
  }

  /** All pages from a position on, fetched one after the other. That it is a
      function at all is the proof that the walk ends. */
  function Walk(db: Db, q: ListQuery, after: Option<Key>, limit: int): Result<seq<Row>, ListError>
    requires Ascending(db.segments, db.nextId)
    decreases |Listing(db.segments, q, WindowOf(q), after)|
  {
    hide QueryBounds, Listing;
    var p := ListSegments(db, q, after, limit);
    if p.Err? then Err(p.error)
    else if p.value.next.None? then Ok(p.value.items)
    else
      ListingPast(db.segments, db.nextId, q, WindowOf(q), after, EffectiveLimit(limit) - 1);
      var rest := Walk(db, q, p.value.next, limit);
      if rest.Err? then rest else Ok(p.value.items + rest.value)
  }

  /** Listing past the key of the k-th match is dropping the first k + 1 matches. */
  lemma ListingPast(rows: seq<Row>, nextId: nat, q: ListQuery, w: Option<Window>, after: Option<Key>, k: nat)
    requires Ascending(rows, nextId) && k < |Listing(rows, q, w, after)|
    ensures var all := Listing(rows, q, w, after);
            Listing(rows, q, w, Some(KeyOf(all[k]))) == all[k + 1..]
  {
    hide Sort, Filter;
    var all := Listing(rows, q, w, after);
    var c := Listed(q.flowId, w, q.objectId, q.reverse, after);
    FilterMember(rows, c, true);
    FilterAscending(rows, c, true, nextId);
    SortSorts(q.reverse, Filter(rows, c, true), nextId);
    var c' := Listed(q.flowId, w, q.objectId, q.reverse, Some(KeyOf(all[k])));
    FilterMember(rows, c', true);
    FilterAscending(rows, c', true, nextId);
    SortSorts(q.reverse, Filter(rows, c', true), nextId);
    assert all[k] in all;
    assert all == all[..k + 1] + all[k + 1..];
    forall r ensures r in all[k + 1..] <==> r in Listing(rows, q, w, Some(KeyOf(all[k]))) {
      if r in all {
        var i :| 0 <= i < |all| && all[i] == r;
        assert i > k ==> all[k + 1..][i - k - 1] == r;
      }
    }
    SortedIsUnique(q.reverse, all[k + 1..], Listing(rows, q, w, Some(KeyOf(all[k]))));
  }

  predicate Answerable(db: Db, q: ListQuery) {
    q.flowId in db.flows && (q.timerange.None? || QueryBounds(q.timerange.value).Ok?)
  }

  /** Following cursors with any page size yields the whole listing, once, in order. */
  lemma {:induction false} WalkIsListing(db: Db, q: ListQuery, after: Option<Key>, limit: int)
    requires Ascending(db.segments, db.nextId) && Answerable(db, q) && (q.timerange.Some? ==> !IsEmpty(q.timerange.value))
    ensures Walk(db, q, after, limit) == Ok(Listing(db.segments, q, WindowOf(q), after))
    decreases |Listing(db.segments, q, WindowOf(q), after)|
  {
    assert q.timerange.Some? ==> QueryBounds(q.timerange.value).value.Some?;
    hide QueryBounds, Listing;
    var all, n := Listing(db.segments, q, WindowOf(q), after), EffectiveLimit(limit);
    if |all| <= n {
    } else {
      ListingPast(db.segments, db.nextId, q, WindowOf(q), after, n - 1);
      WalkIsListing(db, q, Some(KeyOf(all[n - 1])), limit);
      assert all == all[..n] + all[n..];
    }
  }

  /** The walk of a standing store, whatever the page size: it is answered exactly
      when the flow exists and the range can be stored, and then it holds every
      matching segment once, in listing order, and nothing else. */
  lemma WholeWalk(db: Db, q: ListQuery, limit: int)
    requires Inv(db) && (q.timerange.Some? ==> WellFormed(q.timerange.value))
    ensures Walk(db, q, None, limit).Ok? <==> Answerable(db, q)
    ensures var walk := Walk(db, q, None, limit);
            walk.Ok? ==> && StrictlySorted(q.reverse, walk.value) && Ordered(q.reverse, walk.value)
                         && forall r :: r in walk.value <==> r in db.segments && Matches(r, q)
  {
    hide RowOk, Listing, Matches, Precedes, Sat, ToBounds, StrictlySorted, Ordered;
    if Answerable(db, q) {
      if q.timerange.Some? && IsEmpty(q.timerange.value) {
        forall r | r in db.segments ensures !Matches(r, q) { MatchesBySql(r, q); }
        EmptyIsSorted(q.reverse);
      } else {
        WalkIsListing(db, q, None, limit);
        ListingMembers(db, q, WindowOf(q), None);
        forall r | r in db.segments { MatchesBySql(r, q); }
        var walk := Walk(db, q, None, limit).value;
        assert forall r :: r in walk ==> r in db.segments && r.flowId == q.flowId by { MatchesOfFlow(db, q); }
        SortedIsOrdered(db, q.flowId, q.reverse, walk);
      }
    }
  }

  lemma MatchesOfFlow(db: Db, q: ListQuery)
    ensures forall r :: r in db.segments && Matches(r, q) ==> r.flowId == q.flowId
  {
  }

  /** The rows of one answer, parsed one by one. The extra row only decides whether
      there is a next page, and the page's span comes from its items. */
  method BuildPage(rows: seq<Row>, n: nat) returns (p: Page, span: Option<TimeRange>)
    requires n > 0 && |rows| <= n + 1 && forall i :: 0 <= i < |rows| ==> RowOk(rows[i])
    ensures p == Cut(rows, n)
    ensures span.Some? <==> p.items != []
    ensures span.Some? ==> WellFormed(span.value) && SpansRows(Instants(span.value), p.items)
  {
    hide RowOk, ParseRange, SpansRows;
    var items: seq<Item> := [];
    for i := 0 to |rows|
      invariant |items| == i && forall k :: 0 <= k < i ==> items[k].row == rows[k] && ItemOk(items[k])
    {
      RowParses(rows[i]);
      items := items + [Item(rows[i], ParseRange(rows[i].raw).value)];
    }
    var next := None;
    if |items| > n {
      items := items[..n];
      next := Some(KeyOf(items[n - 1].row));
    }
    assert RowsOf(items) == Cut(rows, n).items;
    p := Page(RowsOf(items), next);
    span := None;
    if items != [] {
      var s := PageSpan(items);
      span := Some(s);
    }
  }

  /** ListSegments as it runs, asking for one row more than a page. */
  method FetchPage(db: Db, q: ListQuery, after: Option<Key>, limit: int)
    returns (r: Result<Page, ListError>, span: Option<TimeRange>)
    requires Inv(db)
    ensures r == ListSegments(db, q, after, limit)
    ensures r.Ok? ==> (span.Some? <==> r.value.items != [])
    ensures r.Ok? && span.Some? ==> WellFormed(span.value) && SpansRows(Instants(span.value), r.value.items)
  {
    hide RowOk, QueryBounds, Listing, SpansRows, Cut, CountsOk, LinksOk, Sat, Precedes, StrictlySorted, Holds;
    if q.flowId !in db.flows { return Err(UnknownFlow), None; }
    var n := EffectiveLimit(limit);
    var window := None;
    if q.timerange.Some? {
      var w := QueryBounds(q.timerange.value);
      if w.Err? { return Err(BadTimerange(w.error)), None; }
      if w.value.None? { return Ok(Page([], None)), None; }
      window := w.value;
    }
    var found := Listing(db.segments, q, window, after);
    ListingMembers(db, q, window, after);
    assert forall i :: 0 <= i < |found| ==> found[i] in found;
    OneMoreIsEnough(found, n);
    var p, s := BuildPage(Limited(found, n + 1), n);
    return Ok(p), s;
  }

  lemma RowParses(r: Row)
    requires RowOk(r)
    ensures ParseRange(r.raw).Ok?
  {
    hide ParseRange, ToBounds;
  }

  function Limited(rows: seq<Row>, n: nat): seq<Row> { if |rows| <= n then rows else rows[..n] }

  lemma OneMoreIsEnough(found: seq<Row>, n: nat)
    requires n > 0
    ensures Cut(Limited(found, n + 1), n) == Cut(found, n)
  {
    if |found| > n + 1 { assert found[..n + 1][..n] == found[..n]; }
  }

  // ----- Following cursors while the store changes -----

  /** The later tables hold rows of the earlier ones and rows with new ids. */
  predicate Evolved(db: Db, later: Db) {
    db.nextId <= later.nextId && forall r :: r in later.segments ==> r in db.segments || db.nextId <= r.id
  }

  /** A walk: page i is read from tables i, past the position page i - 1 named. */
  ghost predicate IsWalk(dbs: seq<Db>, q: ListQuery, limits: seq<int>, pages: seq<Page>) {
    && |dbs| == |limits| == |pages| > 0 && (q.timerange.Some? ==> WellFormed(q.timerange.value))
    && (forall i :: 0 <= i < |dbs| ==> Inv(dbs[i]))
    && (forall i, j :: 0 <= i < j < |dbs| ==> Evolved(dbs[i], dbs[j]))
    && (forall i :: 0 <= i < |pages| - 1 ==> pages[i].next.Some?)
    && (forall i :: 0 <= i < |pages| ==> ListSegments(dbs[i], q, CursorAt(pages, i), limits[i]) == Ok(pages[i]))
  }

  function CursorAt(pages: seq<Page>, i: nat): Option<Key>
    requires i < |pages|
  {
    if i == 0 then None else pages[i - 1].next
  }

  /** What PageIsExact says of the pages of a walk, one by one. */
  ghost predicate WalkPage(db: Db, q: ListQuery, after: Option<Key>, p: Page) {
    && StrictlySorted(q.reverse, p.items)
    && (forall r :: r in p.items ==> r in db.segments && Past(q.reverse, after, r))
    && (p.next.Some? ==> p.items != [] && p.next.value == KeyOf(p.items[|p.items| - 1]))
    && (forall r :: r in db.segments && Matches(r, q) && Past(q.reverse, after, r) ==>
          r in p.items || (p.next.Some? && Precedes(q.reverse, p.next.value, KeyOf(r))))
  }

  lemma PagesOfWalk(dbs: seq<Db>, q: ListQuery, limits: seq<int>, pages: seq<Page>, i: nat)
    requires IsWalk(dbs, q, limits, pages) && i < |pages|
    ensures |dbs| == |pages| && (i < |pages| - 1 ==> pages[i].next.Some?)
    ensures WalkPage(dbs[i], q, CursorAt(pages, i), pages[i])
  {
    hide Inv, ListSegments, Matches, Evolved;
    PageIsExact(dbs[i], q, CursorAt(pages, i), limits[i]);
  }

  lemma NoItemTwice(dbs: seq<Db>, q: ListQuery, limits: seq<int>, pages: seq<Page>, i: nat, j: nat, a: nat, b: nat)
    requires IsWalk(dbs, q, limits, pages) && i <= j < |pages|
    requires a < |pages[i].items| && b < |pages[j].items| && (i == j ==> a < b)
    ensures Precedes(q.reverse, KeyOf(pages[i].items[a]), KeyOf(pages[j].items[b]))
    ensures pages[i].items[a].id != pages[j].items[b].id
  {
    hide IsWalk, Inv;
    LaterPagesFollow(dbs, q, limits, pages, i, j, a, b);
    var x, y := pages[i].items[a], pages[j].items[b];
    PagesOfWalk(dbs, q, limits, pages, i);
    PagesOfWalk(dbs, q, limits, pages, j);
    assert x in pages[i].items && y in pages[j].items;
    if x.id == y.id {
      TablesOfWalk(dbs, q, limits, pages, i, j);
      SameIdSameRow(dbs[i], dbs[j], x, y);
    }
  }

  lemma TablesOfWalk(dbs: seq<Db>, q: ListQuery, limits: seq<int>, pages: seq<Page>, i: nat, j: nat)
    requires IsWalk(dbs, q, limits, pages) && i <= j < |pages|
    ensures |dbs| == |pages| && Inv(dbs[i]) && (dbs[j] == dbs[i] || Evolved(dbs[i], dbs[j]))
  {
    hide Inv, ListSegments, Evolved;
  }

  lemma SameIdSameRow(db: Db, later: Db, x: Row, y: Row)
    requires Inv(db) && (later == db || Evolved(db, later))
    requires x in db.segments && y in later.segments && x.id == y.id
    ensures x == y
  {
    hide RowsOk, CountsOk, LinksOk;
    var k :| 0 <= k < |db.segments| && db.segments[k] == x;
    assert y in db.segments;
    var l :| 0 <= l < |db.segments| && db.segments[l] == y;
    assert k == l;
  }

  /** The last item of a page precedes every item of the next. */
  lemma NextPageFollows(dbs: seq<Db>, q: ListQuery, limits: seq<int>, pages: seq<Page>, j: nat, b: nat)
    requires IsWalk(dbs, q, limits, pages) && 0 < j < |pages| && b < |pages[j].items|
    ensures pages[j - 1].items != []
    ensures Precedes(q.reverse, KeyOf(pages[j - 1].items[|pages[j - 1].items| - 1]), KeyOf(pages[j].items[b]))
  {
    hide IsWalk, Matches;
    PagesOfWalk(dbs, q, limits, pages, j - 1);
    PagesOfWalk(dbs, q, limits, pages, j);
    assert pages[j].items[b] in pages[j].items;
  }

  lemma {:induction false} LaterPagesFollow(dbs: seq<Db>, q: ListQuery, limits: seq<int>, pages: seq<Page>, i: nat, j: nat, a: nat, b: nat)
    requires IsWalk(dbs, q, limits, pages) && i <= j < |pages|
    requires a < |pages[i].items| && b < |pages[j].items| && (i == j ==> a < b)
    ensures Precedes(q.reverse, KeyOf(pages[i].items[a]), KeyOf(pages[j].items[b]))
    decreases j
  {
    hide IsWalk, Matches;
    if i == j {
      PagesOfWalk(dbs, q, limits, pages, j);
    } else {
      NextPageFollows(dbs, q, limits, pages, j, b);
      var last := |pages[j - 1].items| - 1;
      if i < j - 1 || a < last { LaterPagesFollow(dbs, q, limits, pages, i, j - 1, a, last); }
    }
  }

  lemma PresentIsReturned(dbs: seq<Db>, q: ListQuery, limits: seq<int>, pages: seq<Page>, r: Row)
    requires IsWalk(dbs, q, limits, pages) && pages[|pages| - 1].next.None?
    requires Matches(r, q) && forall i :: 0 <= i < |dbs| ==> r in dbs[i].segments
    ensures exists i :: 0 <= i < |pages| && r in pages[i].items
  {
    hide Inv, ListSegments, Evolved, Matches;
    ReturnedFrom(dbs, q, limits, pages, r, 0);
  }

  lemma {:induction false} ReturnedFrom(dbs: seq<Db>, q: ListQuery, limits: seq<int>, pages: seq<Page>, r: Row, i: nat)
    requires IsWalk(dbs, q, limits, pages) && pages[|pages| - 1].next.None? && i < |pages|
    requires Matches(r, q) && forall k :: 0 <= k < |dbs| ==> r in dbs[k].segments
    requires Past(q.reverse, CursorAt(pages, i), r)
    ensures exists k :: i <= k < |pages| && r in pages[k].items
    decreases |pages| - i
  {
    hide IsWalk, Matches;
    PagesOfWalk(dbs, q, limits, pages, i);
    if r in pages[i].items {
    } else {
      ReturnedFrom(dbs, q, limits, pages, r, i + 1);
    }
  }

  /** The tables after a history of runs, each a sequence of transactions. */
  function After(history: seq<seq<Event>>): Db {
    if history == [] then EMPTY_DB else Run(After(history[..|history| - 1]), history[|history| - 1])
  }

  /** The tables each page is read from: the first page after the first run of the
      history, each later page after one more run. */
  function TablesOf(history: seq<seq<Event>>): seq<Db> {
    seq(|history|, i requires 0 <= i < |history| => After(history[..i + 1]))
  }

  /** A walk with arbitrary transactions before it and between its pages. */
  ghost predicate WalkDuring(history: seq<seq<Event>>, q: ListQuery, limits: seq<int>, pages: seq<Page>) {
    && |history| == |limits| == |pages| > 0 && (q.timerange.Some? ==> WellFormed(q.timerange.value))
    && (forall i :: 0 <= i < |history| ==> AllAdmissible(history[i]))
    && (forall i :: 0 <= i < |pages| - 1 ==> pages[i].next.Some?)
    && (forall i :: 0 <= i < |pages| ==> ListSegments(After(history[..i + 1]), q, CursorAt(pages, i), limits[i]) == Ok(pages[i]))
  }

  lemma {:induction false} AfterKeepsInv(history: seq<seq<Event>>)
    requires forall i :: 0 <= i < |history| ==> AllAdmissible(history[i])
    ensures Inv(After(history))
  {
    hide AllAdmissible, Run;
    if history == [] {
      ReachableInv([]);
      assert Run(EMPTY_DB, []) == EMPTY_DB by { NoEvents(EMPTY_DB); }
    } else {
      AfterKeepsInv(history[..|history| - 1]);
      RunKeepsInv(After(history[..|history| - 1]), history[|history| - 1]);
    }
  }

  lemma NoEvents(db: Db)
    ensures Run(db, []) == db
  {
  }

  lemma {:induction false} AfterEvolves(history: seq<seq<Event>>, i: nat)
    requires i <= |history|
    ensures Evolved(After(history[..i]), After(history))
  {
    hide Run;
    if i == |history| {
      assert history[..i] == history;
    } else {
      var front := history[..|history| - 1];
      AfterEvolves(front, i);
      assert front[..i] == history[..i];
      RunRows(After(front), history[|history| - 1]);
    }
  }

  lemma WalkDuringIsWalk(history: seq<seq<Event>>, q: ListQuery, limits: seq<int>, pages: seq<Page>)
    requires WalkDuring(history, q, limits, pages)
    ensures IsWalk(TablesOf(history), q, limits, pages)
  {
    hide Inv, AllAdmissible, After, Evolved, ListSegments;
    var dbs := TablesOf(history);
    forall i | 0 <= i < |dbs| ensures Inv(dbs[i]) { AfterKeepsInv(history[..i + 1]); }
    forall i, j | 0 <= i < j < |dbs| ensures Evolved(dbs[i], dbs[j]) {
      AfterEvolves(history[..j + 1], i + 1);
      assert history[..j + 1][..i + 1] == history[..i + 1];
    }
  }

  /** Whatever commits before the walk and between its pages, later items come
      strictly later in the order, and no segment is returned twice. */
  lemma NoSegmentTwice(history: seq<seq<Event>>, q: ListQuery, limits: seq<int>, pages: seq<Page>, i: nat, j: nat, a: nat, b: nat)
    requires WalkDuring(history, q, limits, pages) && i <= j < |pages|
    requires a < |pages[i].items| && b < |pages[j].items| && (i == j ==> a < b)
    ensures Precedes(q.reverse, KeyOf(pages[i].items[a]), KeyOf(pages[j].items[b]))
    ensures pages[i].items[a].id != pages[j].items[b].id
  {
    hide WalkDuring, IsWalk;
    WalkDuringIsWalk(history, q, limits, pages);
    NoItemTwice(TablesOf(history), q, limits, pages, i, j, a, b);
  }

  /** Whatever commits between its pages, a finished walk has returned every matching
      row that was there for each of them. */
  lemma PresentThroughoutIsReturned(history: seq<seq<Event>>, q: ListQuery, limits: seq<int>, pages: seq<Page>, r: Row)
    requires WalkDuring(history, q, limits, pages) && pages[|pages| - 1].next.None?
    requires Matches(r, q) && forall i :: 0 <= i < |history| ==> r in TablesOf(history)[i].segments
    ensures exists i :: 0 <= i < |pages| && r in pages[i].items
  {
    hide IsWalk, ListSegments, Matches, After;
    WalkDuringIsWalk(history, q, limits, pages);
    PresentIsReturned(TablesOf(history), q, limits, pages, r);
  }
}
