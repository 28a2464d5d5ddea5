/** Timestamps and time ranges, as internal/timerange/timerange.go computes
    with them, together with their meaning: a set of whole nanoseconds.
    Nanoseconds are unbounded integers here, so a range such as `_X)` whose end
    is the smallest timestamp still has instants. */
module TimeRanges {
  import opened Base

  const NS_PER_SEC: int := 1_000_000_000

  type Nanos = x: int | 0 <= x < NS_PER_SEC

  /** A floor-normalised TAI timestamp. */
  datatype Timestamp = Timestamp(seconds: Int64, nanoseconds: Nanos)

  datatype BoundType = Inclusive | Exclusive | Unbounded

  datatype TimeRange = TimeRange(start: Option<Timestamp>, startType: BoundType,
                                 end: Option<Timestamp>, endType: BoundType)

  /** The canonical empty range, written `()`. */
  const EMPTY := TimeRange(None, Exclusive, None, Exclusive)

  const ETERNITY := TimeRange(None, Unbounded, None, Unbounded)

  // ----- Operations -----

  predicate Before(a: Timestamp, b: Timestamp) {
    if a.seconds != b.seconds then a.seconds < b.seconds else a.nanoseconds < b.nanoseconds
  }

  /** One nanosecond later. The precondition is the source's promise that a
      later timestamp exists; the result type then rules overflow out. */
  function Next(ts: Timestamp): (r: Timestamp)
    requires exists later :: Before(ts, later)
    ensures Instant(r) == Instant(ts) + 1
  {
    if ts.nanoseconds < NS_PER_SEC - 1 then Timestamp(ts.seconds, ts.nanoseconds + 1)
    else Timestamp(ts.seconds + 1, 0)
  }

  predicate IsEmpty(tr: TimeRange) {
    if tr.start.None? && tr.end.None? then tr.startType != Unbounded || tr.endType != Unbounded
    else if tr.start.None? || tr.end.None? then false
    else if Before(tr.end.value, tr.start.value) then true
    else if tr.start == tr.end then tr.startType == Exclusive || tr.endType == Exclusive
    else if tr.startType == Exclusive && tr.endType == Exclusive then
      assert Before(tr.start.value, tr.end.value);
      tr.end.value == Next(tr.start.value)
    else false
  }

  predicate IsEternity(tr: TimeRange) {
    tr.startType == Unbounded && tr.endType == Unbounded
  }

  predicate Contains(tr: TimeRange, ts: Timestamp) {
    if IsEmpty(tr) then false
    else if IsEternity(tr) then true
    else
      && (tr.start.Some? && tr.startType == Inclusive ==> !Before(ts, tr.start.value))
      && (tr.start.Some? && tr.startType == Exclusive ==> !Before(ts, tr.start.value) && ts != tr.start.value)
      && (tr.end.Some? && tr.endType == Inclusive ==> !Before(tr.end.value, ts))
      && (tr.end.Some? && tr.endType == Exclusive ==> !Before(tr.end.value, ts) && tr.end.value != ts)
  }

  // ----- Meaning -----

  /** What parsing produces: a bound is absent exactly when its side is
      unbounded, except in `()`. */
  predicate WellFormed(tr: TimeRange) {
    || tr == EMPTY
    || ((tr.start.None? <==> tr.startType == Unbounded) && (tr.end.None? <==> tr.endType == Unbounded))
  }

  /** The nanosecond a timestamp names. */
  function Instant(ts: Timestamp): int {
    ts.seconds * NS_PER_SEC + ts.nanoseconds
  }

  predicate AfterStart(tr: TimeRange, t: int) {
    tr.start.Some? ==> if tr.startType == Exclusive then Instant(tr.start.value) < t else Instant(tr.start.value) <= t
  }

  predicate BeforeEnd(tr: TimeRange, t: int) {
    tr.end.Some? ==> if tr.endType == Exclusive then t < Instant(tr.end.value) else t <= Instant(tr.end.value)
  }

  /** Membership of a nanosecond in a well-formed range. */
  predicate Holds(tr: TimeRange, t: int) {
    tr != EMPTY && AfterStart(tr, t) && BeforeEnd(tr, t)
  }

  ghost function Instants(tr: TimeRange): iset<int> {
    iset t | Holds(tr, t)
  }

  /** The nanoseconds two ranges share. */
  ghost predicate ShareInstant(a: TimeRange, b: TimeRange) {
    exists t :: Holds(a, t) && Holds(b, t)
  }

  // ----- Order -----

  lemma BeforeIsOrder(a: Timestamp, b: Timestamp)
    ensures Before(a, b) <==> Instant(a) < Instant(b)
    ensures a == b <==> Instant(a) == Instant(b)
  {
  }

  // ----- Emptiness and membership -----

  /** A nanosecond inside a well-formed range that the code calls non-empty. */
  function Witness(tr: TimeRange): (t: int)
    requires WellFormed(tr) && !IsEmpty(tr)
    ensures Holds(tr, t)
  {
    if tr.start.Some? then
      if tr.startType == Exclusive then Instant(tr.start.value) + 1 else Instant(tr.start.value)
    else if tr.end.Some? then Instant(tr.end.value) - 1
    else 0
  }

  lemma EmptyMeansNoInstant(tr: TimeRange)
    requires WellFormed(tr)
    ensures IsEmpty(tr) <==> Instants(tr) == iset{}
  {
    if IsEmpty(tr) {
      forall t ensures !Holds(tr, t) {}
    } else {
      assert Witness(tr) in Instants(tr);
    }
  }

  lemma ContainsIsMembership(tr: TimeRange, ts: Timestamp)
    requires WellFormed(tr)
    ensures Contains(tr, ts) <==> Instant(ts) in Instants(tr)
  {
    EmptyMeansNoInstant(tr);
  }

  // ----- Intersection -----

  datatype Side = Side(at: Option<Timestamp>, kind: BoundType)

  function Start(tr: TimeRange): Side { Side(tr.start, tr.startType) }

  function End(tr: TimeRange): Side { Side(tr.end, tr.endType) }

  /** The later of two start bounds; at the same timestamp the exclusive one. */
  function Later(a: Side, b: Side): Side {
    if a.at.None? then b
    else if b.at.None? then a
    else if Instant(a.at.value) < Instant(b.at.value) then b
    else if Instant(b.at.value) < Instant(a.at.value) then a
    else if b.kind == Exclusive then b else a
  }

  /** The earlier of two end bounds; at the same timestamp the exclusive one. */
  function Earlier(a: Side, b: Side): Side {
    if a.at.None? then b
    else if b.at.None? then a
    else if Instant(b.at.value) < Instant(a.at.value) then b
    else if Instant(a.at.value) < Instant(b.at.value) then a
    else if b.kind == Exclusive then b else a
  }

  function Joined(s: Side, e: Side): TimeRange { TimeRange(s.at, s.kind, e.at, e.kind) }

  function Canonical(tr: TimeRange): TimeRange { if IsEmpty(tr) then EMPTY else tr }

  /** The tightest start joined to the tightest end; every empty result is `()`. */
  function Meet(a: TimeRange, b: TimeRange): TimeRange {
    if IsEmpty(a) || IsEmpty(b) then EMPTY
    else Canonical(Joined(Later(Start(a), Start(b)), Earlier(End(a), End(b))))
  }

  lemma MeetDenotesIntersection(a: TimeRange, b: TimeRange)
    requires WellFormed(a) && WellFormed(b)
    ensures WellFormed(Meet(a, b))
    ensures Instants(Meet(a, b)) == Instants(a) * Instants(b)
  {
    if IsEmpty(a) || IsEmpty(b) {
      EmptyMeansNoInstant(a);
      EmptyMeansNoInstant(b);
    } else {
      var r := Joined(Later(Start(a), Start(b)), Earlier(End(a), End(b)));
      forall t ensures Holds(r, t) <==> Holds(a, t) && Holds(b, t) {}
      EmptyMeansNoInstant(r);
    }
  }

  lemma MeetIsCommutative(a: TimeRange, b: TimeRange)
    requires WellFormed(a) && WellFormed(b)
    ensures Meet(a, b) == Meet(b, a)
  {
    hide Later, Earlier, Joined;
    if !IsEmpty(a) && !IsEmpty(b) {
      LaterIsCommutative(Start(a), Start(b));
      EarlierIsCommutative(End(a), End(b));
    }
  }

  predicate Tied(s: Side) { s.at.None? <==> s.kind == Unbounded }

  lemma LaterIsAssociative(a: Side, b: Side, c: Side)
    requires Tied(a) && Tied(b) && Tied(c)
    ensures Later(Later(a, b), c) == Later(a, Later(b, c))
  {
  }

  lemma EarlierIsAssociative(a: Side, b: Side, c: Side)
    requires Tied(a) && Tied(b) && Tied(c)
    ensures Earlier(Earlier(a, b), c) == Earlier(a, Earlier(b, c))
  {
  }

  /** Associative as a value, not only as a set: empty results are canonical,
      and a non-empty result keeps the three tightest bounds on either route. */
  lemma MeetIsAssociative(a: TimeRange, b: TimeRange, c: TimeRange)
    requires WellFormed(a) && WellFormed(b) && WellFormed(c)
    ensures Meet(Meet(a, b), c) == Meet(a, Meet(b, c))
  {
    MeetTwice(a, b, c);
    MeetTwice(b, c, a);
    MeetIsCommutative(a, Meet(b, c));
    if Instants(a) * Instants(b) * Instants(c) != iset{} {
      assert Instants(a) * Instants(b) * Instants(c) == Instants(b) * Instants(c) * Instants(a);
      LaterIsAssociative(Start(a), Start(b), Start(c));
      EarlierIsAssociative(End(a), End(b), End(c));
      LaterIsCommutative(Start(a), Later(Start(b), Start(c)));
      EarlierIsCommutative(End(a), Earlier(End(b), End(c)));
    }
  }

  lemma LaterIsCommutative(a: Side, b: Side)
    requires Tied(a) && Tied(b)
    ensures Tied(Later(a, b)) && Later(a, b) == Later(b, a)
  {
  }

  lemma EarlierIsCommutative(a: Side, b: Side)
    requires Tied(a) && Tied(b)
    ensures Tied(Earlier(a, b)) && Earlier(a, b) == Earlier(b, a)
  {
  }

  /** The value of an intersection of three: `()` when they share nothing, and
      otherwise the tightest start joined to the tightest end. */
  lemma MeetTwice(a: TimeRange, b: TimeRange, c: TimeRange)
    requires WellFormed(a) && WellFormed(b) && WellFormed(c)
    ensures Meet(Meet(a, b), c) ==
            if Instants(a) * Instants(b) * Instants(c) == iset{} then EMPTY
            else Joined(Later(Later(Start(a), Start(b)), Start(c)), Earlier(Earlier(End(a), End(b)), End(c)))
  {
    MeetDenotesIntersection(a, b);
    MeetDenotesIntersection(Meet(a, b), c);
    EmptyMeansNoInstant(Meet(a, b));
    EmptyMeansNoInstant(Meet(Meet(a, b), c));
    assert IsEmpty(EMPTY);
  }

  /** The switch that picks the more restrictive start. */
  method PickStart(a: TimeRange, b: TimeRange) returns (s: Side)
    requires Tied(Start(a)) && Tied(Start(b))
    ensures s == Later(Start(a), Start(b))
  {
    if a.startType == Unbounded {
      s := Start(b);
    } else if b.startType == Unbounded {
      s := Start(a);
    } else if Before(a.start.value, b.start.value) {
      s := Start(b);
    } else if Before(b.start.value, a.start.value) {
      s := Start(a);
    } else {
      s := Side(a.start, if a.startType == Exclusive || b.startType == Exclusive then Exclusive else Inclusive);
    }
  }

  /** The switch that picks the more restrictive end. */
  method PickEnd(a: TimeRange, b: TimeRange) returns (e: Side)
    requires Tied(End(a)) && Tied(End(b))
    ensures e == Earlier(End(a), End(b))
  {
    if a.endType == Unbounded {
      e := End(b);
    } else if b.endType == Unbounded {
      e := End(a);
    } else if Before(b.end.value, a.end.value) {
      e := End(b);
    } else if Before(a.end.value, b.end.value) {
      e := End(a);
    } else {
      e := Side(a.end, if a.endType == Exclusive || b.endType == Exclusive then Exclusive else Inclusive);
    }
  }

  /** Intersect of internal/timerange/timerange.go. Its last two tests never fire. */
  method Intersect(a: TimeRange, b: TimeRange) returns (r: TimeRange)
    requires WellFormed(a) && WellFormed(b)
    ensures r == Meet(a, b)
  {
    if IsEmpty(a) || IsEmpty(b) { return EMPTY; }
    if IsEternity(a) { return b; }
    if IsEternity(b) { return a; }
    var s := PickStart(a, b);
    var e := PickEnd(a, b);
    r := Joined(s, e);
    if IsEmpty(r) { return EMPTY; }
    if s.at.Some? && e.at.Some? {
      if Before(e.at.value, s.at.value) { return EMPTY; }
      if e.at == s.at && (s.kind == Exclusive || e.kind == Exclusive) { return EMPTY; }
    }
  }

  predicate Overlaps(a: TimeRange, b: TimeRange) {
    !IsEmpty(Meet(a, b))
  }

  lemma OverlapsMeansSharedInstant(a: TimeRange, b: TimeRange)
    requires WellFormed(a) && WellFormed(b)
    ensures Overlaps(a, b) <==> ShareInstant(a, b)
  {
    MeetDenotesIntersection(a, b);
    EmptyMeansNoInstant(Meet(a, b));
    if Overlaps(a, b) {
      assert Witness(Meet(a, b)) in Instants(a) * Instants(b);
    } else {
      forall t ensures !(Holds(a, t) && Holds(b, t)) {
        assert t !in Instants(a) * Instants(b);
      }
    }
  }
}
