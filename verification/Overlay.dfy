/** Forking a flow with a slate over part of its timeline: the nanosecond helpers of
    tools/internal/opentamsclient/timerange.go, whose arithmetic wraps around, and
    overlaySegments of tools/opentamsedit/fork.go. */
module Overlay {
  import opened Base
  import opened TimeRanges
  import opened TimeRangeText
  import opened Bounds
  import opened StoreSpec

  // ----- Nanoseconds and text -----

  function FormatTS(ns: Int64): string {
    var s, n := TruncDiv(ns, NS_PER_SEC), TruncMod(ns, NS_PER_SEC);
    if ns < 0 && n != 0 then Format(Timestamp(s - 1, n + NS_PER_SEC)) else Format(Timestamp(s, n))
  }

  /** The caller guarantees a forward, non-empty range; the source panics otherwise. */
  function HalfOpenRange(startNs: Int64, endNs: Int64): string
    requires startNs < endNs
  {
    "[" + FormatTS(startNs) + "_" + FormatTS(endNs) + ")"
  }

  /** Seconds times a billion plus nanoseconds, in wrapping int64. */
  function WrappedNanos(ts: Timestamp): Int64 {
    Wrap64(Wrap64(ts.seconds * NS_PER_SEC) + ts.nanoseconds)
  }

  datatype NsRange = NsRange(start: Int64, end: Int64)

  /** An open side is the end of int64. Nothing that parses is refused. */
  function ParseNs(s: string): Result<NsRange, ParseError> {
    var tr := ParseRange(s);
    if tr.Err? then Err(tr.error)
    else
      var lo := if tr.value.start.None? then MIN64
                else Wrap64(WrappedNanos(tr.value.start.value) + if tr.value.startType == Exclusive then 1 else 0);
      var hi := if tr.value.end.None? then MAX64
                else Wrap64(WrappedNanos(tr.value.end.value) + if tr.value.endType == Inclusive then 1 else 0);
      Ok(NsRange(lo, hi))
  }

  lemma WrapOnce(x: int, y: int)
    ensures Wrap64(Wrap64(x) + y) == Wrap64(x + y)
    ensures Fits(x) <==> Wrap64(x) == x
  {
  }

  /** The wrap-around cancels: the result is the instant exactly when that fits. */
  lemma WrappedIsExact(ts: Timestamp, add: int)
    ensures Wrap64(WrappedNanos(ts) + add) == Instant(ts) + add <==> Fits(Instant(ts) + add)
  {
    hide Wrap64;
    WrapOnce(ts.seconds * NS_PER_SEC, ts.nanoseconds);
    WrapOnce(Instant(ts), add);
    WrapOnce(Instant(ts) + add, 0);
  }

  lemma FormatTSIsDuration(ns: Int64)
    ensures FormatTS(ns) == Format(FromDuration(ns)) && Instant(FromDuration(ns)) == ns
  {
    hide Format;
  }

  /** A range printed from int64 nanoseconds reads back as those, for every forward range. */
  lemma NsRoundTrip(a: Int64, b: Int64)
    requires a < b
    ensures ParseNs(HalfOpenRange(a, b)) == Ok(NsRange(a, b))
    ensures ParseRange(HalfOpenRange(a, b)).Ok?
            && ToBounds(ParseRange(HalfOpenRange(a, b)).value) == Ok(NsBounds(a, b, false, false))
  {
    hide ParseRange, Format, FormatTS, HalfOpenRange, RangeText, Wrap64, WrappedNanos, ToBounds, FromDuration, IsEmpty;
    FormatTSIsDuration(a);
    FormatTSIsDuration(b);
    var tr := TimeRange(Some(FromDuration(a)), Inclusive, Some(FromDuration(b)), Exclusive);
    HalfOpenText(a, b);
    RangeRoundTrip(tr);
    HalfOpenBounds(tr, a, b);
    WrappedIsExact(FromDuration(a), 0);
    WrappedIsExact(FromDuration(b), 0);
  }

  lemma HalfOpenText(a: Int64, b: Int64)
    requires a < b
    ensures HalfOpenRange(a, b) == RangeText(TimeRange(Some(FromDuration(a)), Inclusive, Some(FromDuration(b)), Exclusive))
  {
    hide Format, FormatTS;
    FormatTSIsDuration(a);
    FormatTSIsDuration(b);
    var x, y := Format(FromDuration(a)), Format(FromDuration(b));
    assert "[" + x + "_" + y + ")" == "[" + ((x + ['_'] + y) + ")");
  }

  lemma HalfOpenBounds(tr: TimeRange, a: Int64, b: Int64)
    requires a < b && tr == TimeRange(Some(FromDuration(a)), Inclusive, Some(FromDuration(b)), Exclusive)
    ensures WellFormed(tr) && !IsEmpty(tr) && ToBounds(tr) == Ok(NsBounds(a, b, false, false))
  {
    hide ToNanos;
    DurationRoundTrip(a);
    DurationRoundTrip(b);
    ToNanosIsExact(FromDuration(a));
    ToNanosIsExact(FromDuration(b));
  }

  /** On every range with bounds the wrapping reader agrees with them, and an open
      side reads as the end of int64. */
  lemma ReaderAgrees(s: string)
    requires ParseRange(s).Ok? && ToBounds(ParseRange(s).value).Ok?
    ensures var b := ToBounds(ParseRange(s).value).value;
            && ParseNs(s) == Ok(NsRange(if b.lowerUnbounded then MIN64 else b.lower, if b.upperUnbounded then MAX64 else b.upper))
            && (Bounded(b) ==> b.lower < b.upper)
  {
    hide ParseRange, Wrap64, ToNanos, WrappedNanos;
    var tr := ParseRange(s).value;
    ParsedIsWellFormed(s);
    ProperBounds(tr);
    if tr.start.Some? {
      ToNanosIsExact(tr.start.value);
      WrappedIsExact(tr.start.value, if tr.startType == Exclusive then 1 else 0);
    }
    if tr.end.Some? {
      ToNanosIsExact(tr.end.value);
      WrappedIsExact(tr.end.value, if tr.endType == Inclusive then 1 else 0);
    }
  }

  // ----- The overlay -----

  datatype FlowSegment = FlowSegment(objectId: string, timerange: string)

  /** `BackwardWindow` is the panic of HalfOpenRange. */
  datatype OverlayError = Unreadable(error: ParseError) | StraddlesStart | StraddlesEnd | BackwardWindow

  predicate Readable(s: FlowSegment) { ParseNs(s.timerange).Ok? }

  predicate AllReadable(segs: seq<FlowSegment>) { forall i :: 0 <= i < |segs| ==> Readable(segs[i]) }

  function From(s: FlowSegment): int
    requires Readable(s)
  {
    ParseNs(s.timerange).value.start
  }

  function To(s: FlowSegment): int
    requires Readable(s)
  {
    ParseNs(s.timerange).value.end
  }

  predicate Straddles(s: FlowSegment, at: int)
    requires Readable(s)
  {
    From(s) < at < To(s)
  }

  predicate Inside(s: FlowSegment, start: int, end: int)
    requires Readable(s)
  {
    start <= From(s) && To(s) <= end
  }

  /** Every segment can be read, and none crosses either end of the window. */
  predicate Aligned(parent: seq<FlowSegment>, start: int, end: int) {
    && AllReadable(parent)
    && forall i :: 0 <= i < |parent| ==> !Straddles(parent[i], start) && !Straddles(parent[i], end)
  }

  /** The segments not wholly inside the window, in order. */
  function Outside(parent: seq<FlowSegment>, start: int, end: int): seq<FlowSegment>
    requires AllReadable(parent)
  {
    if parent == [] then []
    else
      var front, last := Outside(parent[..|parent| - 1], start, end), parent[|parent| - 1];
      if Inside(last, start, end) then front else front + [last]
  }

  /** What is wrong with a segment: it cannot be read, or it crosses an end. */
  function Misfit(s: FlowSegment, start: int, end: int): Option<OverlayError> {
    if !Readable(s) then Some(Unreadable(ParseNs(s.timerange).error))
    else if From(s) < start < To(s) then Some(StraddlesStart)
    else if From(s) < end < To(s) then Some(StraddlesEnd)
    else None
  }

  method CheckAlignment(parent: seq<FlowSegment>, start: Int64, end: Int64) returns (e: Option<OverlayError>)
    ensures e.None? <==> Aligned(parent, start, end)
    ensures e.Some? ==> exists i :: 0 <= i < |parent| && Misfit(parent[i], start, end) == e
                                    && forall k :: 0 <= k < i ==> Misfit(parent[k], start, end).None?
  {
    hide ParseNs;
    for i := 0 to |parent|
      invariant forall k :: 0 <= k < i ==> Readable(parent[k])
      invariant forall k :: 0 <= k < i ==> !Straddles(parent[k], start) && !Straddles(parent[k], end)
    {
      var r := ParseNs(parent[i].timerange);
      if r.Err? { return Some(Unreadable(r.error)); }
      if r.value.start < start && r.value.end > start { return Some(StraddlesStart); }
      if r.value.start < end && r.value.end > end { return Some(StraddlesEnd); }
      assert Misfit(parent[i], start, end).None?;
    }
    return None;
  }

  method OverlaySegments(parent: seq<FlowSegment>, start: Int64, end: Int64, slate: string)
    returns (r: Result<seq<FlowSegment>, OverlayError>)
    ensures r.Ok? <==> Aligned(parent, start, end) && start < end
    ensures r == Err(BackwardWindow) <==> Aligned(parent, start, end) && end <= start
    ensures r.Ok? ==> r.value == Outside(parent, start, end) + [FlowSegment(slate, HalfOpenRange(start, end))]
  {
    hide ParseNs, HalfOpenRange;
    var e := CheckAlignment(parent, start, end);
    if e.Some? { return Err(e.value); }
    var out: seq<FlowSegment> := [];
    for i := 0 to |parent|
      invariant out == Outside(parent[..i], start, end)
    {
      assert parent[..i + 1][..i] == parent[..i];
      assert Readable(parent[i]);
      var p := ParseNs(parent[i].timerange);
      if p.value.start >= start && p.value.end <= end { continue; }
      out := out + [FlowSegment(parent[i].objectId, parent[i].timerange)];
    }
    assert parent[..|parent|] == parent;
    if end <= start { return Err(BackwardWindow); }
    out := out + [FlowSegment(slate, HalfOpenRange(start, end))];
    return Ok(out);
  }

  // ----- What the fork plays -----

  /** A segment as the server holds it: bounded, with instants, within int64. */
  predicate Stored(s: FlowSegment) {
    ParseRange(s.timerange).Ok? && ToBounds(ParseRange(s.timerange).value).Ok?
    && Bounded(ToBounds(ParseRange(s.timerange).value).value)
  }

  predicate AllStored(segs: seq<FlowSegment>) { forall s :: s in segs ==> Stored(s) }

  /** The instants at which a segment plays. */
  ghost function At(s: FlowSegment): iset<int>
    requires Stored(s)
  {
    Instants(ParseRange(s.timerange).value)
  }

  ghost predicate Disjoint(segs: seq<FlowSegment>)
    requires AllStored(segs)
  {
    forall i, j :: 0 <= i < j < |segs| ==> At(segs[i]) !! At(segs[j])
  }

  /** The object plays at the instant. */
  ghost predicate Plays(segs: seq<FlowSegment>, t: int, o: string)
    requires AllStored(segs)
  {
    exists s :: s in segs && t in At(s) && s.objectId == o
  }

  /** The client reads a stored segment as its own instants, wrap-around or not. */
  lemma StoredReads(s: FlowSegment)
    requires Stored(s)
    ensures Readable(s) && From(s) < To(s) && forall t :: t in At(s) <==> From(s) <= t < To(s)
  {
    hide ParseRange, ToBounds, ParseNs;
    ReaderAgrees(s.timerange);
    ParsedIsWellFormed(s.timerange);
    BoundsAreTheRange(ParseRange(s.timerange).value);
    assert forall t :: t in At(s) <==> t in Interval(ToBounds(ParseRange(s.timerange).value).value);
  }

  lemma {:induction false} OutsideMembers(parent: seq<FlowSegment>, start: int, end: int)
    requires AllReadable(parent)
    ensures forall s :: s in Outside(parent, start, end) <==> s in parent && !Inside(s, start, end)
  {
    hide Readable, From, To;
    if parent == [] {
    } else {
      OutsideMembers(parent[..|parent| - 1], start, end);
      assert parent == parent[..|parent| - 1] + [parent[|parent| - 1]];
    }
  }

  lemma {:induction false} OutsideDisjoint(parent: seq<FlowSegment>, start: int, end: int)
    requires AllReadable(parent) && AllStored(parent) && Disjoint(parent)
    ensures AllStored(Outside(parent, start, end)) && Disjoint(Outside(parent, start, end))
  {
    hide Readable, From, To, Stored, At;
    OutsideMembers(parent, start, end);
    if parent == [] {
    } else {
      var front, last := parent[..|parent| - 1], parent[|parent| - 1];
      OutsideDisjoint(front, start, end);
      OutsideMembers(front, start, end);
      var kept := Outside(front, start, end);
      forall i | 0 <= i < |kept| ensures At(kept[i]) !! At(last) {
        assert kept[i] in kept;
        var k :| 0 <= k < |front| && front[k] == kept[i];
        assert At(parent[k]) !! At(parent[|parent| - 1]);
      }
    }
  }

  /** The fork plays the slate at every instant of the window and exactly what the
      parent plays at every other instant, gaps included, and its segments share no
      instant. */
  lemma OverlayMeaning(parent: seq<FlowSegment>, start: Int64, end: Int64, slate: string)
    requires AllStored(parent) && Disjoint(parent) && Aligned(parent, start, end) && start < end
    ensures var out := Outside(parent, start, end) + [FlowSegment(slate, HalfOpenRange(start, end))];
            && AllStored(out) && Disjoint(out)
            && forall t, o :: Plays(out, t, o) <==> if start <= t < end then o == slate else Plays(parent, t, o)
  {
    hide HalfOpenRange, ParseNs, Stored, At;
    var kept, last := Outside(parent, start, end), FlowSegment(slate, HalfOpenRange(start, end));
    SlatePlays(last, start, end);
    OutsideMembers(parent, start, end);
    OutsideDisjoint(parent, start, end);
    forall s, t | s in parent && t in At(s) ensures s in kept <==> !(start <= t < end) {
      var i :| 0 <= i < |parent| && parent[i] == s;
      assert !Straddles(parent[i], start) && !Straddles(parent[i], end);
      StoredReads(s);
    }
    hide Readable, From, To, Inside, Straddles;
    WhoPlays(parent, kept, last, start, end);
  }

  lemma SlatePlays(s: FlowSegment, start: Int64, end: Int64)
    requires start < end && s.timerange == HalfOpenRange(start, end)
    ensures Stored(s) && forall t :: t in At(s) <==> start <= t < end
  {
    hide HalfOpenRange, ParseNs, ParseRange, ToBounds;
    NsRoundTrip(start, end);
    StoredReads(s);
  }

  lemma WhoPlays(parent: seq<FlowSegment>, kept: seq<FlowSegment>, last: FlowSegment, start: int, end: int)
    requires AllStored(parent) && AllStored(kept) && Disjoint(kept) && Stored(last)
    requires forall t :: t in At(last) <==> start <= t < end
    requires forall s :: s in kept ==> s in parent
    requires forall s, t :: s in parent && t in At(s) ==> (s in kept <==> !(start <= t < end))
    ensures AllStored(kept + [last]) && Disjoint(kept + [last])
    ensures forall t, o :: Plays(kept + [last], t, o) <==> if start <= t < end then o == last.objectId else Plays(parent, t, o)
  {
    hide Stored, At;
    var out := kept + [last];
    assert forall s :: s in out <==> s in kept || s == last;
    assert last in out;
    forall i | 0 <= i < |kept| ensures At(kept[i]) !! At(last) {
      assert kept[i] in kept;
      forall t | t in At(kept[i]) ensures t !in At(last) {}
    }
  }
}
