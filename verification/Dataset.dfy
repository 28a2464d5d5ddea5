/** The scale-test generator (tools/scaletest/dataset): row plans, the numbering of
    segments, and the iterators that parallel loaders share. */
module Dataset {
  import opened Base
  import opened Decimal
  import opened TimeRanges
  import opened TimeRangeText
  import opened Bounds

  /** What Compose is given once it has rounded the number of shallow flows. */
  datatype Plan = Plan(deepFlowCount: nat, deepDepth: nat, shallowFlowCount: nat, shallowDepth: nat,
                       renditions: nat, chunkSec: nat) {
    predicate Valid() { deepDepth > 0 && shallowDepth > 0 && renditions > 0 && (chunkSec == 1 || chunkSec == 6) }

    function TotalFlows(): nat { deepFlowCount + shallowFlowCount }

    function TotalSegments(): nat { deepFlowCount * deepDepth + shallowFlowCount * shallowDepth }

    /** One object per segment. */
    function ObjectsCount(): nat { TotalSegments() }

    function SourcesCount(): nat
      requires Valid()
    {
      if TotalFlows() == 0 then 0 else (TotalFlows() + renditions - 1) / renditions
    }

    function FlowDepth(flow: int): (d: nat)
      requires Valid()
      ensures d > 0
    {
      if flow < deepFlowCount then deepDepth else shallowDepth
    }

    function GlobalSegIdx(flow: nat, seg: nat): int {
      if flow < deepFlowCount then flow * deepDepth + seg
      else deepFlowCount * deepDepth + (flow - deepFlowCount) * shallowDepth + seg
    }

    predicate IsSegment(flow: nat, seg: nat)
      requires Valid()
    {
      flow < TotalFlows() && seg < FlowDepth(flow)
    }
  }

  // ----- Numbering -----

  /** The segments of the flows before one. */
  function Before(p: Plan, flow: nat): nat
    requires p.Valid()
  {
    if flow == 0 then 0 else Before(p, flow - 1) + p.FlowDepth(flow - 1)
  }

  lemma {:induction false} BeforeIsLinear(p: Plan, flow: nat)
    requires p.Valid()
    ensures Before(p, flow) == p.GlobalSegIdx(flow, 0)
  {
    if flow == 0 {
    } else {
      BeforeIsLinear(p, flow - 1);
      assert flow * p.deepDepth == (flow - 1) * p.deepDepth + p.deepDepth;
      var k := flow - p.deepFlowCount;
      assert k * p.shallowDepth == (k - 1) * p.shallowDepth + p.shallowDepth;
    }
  }

  lemma {:induction false} BeforeGrows(p: Plan, f: nat, g: nat)
    requires p.Valid() && f <= g
    ensures Before(p, f) <= Before(p, g)
  {
    if f == g {
    } else {
      BeforeGrows(p, f, g - 1);
    }
  }

  lemma GlobalIsOffset(p: Plan, flow: nat, seg: nat)
    requires p.Valid()
    ensures p.GlobalSegIdx(flow, seg) == Before(p, flow) + seg
  {
    BeforeIsLinear(p, flow);
  }

  lemma AllBefore(p: Plan)
    requires p.Valid()
    ensures Before(p, p.TotalFlows()) == p.TotalSegments()
  {
    BeforeIsLinear(p, p.TotalFlows());
  }

  /** Numbers of different segments differ and follow plan order. */
  lemma NumbersFollowOrder(p: Plan, f: nat, s: nat, g: nat, t: nat)
    requires p.Valid() && p.IsSegment(f, s) && p.IsSegment(g, t) && (f < g || (f == g && s < t))
    ensures 0 <= p.GlobalSegIdx(f, s) < p.GlobalSegIdx(g, t) < p.ObjectsCount()
  {
    hide Plan.GlobalSegIdx, Plan.TotalSegments;
    GlobalIsOffset(p, f, s);
    GlobalIsOffset(p, g, t);
    AllBefore(p);
    if f < g { BeforeGrows(p, f + 1, g); }
    BeforeGrows(p, g + 1, p.TotalFlows());
  }

  lemma {:induction false} FindSegment(p: Plan, k: nat, flows: nat) returns (f: nat, s: nat)
    requires p.Valid() && k < Before(p, flows)
    ensures f < flows && s < p.FlowDepth(f) && Before(p, f) + s == k
  {
    if k >= Before(p, flows - 1) {
      f, s := flows - 1, k - Before(p, flows - 1);
    } else {
      f, s := FindSegment(p, k, flows - 1);
    }
  }

  /** Every object number belongs to exactly one segment. */
  lemma NumberingIsBijection(p: Plan, k: int)
    requires p.Valid()
    ensures (exists f: nat, s: nat :: p.IsSegment(f, s) && p.GlobalSegIdx(f, s) == k) <==> 0 <= k < p.ObjectsCount()
    ensures forall f: nat, s: nat, g: nat, t: nat ::
              p.IsSegment(f, s) && p.IsSegment(g, t) && p.GlobalSegIdx(f, s) == k && p.GlobalSegIdx(g, t) == k ==> f == g && s == t
  {
    hide Plan.GlobalSegIdx, Plan.TotalSegments;
    if 0 <= k < p.ObjectsCount() {
      AllBefore(p);
      var f, s := FindSegment(p, k, p.TotalFlows());
      GlobalIsOffset(p, f, s);
      assert p.IsSegment(f, s);
    }
    forall f: nat, s: nat | p.IsSegment(f, s) && p.GlobalSegIdx(f, s) == k ensures 0 <= k < p.ObjectsCount() {
      GlobalIsOffset(p, f, s);
      AllBefore(p);
      BeforeGrows(p, f + 1, p.TotalFlows());
    }
    forall f: nat, s: nat, g: nat, t: nat |
      p.IsSegment(f, s) && p.IsSegment(g, t) && p.GlobalSegIdx(f, s) == k && p.GlobalSegIdx(g, t) == k
      ensures f == g && s == t
    {
      if f < g || (f == g && s < t) { NumbersFollowOrder(p, f, s, g, t); }
      if g < f || (f == g && t < s) { NumbersFollowOrder(p, g, t, f, s); }
    }
  }

  // ----- Rows -----

  datatype SegmentRow = SegmentRow(flow: nat, objectIdx: int, timerange: string, lower: int, upper: int)

  /** The row of a segment; flow and object ids are kept as their indices. */
  function Segment(p: Plan, flow: nat, seg: nat): SegmentRow {
    var chunkNs := p.chunkSec * NS_PER_SEC;
    SegmentRow(flow, p.GlobalSegIdx(flow, seg),
               "[" + Numeral(seg * p.chunkSec) + ":0_" + Numeral((seg + 1) * p.chunkSec) + ":0)",
               seg * chunkNs, (seg + 1) * chunkNs)
  }

  /** The generated text and the generated bounds say the same: the bounds are those
      of the parsed text, and consecutive segments meet without overlapping. */
  lemma RowIsConsistent(p: Plan, flow: nat, seg: nat)
    requires p.Valid() && Fits((seg + 1) * p.chunkSec * NS_PER_SEC)
    ensures var r := Segment(p, flow, seg);
            && Fits(r.lower) && Fits(r.upper) && ParseRange(r.timerange).Ok?
            && ToBounds(ParseRange(r.timerange).value) == Ok(NsBounds(r.lower, r.upper, false, false))
            && r.lower < r.upper == Segment(p, flow, seg + 1).lower
            && r.upper - r.lower == p.chunkSec * 1_000_000_000 && Segment(p, flow, 0).lower == 0
            && r.flow == flow && r.objectIdx == Before(p, flow) + seg
  {
    hide ParseRange, RangeText, ToBounds, Numeral;
    var a, b := seg * p.chunkSec, (seg + 1) * p.chunkSec;
    assert b == a + p.chunkSec && 0 <= a < b;
    assert seg * (p.chunkSec * NS_PER_SEC) == a * NS_PER_SEC && (seg + 1) * (p.chunkSec * NS_PER_SEC) == b * NS_PER_SEC;
    var tr := TimeRange(Some(Timestamp(a, 0)), Inclusive, Some(Timestamp(b, 0)), Exclusive);
    WholeSeconds(a, b);
    RangeRoundTrip(tr);
    GlobalIsOffset(p, flow, seg);
  }

  lemma WholeSeconds(a: nat, b: nat)
    requires a < b && Fits(b * NS_PER_SEC)
    ensures var tr := TimeRange(Some(Timestamp(a, 0)), Inclusive, Some(Timestamp(b, 0)), Exclusive);
            && WellFormed(tr) && !IsEmpty(tr) && ToBounds(tr) == Ok(NsBounds(a * NS_PER_SEC, b * NS_PER_SEC, false, false))
            && RangeText(tr) == "[" + Numeral(a) + ":0_" + Numeral(b) + ":0)"
  {
    ZeroNumeral();
    SecondsBounds(a, b);
    hide Numeral, ToBounds;
    var x, y := Numeral(a), Numeral(b);
    assert "[" + ((x + ":" + "0") + ['_'] + (y + ":" + "0") + ")") == "[" + x + ":0_" + y + ":0)";
  }

  lemma SecondsBounds(a: nat, b: nat)
    requires a < b && Fits(b * NS_PER_SEC)
    ensures var tr := TimeRange(Some(Timestamp(a, 0)), Inclusive, Some(Timestamp(b, 0)), Exclusive);
            ToBounds(tr) == Ok(NsBounds(a * NS_PER_SEC, b * NS_PER_SEC, false, false))
  {
  }

  lemma ZeroNumeral()
    ensures Numeral(0) == "0"
  {
  }

  // ----- The iterators over segments -----

  type Pos = (nat, nat)

  /** A flow's segments from one on. */
  function FlowRows(p: Plan, flow: nat, seg: nat): seq<Pos>
    requires p.Valid() && seg <= p.FlowDepth(flow)
  {
    seq(p.FlowDepth(flow) - seg, i requires 0 <= i => (flow, seg + i))
  }

  /** All segments of every n-th flow from one on. */
  function Owned(p: Plan, n: nat, flow: nat): seq<Pos>
    requires p.Valid() && n > 0
    decreases p.TotalFlows() - flow
  {
    if flow >= p.TotalFlows() then [] else FlowRows(p, flow, 0) + Owned(p, n, flow + n)
  }

  /** An index walker over the flows of one worker. SegmentIter of the source is the
      walk of the only worker of one. */
  class SegmentIter {
    const p: Plan
    const totalWorkers: nat
    var flowIdx: nat
    var segIdx: int
    var depth: int
    var cur: Option<SegmentRow>

    predicate Valid()
      reads this
    {
      && p.Valid() && totalWorkers > 0 && -1 <= segIdx
      && (segIdx >= 0 ==> flowIdx < p.TotalFlows() && depth == p.FlowDepth(flowIdx) && segIdx < depth)
    }

    /** What is still to come. */
    function Rest(): seq<Pos>
      requires Valid()
      reads this
    {
      if flowIdx >= p.TotalFlows() then []
      else FlowRows(p, flowIdx, segIdx + 1) + Owned(p, totalWorkers, flowIdx + totalWorkers)
    }

    constructor (plan: Plan, workerID: int, workers: int)
      requires plan.Valid()
      ensures Valid() && p == plan && totalWorkers == if workers < 1 then 1 else workers
      ensures Rest() == if 0 <= workerID < totalWorkers then Owned(plan, totalWorkers, workerID) else []
    {
      p := plan;
      totalWorkers := if workers < 1 then 1 else workers;
      flowIdx := if workerID < 0 || workerID >= (if workers < 1 then 1 else workers) then plan.TotalFlows() else workerID;
      segIdx, depth, cur := -1, 0, None;
    }

    /** Takes the next row, or says that there is none. */
    method Next() returns (more: bool)
      requires Valid()
      modifies this
      ensures Valid() && (more <==> old(Rest()) != [])
      ensures more ==> Rest() == old(Rest())[1..] && cur == Some(Segment(p, old(Rest())[0].0, old(Rest())[0].1))
      ensures !more ==> Rest() == []
    {
      hide Segment, Owned, FlowRows, Plan.TotalFlows, Plan.FlowDepth;
      while flowIdx < p.TotalFlows()
        invariant Valid() && Rest() == old(Rest())
        decreases p.TotalFlows() - flowIdx
      {
        if segIdx == -1 { depth := p.FlowDepth(flowIdx); }
        RowsStep(p, flowIdx, segIdx + 1);
        segIdx := segIdx + 1;
        if segIdx < depth {
          cur := Some(Segment(p, flowIdx, segIdx));
          return true;
        }
        OwnedStep(p, totalWorkers, flowIdx + totalWorkers);
        flowIdx := flowIdx + totalWorkers;
        segIdx := -1;
      }
      return false;
    }
  }

  /** A flow's remaining rows are the next one and the rest, or none. */
  lemma RowsStep(p: Plan, flow: nat, seg: nat)
    requires p.Valid() && seg <= p.FlowDepth(flow)
    ensures FlowRows(p, flow, seg) == if seg < p.FlowDepth(flow) then [(flow, seg)] + FlowRows(p, flow, seg + 1) else []
  {
  }

  lemma OwnedStep(p: Plan, n: nat, flow: nat)
    requires p.Valid() && n > 0
    ensures Owned(p, n, flow) == if flow >= p.TotalFlows() then [] else FlowRows(p, flow, 0) + Owned(p, n, flow + n)
  {
  }

  /** The rows of k consecutive workers together. */
  ghost function Together(p: Plan, n: nat, first: nat, k: nat): multiset<Pos>
    requires p.Valid() && n > 0
  {
    if k == 0 then multiset{} else Together(p, n, first, k - 1) + multiset(Owned(p, n, first + k - 1))
  }

  lemma {:induction false} TogetherShift(p: Plan, n: nat, first: nat, k: nat)
    requires p.Valid() && n > 0
    ensures Together(p, n, first, k + 1) == multiset(Owned(p, n, first)) + Together(p, n, first + 1, k)
  {
    hide Owned;
    if k == 0 {
    } else {
      TogetherShift(p, n, first, k - 1);
    }
  }

  /** The workers together emit exactly what a single walk emits: nothing is left out
      and nothing is emitted twice, for every plan and every number of workers. */
  lemma {:induction false} WorkersCoverAll(p: Plan, n: nat, first: nat)
    requires p.Valid() && n > 0
    ensures Together(p, n, first, n) == multiset(Owned(p, 1, first))
    decreases p.TotalFlows() - first
  {
    hide Owned, FlowRows;
    OwnedStep(p, n, first);
    OwnedStep(p, 1, first);
    if first >= p.TotalFlows() {
      NothingTogether(p, n, first, n);
    } else {
      WorkersCoverAll(p, n, first + 1);
      TogetherShift(p, n, first, n - 1);
    }
  }

  lemma {:induction false} NothingTogether(p: Plan, n: nat, first: nat, k: nat)
    requires p.Valid() && n > 0 && first >= p.TotalFlows()
    ensures Together(p, n, first, k) == multiset{}
  {
    if k == 0 {
    } else {
      NothingTogether(p, n, first, k - 1);
    }
  }

  lemma {:induction false} OwnedCount(p: Plan, flow: nat)
    requires p.Valid() && flow <= p.TotalFlows()
    ensures Before(p, flow) + |Owned(p, 1, flow)| == Before(p, p.TotalFlows())
    decreases p.TotalFlows() - flow
  {
    if flow == p.TotalFlows() {
    } else {
      OwnedCount(p, flow + 1);
    }
  }

  /** A single walk emits the segments by their global numbers, each once and in order. */
  lemma {:induction false} WalkFollowsNumbers(p: Plan, flow: nat, k: nat)
    requires p.Valid() && k < |Owned(p, 1, flow)|
    ensures var x := Owned(p, 1, flow)[k]; p.IsSegment(x.0, x.1) && p.GlobalSegIdx(x.0, x.1) == Before(p, flow) + k
    decreases p.TotalFlows() - flow
  {
    hide Plan.GlobalSegIdx;
    var here := p.FlowDepth(flow);
    OwnedStep(p, 1, flow);
    if k < here {
      assert Owned(p, 1, flow)[k] == (flow, k);
      GlobalIsOffset(p, flow, k);
    } else {
      WalkFollowsNumbers(p, flow + 1, k - here);
      assert Owned(p, 1, flow)[k] == Owned(p, 1, flow + 1)[k - here];
    }
  }

  /** The plan's total, over however many workers. */
  lemma RowsInAll(p: Plan, n: nat)
    requires p.Valid() && n > 0
    ensures |Together(p, n, 0, n)| == p.TotalSegments()
  {
    WorkersCoverAll(p, n, 0);
    OwnedCount(p, 0);
    AllBefore(p);
  }

  /** k steps of n. */
  function Steps(n: nat, k: nat): nat { if k == 0 then 0 else n + Steps(n, k - 1) }

  /** A worker visits only flows a whole number of steps from its first. */
  lemma {:induction false} OwnedFlow(p: Plan, n: nat, first: nat, x: Pos) returns (k: nat)
    requires p.Valid() && n > 0 && x in Owned(p, n, first)
    ensures x.0 == first + Steps(n, k) && p.IsSegment(x.0, x.1)
    decreases p.TotalFlows() - first
  {
    if x in FlowRows(p, first, 0) {
      k := 0;
    } else {
      k := OwnedFlow(p, n, first + n, x);
      k := k + 1;
    }
  }

  /** No two workers ever visit the same flow. */
  lemma WorkersVisitDisjointFlows(p: Plan, n: nat, v: nat, w: nat, x: Pos, y: Pos)
    requires p.Valid() && v < w < n && x in Owned(p, n, v) && y in Owned(p, n, w)
    ensures x.0 != y.0
  {
    hide Owned;
    var j := OwnedFlow(p, n, v, x);
    var k := OwnedFlow(p, n, w, y);
    StepsNeverMeet(n, v, w, j, k);
  }

  lemma {:induction false} StepsNeverMeet(n: nat, v: nat, w: nat, j: nat, k: nat)
    requires v < w < n
    ensures v + Steps(n, j) != w + Steps(n, k)
  {
    if j == 0 || k == 0 {
    } else {
      StepsNeverMeet(n, v, w, j - 1, k - 1);
    }
  }

  // ----- The iterator over collection members -----

  /** The first flow of a source, and how many it has. */
  function FirstFlow(p: Plan, src: nat): nat { src * p.renditions }

  function FlowsInSource(p: Plan, src: nat): int {
    if p.TotalFlows() - FirstFlow(p, src) < p.renditions then p.TotalFlows() - FirstFlow(p, src) else p.renditions
  }

  /** A source's (parent, member) pairs from one member position on. */
  function MemberRows(p: Plan, src: nat, pos: nat): seq<Pos> {
    if pos >= FlowsInSource(p, src) then []
    else seq(FlowsInSource(p, src) - pos, i requires 0 <= i => (FirstFlow(p, src), FirstFlow(p, src) + pos + i))
  }

  function Collection(p: Plan, src: nat): seq<Pos>
    requires p.Valid()
    decreases p.SourcesCount() - src
  {
    if src >= p.SourcesCount() then [] else MemberRows(p, src, 1) + Collection(p, src + 1)
  }

  class FlowCollectionIter {
    const p: Plan
    var srcIdx: nat
    var memberPos: nat
    var cur: Option<Pos>

    predicate Valid() { p.Valid() }

    /** What is still to come. */
    function Rest(): seq<Pos>
      requires Valid()
      reads this
    {
      if srcIdx >= p.SourcesCount() then [] else MemberRows(p, srcIdx, memberPos + 1) + Collection(p, srcIdx + 1)
    }

    constructor (plan: Plan)
      requires plan.Valid()
      ensures Valid() && p == plan && Rest() == Collection(plan, 0)
    {
      p := plan;
      srcIdx, memberPos, cur := 0, 0, None;
    }

    method Next() returns (more: bool)
      requires Valid()
      modifies this
      ensures more <==> old(Rest()) != []
      ensures more ==> Rest() == old(Rest())[1..] && cur == Some(old(Rest())[0])
      ensures !more ==> Rest() == []
    {
      hide Plan.SourcesCount, FlowsInSource, FirstFlow, MemberRows, Collection;
      while srcIdx < p.SourcesCount()
        invariant Rest() == old(Rest())
        decreases p.SourcesCount() - srcIdx
      {
        var flowsInSrc := FlowsInSource(p, srcIdx);
        memberPos := memberPos + 1;
        if memberPos < flowsInSrc {
          var parent := FirstFlow(p, srcIdx);
          cur := Some((parent, parent + memberPos));
          MembersStep(p, srcIdx, memberPos);
          return true;
        }
        MembersStep(p, srcIdx, memberPos);
        CollectionStep(p, srcIdx + 1);
        srcIdx := srcIdx + 1;
        memberPos := 0;
      }
      return false;
    }
  }

  lemma MembersStep(p: Plan, src: nat, pos: nat)
    ensures MemberRows(p, src, pos) ==
            if pos < FlowsInSource(p, src) then [(FirstFlow(p, src), FirstFlow(p, src) + pos)] + MemberRows(p, src, pos + 1) else []
  {
  }

  lemma CollectionStep(p: Plan, src: nat)
    requires p.Valid()
    ensures Collection(p, src) == if src >= p.SourcesCount() then [] else MemberRows(p, src, 1) + Collection(p, src + 1)
  {
  }

  /** The sources reach just far enough to hold every flow. */
  lemma SourcesHoldFlows(p: Plan)
    requires p.Valid()
    ensures p.SourcesCount() == 0 <==> p.TotalFlows() == 0
    ensures p.TotalFlows() <= FirstFlow(p, p.SourcesCount())
    ensures p.SourcesCount() > 0 ==> FirstFlow(p, p.SourcesCount() - 1) < p.TotalFlows()
  {
    if p.TotalFlows() > 0 {
      var n, r := p.TotalFlows() + p.renditions - 1, p.renditions;
      assert n == (n / r) * r + n % r;
      assert (n / r - 1) * r == (n / r) * r - r;
    }
  }

  lemma {:induction false} FirstFlowGrows(p: Plan, a: nat, b: nat)
    requires a <= b
    ensures FirstFlow(p, a) <= FirstFlow(p, b) && FirstFlow(p, a + 1) == FirstFlow(p, a) + p.renditions
  {
    assert b * p.renditions == a * p.renditions + (b - a) * p.renditions;
  }

  lemma {:induction false} CollectionCount(p: Plan, src: nat)
    requires p.Valid() && src < p.SourcesCount()
    ensures |Collection(p, src)| == p.TotalFlows() - FirstFlow(p, src) - (p.SourcesCount() - src)
    decreases p.SourcesCount() - src
  {
    hide Plan.SourcesCount, FirstFlow;
    SourcesHoldFlows(p);
    FirstFlowGrows(p, src, p.SourcesCount() - 1);
    if src + 1 < p.SourcesCount() {
      FirstFlowGrows(p, src + 1, p.SourcesCount() - 1);
      CollectionCount(p, src + 1);
    } else {
      assert Collection(p, src + 1) == [];
    }
  }

  /** The pair joins a source's first flow to another flow of that source. */
  predicate MemberOf(p: Plan, src: nat, x: Pos) {
    x.0 == FirstFlow(p, src) && x.0 < x.1 < x.0 + FlowsInSource(p, src)
  }

  lemma {:induction false} CollectionMembers(p: Plan, src: nat, x: Pos)
    requires p.Valid()
    ensures x in Collection(p, src) <==> exists s: nat :: src <= s < p.SourcesCount() && MemberOf(p, s, x)
    decreases p.SourcesCount() - src
  {
    hide Plan.SourcesCount, FirstFlow, FlowsInSource;
    if src >= p.SourcesCount() {
    } else {
      CollectionMembers(p, src + 1, x);
      MembersOfSource(p, src, x);
    }
  }

  lemma MembersOfSource(p: Plan, src: nat, x: Pos)
    ensures x in MemberRows(p, src, 1) <==> MemberOf(p, src, x)
  {
    hide FirstFlow, FlowsInSource;
    var rows := MemberRows(p, src, 1);
    if MemberOf(p, src, x) {
      assert rows[x.1 - x.0 - 1] == x;
    }
  }

  /** One row for every flow that is not the first of its source. */
  lemma CollectionRows(p: Plan)
    requires p.Valid()
    ensures |Collection(p, 0)| == p.TotalFlows() - p.SourcesCount()
  {
    SourcesHoldFlows(p);
    if p.SourcesCount() > 0 { CollectionCount(p, 0); }
  }
}
