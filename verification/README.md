# OpenTAMS, verified

A Dafny model of the core of OpenTAMS, a time-addressed media store: its time
range notation, its segment store, its idempotency protocol and the code that
ties them together, with four self-contained loops from its tools.

- **Time ranges** (`Decimal`, `TimeRanges`, `TimeRangeText`, `Bounds`,
  `Containment`). Every range denotes a set of integer nanoseconds, and every
  test and operation on ranges is tied to that set. The parser's language is
  characterised both ways and inverts the printer.
- **Segment store** (`Tables`, `StoreSpec`, `StoreInvariant`, `RefCounts`,
  `StoreEffects`, `Spans`, `Acceptance`, `StoreExamples`, `Metastore`). The transactions are
  functions on tables; runs are sequences of them. The invariants hold in every
  reachable state, and `Metastore.PostgresStore` runs the same transactions in
  place, loop by loop.
- **Listing** (`Paging`, `Collect`). Pages, cursors, and walks over a store that
  stands still or changes between pages.
- **Idempotency** (`Idempotency`, `IdempotencyRuns`). The key table and its
  behaviour under every interleaving.
- **Registration** (`Register`, `PostHandler`). The service and the POST handler
  on top of the store and the key table.
- **Loops** (`ObjectDelete`, `Overlay`, `HtmlEscapes`, `Dataset`).

`dafny verify dfyconfig.toml` checks everything.

## What the properties show about the code

Four intended properties hold only under a condition, which is proved to be exact
and has a failing input beside it.

- Reference counts equal references if and only if no step of the run deletes a
  flow that references an object twice: `InsertSegments` adds one per segment
  while `DeleteFlow` subtracts one per distinct object. The surplus never goes
  away (`RefCounts`, `StoreExamples.LeakHappens`).
- `rangeContains` is sound but not complete on whole nanoseconds, and
  dereferences nil when the stored range is `()` (`Containment`).
- The stored time range of a flow is its span if and only if the last event that
  wrote it was a segment write, or an upsert whose text named the span
  (`Spans.StoredSpanExactly`, `StoreExamples.OverwriteHappens`).
- A key has one owner in every run if and only if requests finish within the
  reaper's threshold and the time to live and no applied `Release` is reported as
  failed (`IdempotencyRuns.ExclusiveExactly`). Start-up compares the threshold with
  the time to live before it raises the threshold to the write timeout, so it
  accepts a time to live below the write timeout, with which the property fails
  (`IdempotencyRuns.StartedServerExactly`).

Smaller observations: `NsBounds` refuses an exclusive start one nanosecond below
the int64 range although the adjusted bound would fit; a resubmitted batch ends
as read-only rather than as an overlap when the flow was made read-only in
between.

Where comments and code disagree, the model follows the code. The doc comment of
`ParseRange` in tools/internal/opentamsclient/timerange.go:41-44 says eternity
and instantaneous inputs are errors, and the code accepts them. A comment in
internal/domain/segment_params.go:27 gives status 400 for an all-rejected batch,
and the handler answers 200. The doc comment of `rangeContains`
(internal/metastore/segments.go:802-806) promises exact containment. The comment in
internal/httpx/handlers/segments.go:307-310 says every other failure is a 5xx, and
an object time range outside the stored one leaves as 400 through the middleware,
its key released rather than completed.

## Assumptions

- Transactions are atomic steps and a failed one rolls back. The segment writes
  and `Acquire` lock their rows; `DeleteFlow` takes no lock on the flow row, so
  its atomicity is assumed. Key uniqueness in the key table is assumed.
- The garbage collector is not implemented in the repository. Its claim and reap
  steps are environment steps: it claims only objects with count zero that are
  not yet claimed, and removes only claimed objects.
- A stored segment carries the parse of the client's string, as the conversion
  layer produces it.
- One clock serves acquisition, expiry and reaping; the expiry instant comes with
  the request.
- Response bodies are encoded by a pair of functions of which reading inverts
  writing and keeps to the status it reads for. A page cursor is the key it encodes.
- Strings are sequences of bytes.

## Model

| member | source | states |
|---|---|---|
| Decimal.NumeralOfValue | internal/timerange/timerange.go:362-379 | A string of the shape `validInt` accepts is the one decimal numeral of its value: no second spelling is accepted. |
| Decimal.ValueOfNumeral | internal/timerange/timerange.go:82-93 | Reading the digits of a printed number gives the number back, for every natural number. |
| Decimal.NanoNumerals | internal/timerange/timerange.go:381-401 | Nine digits without leading zeros is exactly a value below one billion, so the nanoseconds field needs no range check. |
| TimeRanges.BeforeIsOrder | internal/timerange/timerange.go:95-115 | `before` and `equal` are the order and equality of the nanosecond instants the timestamps name. |
| TimeRanges.Next | internal/timerange/timerange.go:103-110 | One nanosecond later exactly, and no overflow whenever some later timestamp exists, which is what its callers guarantee. |
| TimeRanges.EmptyMeansNoInstant | internal/timerange/timerange.go:226-240 | `IsEmpty` holds if and only if no integer nanosecond lies in the range, for every range the parser can produce. |
| TimeRanges.ContainsIsMembership | internal/timerange/timerange.go:248-283 | `Contains` is membership of the instant in the range's set of nanoseconds. |
| TimeRanges.MeetDenotesIntersection | internal/timerange/timerange.go:290-360 | The intersection denotes exactly the common nanoseconds of the two ranges and is again well formed. |
| TimeRanges.MeetIsCommutative | internal/timerange/timerange.go:303-347 | Intersection is commutative as values, not only as sets. |
| TimeRanges.MeetIsAssociative | internal/timerange/timerange.go:303-347 | Intersection is associative as values. |
| TimeRanges.PickStart | internal/timerange/timerange.go:303-322 | The switch over the starts selects the later side, an exclusive marker winning ties. |
| TimeRanges.PickEnd | internal/timerange/timerange.go:324-343 | The switch over the ends selects the earlier side, an exclusive marker winning ties. |
| TimeRanges.Intersect | internal/timerange/timerange.go:290-360 | The code computes that intersection; its two last emptiness tests never fire. |
| TimeRanges.OverlapsMeansSharedInstant | internal/timerange/timerange.go:285-288 | `Overlaps` holds if and only if the ranges share a nanosecond. |
| TimeRangeText.AssembleIsSignedValue | internal/timerange/timerange.go:61-77 | Sign, magnitude and nanoseconds are accepted exactly when the signed value has int64 seconds, and then give the timestamp of that value; the smallest int64 second is included. |
| TimeRangeText.TimestampLanguage | internal/timerange/timerange.go:40-78 | The accepted timestamp strings and their meanings, both ways: a string parses to a timestamp if and only if it is the canonical decimal writing of some sign, seconds and nanoseconds that name its instant. |
| TimeRangeText.TimestampRoundTrip | internal/timerange/timerange.go:40-93 | Parsing a printed timestamp gives it back, for every int64 second. |
| TimeRangeText.TimestampTextRoundTrip | internal/timerange/timerange.go:40-93 | Printing a parsed timestamp string reproduces it if and only if it is not `-0:0`. |
| TimeRangeText.TimestampErrors | internal/timerange/timerange.go:41-56 | A string without a colon and a value out of range are told apart: the latter error is given exactly for the writing of a value whose seconds do not fit. |
| TimeRangeText.PeelSpelled | internal/timerange/timerange.go:134-145 | Peeling markers and cutting at the first `_` finds the parts a range was spelled from. |
| TimeRangeText.RangeLanguage | internal/timerange/timerange.go:117-183 | The accepted range strings and their meanings, both ways, by the notation itself: with a separator each side is open, inclusive or exclusive by its own timestamp and marker; without one the string is the empty range or an inclusive instant. |
| TimeRangeText.SeparatedForms | internal/timerange/timerange.go:145-182 | For all timestamps and markers: a bound is exclusive exactly when its marker is `(` or `)`, an omitted marker is inclusive, a marker beside an omitted timestamp is ignored, and `_` is eternity. |
| TimeRangeText.UnseparatedForms | internal/timerange/timerange.go:146-159 | A lone timestamp is the inclusive instant, or an error with `(` or `)`; markers alone are the empty range; the empty string is an error. |
| TimeRangeText.BadTimestamps | internal/timerange/timerange.go:162-181 | A range with a timestamp that does not parse fails with that timestamp's error, the start's before the end's. |
| TimeRangeText.ParsedIsWellFormed | internal/timerange/timerange.go:130-183 | Every parsed range is `()` or has a timestamp on exactly its bounded sides. |
| TimeRangeText.RangeRoundTrip | internal/timerange/timerange.go:130-221 | Parsing a printed range gives the range back; every empty range comes back as the one canonical empty range. |
| TimeRangeText.PrintedForms | internal/timerange/timerange.go:185-221 | The canonical text form by form: `()` for every range without instants, `_`, `[ts]` for an instant, and otherwise a marker for each bounded side. |
| TimeRangeText.PeelMarkers | internal/timerange/timerange.go:134-143 | The code that shortens the string from both ends finds the markers and the body. |
| TimeRangeText.Parse | internal/timerange/timerange.go:130-183 | The parser as it runs computes the specified parse, errors included. |
| TimeRangeText.Render | internal/timerange/timerange.go:185-221 | The printer as it runs writes the specified text, and does not panic on a well-formed range. |
| Bounds.ToNanosIsExact | internal/timerange/nsbounds.go:66-83 | The conversion succeeds exactly when the instant fits in int64 and is then that instant; no intermediate value overflows. |
| Bounds.DurationRoundTrip | internal/timerange/nsbounds.go:85-94 | Converting a duration to a timestamp and back is the identity on all of int64. |
| Bounds.BoundsAreTheRange | internal/timerange/nsbounds.go:26-64 | `NsBounds` fails as empty exactly on ranges without nanoseconds, as out of range exactly when a bound is not representable, and otherwise its half-open interval is the range's set of nanoseconds. |
| Bounds.AdjustedBoundIsNotEnough | internal/timerange/nsbounds.go:55-64 | A range whose adjusted bound fits but which is refused: an exclusive start one nanosecond below int64. |
| Bounds.ProperBounds | internal/timerange/nsbounds.go:29-53 | Successful bounds are proper: lower below upper when both exist. |
| Bounds.BoundsOverlapIsSharing | internal/metastore/segments.go:703-708 | The comparison of half-open bounds decides whether two intervals share a nanosecond. |
| Bounds.OverlapTestsAgree | internal/metastore/segments.go:605-744 | For all convertible ranges the in-memory test, the SQL `WHERE` condition, the Postgres range operator and `TimeRange.Overlaps` all agree with sharing a nanosecond. |
| Containment.DereferencesNilExactlyOnEmpty | internal/metastore/segments.go:807-855 | `rangeContains` dereferences a nil start exactly when the outer range is `()` and the inner is non-empty with a start. |
| Containment.ContainsExactly | internal/metastore/segments.go:807-885 | Otherwise it answers true if and only if the inner set is included in the outer set and the two do not differ by an exclusive marker one nanosecond off. |
| Containment.IncompleteOnNanoseconds | internal/metastore/segments.go:857-870 | Two ranges with the same nanoseconds, of which it says that one does not contain the other. |
| StoreInvariant.InsertKeepsInv | internal/metastore/segments.go:169-349 | A committed batch keeps every table invariant: rows equal to the bounds of their stored strings, pairwise disjoint within a flow, links intact, reference counts not short. |
| StoreInvariant.AddRefsCounts | internal/metastore/segments.go:226-262 | The upserts add to each object exactly the number of the batch's segments that name it, create the missing objects, and never touch a claimed one. |
| Acceptance.InsertVerdict | internal/metastore/segments.go:169-338 | Every batch is decided by the first of these that applies: a segment without a string, without instants or out of range; two segments that share an instant; an unknown flow; a read-only flow; a stored row of the same flow that shares an instant; storage not configured or an object being reaped; the object ranges; an unbounded side. Each has its error, and nothing else is refused. |
| Acceptance.AcceptedExactly | internal/metastore/segments.go:169-349 | A batch commits if and only if none of them applies. |
| Acceptance.InsertIsExact | internal/metastore/segments.go:226-333 | A committed batch appends one row per segment, in order, with the client's string, the object and exactly the segment's instants; counts each reference once; creates missing objects with the storage of the first segment that names them; and changes nothing else but the flow's span. |
| StoreInvariant.DeleteSegmentsKeepsInv | internal/metastore/segments.go:505-589 | A committed deletion keeps the invariants. |
| StoreInvariant.UpsertFlowKeepsInv | internal/metastore/flows.go:140-235 | Creating or updating a flow keeps the invariants. |
| StoreInvariant.DeleteFlowKeepsInv | internal/metastore/flows.go:433-468 | Deleting a flow keeps the invariants: its rows go and no count falls below the references that remain. |
| StoreInvariant.GcClaimKeepsInv | internal/metastore/segments.go:97-100 | A collector step that claims only objects with count zero keeps the invariants. |
| StoreInvariant.StepKeepsInv | internal/metastore/segments.go:169-349 | Every transaction, successful or refused, keeps the invariants. |
| StoreInvariant.ReachableInv | internal/metastore/segments.go:169-589 | Over every sequence of transactions and collector steps from the empty store the invariants hold. |
| StoreInvariant.ClaimedIsUnreferenced | internal/metastore/segments.go:97-100 | In every reachable state no segment references an object that the collector has claimed. |
| RefCounts.InsertSurplus | internal/metastore/segments.go:242-251 | An insert changes no object's surplus of count over references, and starts new objects without one. |
| RefCounts.DeleteSegmentsSurplus | internal/metastore/segments.go:572-579 | A deletion by time range changes no object's surplus. |
| RefCounts.DeleteFlowSurplus | internal/metastore/flows.go:444-453 | Deleting a flow raises an object's surplus by its references in that flow less one. |
| RefCounts.StepExact | internal/metastore/flows.go:444-453 | From exact counts a step leaves exact counts if and only if it is not the deletion of a flow that references some object twice. |
| RefCounts.ExactExactlyWithoutLeaks | internal/metastore/flows.go:433-468 | Over every run, counts are exact at the end if and only if no step of the run deleted such a flow. |
| RefCounts.LeakIsPermanent | internal/metastore/flows.go:440-453 | Once an object's count exceeds its references it does so after every continuation, and the object is never claimed. |
| StoreExamples.LeakHappens | internal/metastore/flows.go:440-456 | A concrete run of three transactions that ends with no segments and an object counted once. |
| StoreEffects.RunRows | internal/metastore/segments.go:306-333 | Over every run, a later row is an earlier row or has a new id. |
| StoreEffects.RunSpares | internal/metastore/segments.go:505-589 | Over every run without deletions on a flow, the flow and its rows stay. |
| StoreEffects.ResubmissionRefused | internal/metastore/segments.go:173-224 | A non-empty batch that committed is refused when submitted again after any run without deletions on the flow, as an overlap or, if the flow became read-only, for that; no table changes. |
| StoreEffects.CoveredBySql | internal/metastore/segments.go:538-546 | The SQL comparison of bounds selects exactly the rows all of whose nanoseconds lie in the query range. |
| StoreEffects.DeletionIsExact | internal/metastore/segments.go:523-588 | Exactly the covered rows go, the reported count is their number, each object's count falls by its removed rows, and no other flow changes. |
| Acceptance.DeleteVerdict | internal/metastore/segments.go:512-529 | A deletion is refused exactly for an unknown flow, a read-only flow, or a non-empty range that does not fit, in this order. |
| Acceptance.UpsertIsExact | internal/metastore/flows.go:147-228 | A flow is created unless its source has another format and updated unless that changes its source, its format, or the codec while it has segments; what is stored and the created flag are as the caller is told. |
| StoreEffects.FlowDeletionIsExact | internal/metastore/flows.go:440-462 | Deleting a flow succeeds exactly when it exists, removes exactly its rows, takes one reference from every object they name however often, and changes nothing else. |
| Spans.HighestEndsLast | internal/metastore/segments.go:621-650 | Under disjointness the row with the highest lower bound also has the highest upper bound. |
| Spans.FlowSpanIsHull | internal/metastore/segments.go:621-660 | The span read from the first and the last row denotes the smallest interval that covers all rows of the flow; it is absent without rows and never fails to parse. |
| Spans.FlowSpanText | internal/metastore/segments.go:627-660 | Its text runs from the start of the first row to the end of the last as those rows write them, markers included. |
| Spans.InsertStoresSpan | internal/metastore/segments.go:335-338 | A committed batch leaves the flow's stored time range equal to its span. |
| Spans.DeleteStoresSpan | internal/metastore/segments.go:581-583 | So does a committed deletion with a non-empty range. |
| Spans.StepSpan | internal/metastore/flows.go:176-228 | One step: a committed segment write leaves the column right, an accepted create or update leaves it right exactly when the client's text names the span of the rows of the moment, and any other step leaves it as right or as wrong as it was. |
| Spans.StoredSpanExactly | internal/metastore/flows.go:176-228 | Over every run and for every flow at its end, the stored time range is the flow's span if and only if the last event that wrote it was a segment write or an upsert whose text named the span then. |
| StoreExamples.OverwriteHappens | internal/metastore/flows.go:212-220 | A concrete run that ends with segments in a flow and an empty stored time range. |
| Spans.ReportedIsSpanWithinFilter | internal/service/flow/flow.go:112-142 | `GetFlow` reports the flow's span cut to the filter; for a flow without rows it reports the stored column unfiltered. |
| Spans.PageSpan | internal/metastore/segments.go:669-683 | The page's span is the smallest interval that covers its items, in whatever order they come. |
| Metastore.ComputeBounds | internal/metastore/segments.go:685-701 | The loop converts every segment or stops at the first that cannot be converted. |
| Metastore.AnyPairOverlaps | internal/metastore/segments.go:177-188 | The two loops find an overlapping pair if and only if there is one. |
| Metastore.AnyStoredOverlaps | internal/metastore/segments.go:208-224 | The loop finds a clash with a stored row if and only if there is one. |
| Metastore.AddReferences | internal/metastore/segments.go:226-262 | The loop of upserts computes the specified counts or stops at the first refusal. |
| Metastore.InsertRows | internal/metastore/segments.go:301-333 | After the two pre-checks the exclusion constraint never fires; only an unbounded side is refused. |
| Metastore.GroupsCount | internal/metastore/segments.go:538-546 | The per-object groups of the deleted rows hold each object's number of rows and add up to all of them. |
| Metastore.GroupsAreSeparate | internal/metastore/segments.go:538-546 | Every object has one group. |
| Metastore.ReleaseReferences | internal/metastore/segments.go:552-579 | The loops over the groups lower each object's count by its deleted rows and total the deletions. |
| Metastore.PostgresStore.InsertSegments | internal/metastore/segments.go:169-349 | In place: the whole batch commits and every index is accepted, or nothing changes and the first failed check is reported; the invariants hold. |
| Metastore.PostgresStore.DeleteSegmentsByTimerange | internal/metastore/segments.go:503-589 | In place: the specified deletion and its count, or nothing; the invariants hold. |
| Metastore.PostgresStore.UpsertFlow | internal/metastore/flows.go:136-235 | In place: create, update or refuse as specified; the invariants hold. |
| Metastore.PostgresStore.DeleteFlow | internal/metastore/flows.go:425-468 | In place: the flow, its rows and one reference per distinct object go, or the flow was unknown and nothing changes. |
| Paging.EffectiveLimit | internal/metastore/segments.go:363-366 | A limit from 1 to 1000 is kept and any other becomes 1000. |
| Paging.PageIsExact | internal/metastore/segments.go:353-501 | A page holds exactly as many rows as were asked for up to 1000, or all if fewer match: the first matching rows past the cursor by lower bound in the direction asked for. It names a cursor if and only if it leaves a match out, and what it leaves out lies past that cursor. Matching is sharing a nanosecond with the query range. |
| Paging.ListVerdict | internal/metastore/segments.go:353-383 | A page is refused exactly for an unknown flow or a non-empty range that does not fit. |
| Paging.ListingPast | internal/metastore/segments.go:393-400 | Listing past the key of the k-th match is dropping the first k + 1 matches. |
| Paging.WholeWalk | internal/metastore/segments.go:353-501 | Following cursors on a standing store ends, is answered exactly for known flows and storable ranges, and yields every matching segment once, in order, for every limit and direction. |
| Paging.BuildPage | internal/metastore/segments.go:424-499 | The row loop, the cut at the extra row, the cursor and the page span. |
| Paging.FetchPage | internal/metastore/segments.go:353-501 | The code that asks for one row more than the page computes the specified page and its span. |
| Paging.NoSegmentTwice | internal/metastore/segments.go:393-416 | For every history of transactions before the walk and between its pages, later items come strictly later in the order and no segment is returned twice. |
| Paging.PresentThroughoutIsReturned | internal/metastore/segments.go:393-416 | For every such history, a matching segment present for every page of a finished walk is returned by it. |
| Collect.CollectRemaining | cmd/tamsctl/paginate.go:55-96 | Against any server: the result is the concatenation of the served pages up to the last one, or the reason to stop; when `maxPages` is positive at most that many pages are fetched, one that fails included. |
| Collect.CollectListing | cmd/tamsctl/paginate.go:55-96 | Against a standing store it returns the whole listing unless that takes more than `maxPages` pages; the non-advancing-cursor guard never fires. |
| Idempotency.PostgresStore.Acquire | internal/idempotency/idempotency.go:79-154 | Keys that are empty or longer than 255 are refused. A live key answers conflict to another hash, in flight while it is, and otherwise the stored response, and nothing changes; an absent or expired key is claimed. |
| Idempotency.PostgresStore.Complete | internal/idempotency/idempotency.go:156-175 | Sets status and body of the key's row, whoever holds it; no effect on an unknown key. |
| Idempotency.PostgresStore.Release | internal/idempotency/idempotency.go:177-197 | Removes the key's row and nothing else. |
| Idempotency.PostgresStore.Prune | internal/idempotency/idempotency.go:199-208 | Removes exactly the expired rows and counts them. |
| Idempotency.PostgresStore.ReapStale | internal/idempotency/idempotency.go:210-241 | Removes exactly the rows in flight for at least the threshold and counts them. |
| IdempotencyRuns.StepKeepsInv | internal/idempotency/idempotency.go:94-241 | With timely requests and a patient reaper every step keeps each running request's row in place and each key with one request. |
| IdempotencyRuns.OneOwnerPerKey | internal/idempotency/idempotency.go:94-241 | Over every interleaving of arrivals, completions, releases, crashes, pruning, reaping and time, at most one running request holds a key. |
| IdempotencyRuns.InFlightWhileRunning | internal/idempotency/idempotency.go:144-149 | Over every run, from the moment a request acquires a key until it settles it, the same body is told that the key is in flight and any other that it conflicts. |
| IdempotencyRuns.CachedWasCompleted | internal/idempotency/idempotency.go:150-153 | Over every run whatever, a cached answer is one that an earlier completion of that very key carried. |
| IdempotencyRuns.ReplayUntilExpiry | internal/idempotency/idempotency.go:144-153 | From an acknowledged `Complete` until expiry, over every continuation, the same body is answered with exactly the stored status and body and any other with a conflict. |
| IdempotencyRuns.ExclusiveExactly | internal/idempotency/idempotency.go:210-241 | For every time to live, reaper threshold and bound on request time: all runs of such a server keep one owner per key if and only if the bound is within both and no applied `Release` is reported as failed. |
| IdempotencyRuns.StartedServerExactly | cmd/opentams/serve.go:142-152 | With settings that start-up accepts and requests cut off at the write timeout, all runs keep one owner per key if and only if the time to live is at least the write timeout and no applied `Release` is reported as failed. |
| IdempotencyRuns.ExpiredKeyIsShared | internal/idempotency/idempotency.go:105-111 | Whenever requests may outlast the time to live, a run in which two share a key. |
| IdempotencyRuns.ReapedKeyIsShared | internal/idempotency/idempotency.go:219-241 | Whenever requests may outlast the reaper's threshold, a run in which two share a key. |
| IdempotencyRuns.LostReleaseSharesTheKey | internal/idempotency/idempotency.go:188-197 | Whenever an applied `Release` may be reported as failed, a run of prompt requests in which two share a key. |
| Register.PassesExactly | internal/service/segment/segment.go:256-272 | A segment range passes exactly when it is non-empty, bounded, has an inclusive start and fits; it then has bounds with lower below upper. |
| Register.NothingIsLost | internal/service/segment/segment.go:140-177 | Every segment of a request is a survivor that passes or a failure with its reason, and the two counts add up. |
| Register.RejectExactly | internal/service/segment/segment.go:154-174 | Each reason to reject a segment is given exactly when it is the first that applies: no object id, no instants, an open side, an exclusive start, out of range. |
| Register.SurvivorsInOrder | internal/service/segment/segment.go:175-176 | The survivors are the segments that are not rejected, at increasing positions. |
| Register.FailuresInOrder | internal/service/segment/segment.go:154-174 | The failures are the rejected segments with their reasons, at increasing positions. |
| Register.OutcomeExactly | internal/service/segment/segment.go:135-254 | An empty request is invalid; without survivors all are rejected and nothing happens; otherwise the store's verdict on the survivors decides, and the outcome is partial exactly when some segment was rejected. |
| Register.DefectsUnreachable | internal/service/segment/segment.go:140-205 | For requests from the wire the store never reports missing strings, bad bounds, a constraint violation or an unreadable stored range. |
| Register.RetryHasNoEffect | internal/service/segment/segment.go:189-254 | A request that committed something, sent again after any run without deletions on the flow, changes nothing and is refused as an overlap or as read-only. |
| Register.Validate | internal/service/segment/segment.go:143-177 | The loop sorts out survivors and failures and records each survivor's position in the request, in order. |
| Register.Gather | internal/service/segment/segment.go:207-240 | The accepted segments are all survivors; the per-segment rejection branch is dead. |
| Register.RegisterBatch | internal/service/segment/segment.go:128-254 | The service on the in-place store computes the specified registration and accounts for every segment. |
| PostHandler.CompletedReplays | internal/httpx/handlers/segments.go:571-624 | A row completed with any response the handler completes with replays that response. |
| PostHandler.StatusSurvivesExactly | internal/httpx/handlers/segments.go:576-624 | A cached status comes back as itself if and only if it is one the handler completes with, 200 only with a body that decodes; every other, 500 included, comes back as 201. |
| PostHandler.Finalise | internal/httpx/handlers/segments.go:378-409 | Completion with or without a body: when it counts as final and what it leaves in the row. |
| PostHandler.DecisionIsAnswer | internal/httpx/handlers/segments.go:283-353 | The answer to every request: 400 for an empty one, 200 with the failures when some segment does not pass, 422 for a shared instant, 404, 403, 409 for a reaped object, and 201 when all is stored, with the order in which they apply and the tables before and after. |
| PostHandler.CreatedMeansStored | internal/httpx/handlers/segments.go:321-326 | 201 is answered if and only if this call stored every segment of a non-empty request. |
| PostHandler.BulkFailureIsExact | internal/httpx/handlers/segments.go:327-353 | A 200 body lists exactly the rejected segments, in order and with their reasons, and the others were stored by this call. |
| PostHandler.Settle | internal/httpx/handlers/segments.go:269-358 | On every path, with a panic before the commit, after it or after settling the key included, a working safety net leaves the key absent or completed with the response decided on, and no other key changes. |
| PostHandler.PostFlowSegments | internal/httpx/handlers/segments.go:207-358 | The whole handler: refusals, conflicts and replays change nothing and have their statuses; an acquired key registers once, is answered as its request deserves, and settles. Errors that reach the middleware leave with the status it gives them. |
| PostHandler.ReplayReproduces | internal/httpx/handlers/segments.go:265-267 | Over every interleaving of requests, from a completed response until its key expires the same body is answered with that status, and with the whole response when its body was encoded. |
| ObjectDelete.Dedup | internal/objectstore/objectstore.go:273-282 | The loop keeps the first occurrence of every id in order. |
| ObjectDelete.DistinctIsSet | internal/objectstore/objectstore.go:273-282 | The deduplicated list has no repetition and the same ids. |
| ObjectDelete.DistinctInOrder | internal/objectstore/objectstore.go:273-282 | It is in the order of first occurrence. |
| ObjectDelete.CodesExactly | internal/objectstore/objectstore.go:364-377 | Which per-key codes are transient, which are authentication failures, and that any other is passed on. |
| ObjectDelete.DeleteChunks | internal/objectstore/objectstore.go:284-335 | Chunks of at most a thousand, in order, each sent once; every id's outcome is faithful to the replies, cancellation midway included. |
| ObjectDelete.DeleteObjects | internal/objectstore/objectstore.go:265-343 | For every id list and backend: one result per input position, free of error if and only if the last word on that id was a successful call without an error for it, and otherwise with that last word, or transient if it was never sent; or no results, exactly when the call did not start or authentication failed. |
| Overlay.WrappedIsExact | tools/internal/opentamsclient/timerange.go:52-63 | The wrapping int64 arithmetic gives the instant if and only if the instant fits. |
| Overlay.NsRoundTrip | tools/internal/opentamsclient/timerange.go:12-65 | Reading a range printed from int64 nanoseconds gives them back, for all a < b; so does the server's own conversion. |
| Overlay.ReaderAgrees | tools/internal/opentamsclient/timerange.go:41-65 | On every range with bounds the client's reader agrees with the server's, and an open side reads as the end of int64. |
| Overlay.StoredReads | tools/internal/opentamsclient/timerange.go:45-65 | The client reads every segment the server stores as its own instants. |
| Overlay.CheckAlignment | tools/opentamsedit/fork.go:383-399 | Accepts if and only if every segment reads and none straddles an end of the window; otherwise reports the first segment's first fault. |
| Overlay.OverlaySegments | tools/opentamsedit/fork.go:355-381 | Succeeds exactly on aligned forward windows and returns the parent's segments outside the window and the slate; panics exactly on aligned windows that are not forward. |
| Overlay.OverlayMeaning | tools/opentamsedit/fork.go:346-381 | For parent segments as the server stores them, the result shares no instant between segments and plays the slate at every instant of the window and what the parent plays at every other instant. |
| HtmlEscapes.DecodeHTMLEscapes | cmd/tamsctl/output.go:70-98 | The index loop computes the specified rewriting of any byte string. |
| HtmlEscapes.ValueIsKept | cmd/tamsctl/output.go:61-69 | The text reads the same after rewriting, by the string escapes of section 7 of RFC 8259: same structure characters, same string contents. |
| HtmlEscapes.NoGenuineEscapeLeft | cmd/tamsctl/output.go:67-69 | No unescaped escape for ampersand, less-than or greater-than is left at any position. |
| HtmlEscapes.OnlyGenuineRewritten | cmd/tamsctl/output.go:67-69 | A text without genuine escapes is left as it is. |
| HtmlEscapes.EscapesExactly | cmd/tamsctl/output.go:78-92 | The escapes recognised are the five spellings, letter by letter. |
| HtmlEscapes.RewriteIsIdempotent | cmd/tamsctl/output.go:70-98 | Rewriting twice is rewriting once, for every byte string. |
| Dataset.NumbersFollowOrder | tools/scaletest/dataset/rowgen.go:155-165 | Global segment numbers follow (flow, segment) order. |
| Dataset.NumberingIsBijection | tools/scaletest/dataset/rowgen.go:155-165 | The numbering is a bijection from the plan's segments onto the objects. |
| Dataset.RowIsConsistent | tools/scaletest/dataset/rowgen.go:139-153 | A row's text parses to its bounds, a flow's rows start at zero, last a chunk each and touch without overlapping, and a row references the object of its global number. |
| Dataset.SegmentIter.constructor | tools/scaletest/dataset/rowgen.go:315-334 | A worker starts with exactly its own rows ahead; an out-of-range worker with none. |
| Dataset.SegmentIter.Next | tools/scaletest/dataset/rowgen.go:336-350 | Yields the next of the rows still ahead, or says there are none. |
| Dataset.WorkersCoverAll | tools/scaletest/dataset/rowgen.go:300-305 | For every worker count, the workers' rows together are the single iterator's rows, as multisets. |
| Dataset.WalkFollowsNumbers | tools/scaletest/dataset/rowgen.go:283-297 | A single walk emits the segments by their global numbers, each once and in order. |
| Dataset.RowsInAll | tools/scaletest/dataset/plan.go:99-124 | Together the workers emit as many rows as the plan counts. |
| Dataset.WorkersVisitDisjointFlows | tools/scaletest/dataset/rowgen.go:300-305 | Two workers never visit the same flow. |
| Dataset.SourcesHoldFlows | tools/scaletest/dataset/plan.go:108-112 | The planned sources are just enough to hold all flows. |
| Dataset.FlowCollectionIter.constructor | tools/scaletest/dataset/rowgen.go:218-226 | Starts with all collection rows ahead. |
| Dataset.FlowCollectionIter.Next | tools/scaletest/dataset/rowgen.go:228-250 | Yields the next collection row still ahead, or says there are none. |
| Dataset.CollectionMembers | tools/scaletest/dataset/rowgen.go:207-208 | The collection rows are exactly the pairs of a source's first flow and another flow of that source. |
| Dataset.CollectionRows | tools/scaletest/dataset/plan.go:114-124 | Their number is the number of flows less the number of sources. |

## Left out

- HTTP routing, OpenAPI validation, problem bodies, logging, metrics, health probes, authentication, presigning and the media tools: plumbing or foreign calls.
- Flow tags, labels, bit rates and collections, source editing, and flow and object listings: one-field updates and easier copies of the segment listing.
- Segment columns that no modelled decision reads (`ts_offset`, `last_duration`, sample counts, URLs) and the timestamps of rows.
- The base64 and JSON text of cursors, JSONB normalisation of stored bodies, UUID parsing and the SHA-256 of request bodies.
- The load test's statistics and reports, and the float rounding in `Compose`: the number of shallow flows is given.
- Metastore.PostgresStore.InsertSegments: the comparison of object time ranges across a batch (internal/metastore/segments.go:264-299) is an outcome given with the batch, because entries of one batch are not compared with each other and no invariant follows; `rangeContains`, which it calls, is modelled on its own. The 32-bit width of `ref_count` is not modelled.
- Metastore.PostgresStore.DeleteFlow: interleavings inside the transaction are not modelled.
- Idempotency.PostgresStore.Acquire: two concurrent inserts of one new key are serialised, so the unique-key error of the loser is not modelled.
- PostHandler.PostFlowSegments: parsing of the flow id and the body happens before the model starts; a store call that fails has no effect, whereas IdempotencyRuns also covers calls that fail after taking effect. Problem details are fixed texts.
- Collect.CollectRemaining: the server is a finite sequence of behaviours and a call past its end fails, so an unlimited collection against an endless server is not modelled.
- Paging.FetchPage: rows are read from one state of the tables; decoding errors of other columns are not modelled, nor is a malformed cursor.
- Register.RegisterBatch: metrics, and the reasons' wording.
- ObjectDelete.DeleteObjects: whether a failed call was an authentication failure or a cancellation comes with the reply; the wording of errors is not modelled.
- Dataset.SegmentIter.Next: the plain iterator (tools/scaletest/dataset/rowgen.go:279-297) is the partitioned one with a single worker; ids are indices rather than hashes, and int64 overflow of indices is not modelled.
- Dataset.FlowCollectionIter.Next: the sort order column is the difference of the pair, without its narrowing to 32 bits.
- Dataset.RowIsConsistent: for rows whose nanoseconds fit in int64.
- Overlay.OverlaySegments: the listing inside the alignment error is not modelled.
