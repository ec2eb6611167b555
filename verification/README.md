# V2X world: verified kernel pieces

A Dafny model of the deterministic parts of the V2X simulator, its copilot and its
tooling, with proofs of what those parts promise. Check it with
`dafny verify dfyconfig.toml`.

| module | models | main result |
|---|---|---|
| `Events`, `BinaryHeap`, `EntryLists`, `Sets`, `EagerQueue`, `Runs`, `Debts`, `Scheduler` | the event scheduler | over every run of calls the lazy heap with compaction behaves as a sorted list that deletes at once; compaction reads at most two entries per successful cancellation; dispatch order is the determinism contract |
| `Calendar`, `IsoTimestamp`, `Decimals`, `Texts` | civil dates and timestamps | the division chain is the Gregorian calendar for every integer day, and a bijection; timestamps read back exactly in years 0 to 9999 and sort as the instants do |
| `ToolNames`, `ToolSurface`, `Json`, `SchemaClosure` | the copilot's tool surface | name mangling is undone if and only if no `__` and no `_.` occurs; closing a schema keeps its meaning at every depth, and leaves it standing alone, each if and only if a stated condition holds |
| `Graph`, `Bridging` | joining the parts of a road network | the result is connected, with the fewest possible additions, each the least link, and the additions depend on positions and links only |
| `Grid` | the uniform spatial grid | grid search finds exactly what brute force finds, for every list of points, if and only if the candidate range is covered, saturated corners included |
| `CanonicalJson` | canonical key order | two values get the same form exactly when they are equal up to key order at every level |
| `CurlConfig` | the HTTP request configuration | every accepted request, printed and read back (quoted values as `curl` reads them, options in the forms that are printed), is the same request |
| `TurnLoop` | the copilot's turn loop | for any model and transport: budgets, permissions, a complete conversation, and a transcript that tells exactly what was sent |
| `DocComments` | the cleaning of documentation in generated code | no word is lost; exactly where a fence or a double space survives |
| `Reflector`, `Declarations`, `DeclarationReading`, `DeclarationLosses` | the build-time reader of declarations | what the reader makes of the formatter's layout, whatever the formatter decides by width, and that reading undoes the layout if and only if the items are intact, a condition on their attributes, types and lines |

## How the model is built

The scheduler and the copilot are classes with the source's own fields. Their methods are
proved against functions on values (`EagerQueue`, `TurnLoop.AskSpec`), and the theorems over
whole runs are about those functions. The scheduler's heap vector is owned by value in the
source, so it is a sequence here; the heap itself is a real sift-up, sift-down binary heap.
Loops of the source are loops here; recursive code is recursive here.

Panics are results: `EagerQueue.Panic` names the three ways a scheduling call stops. The debug
build is modelled, so a counter at the end of 64 bits panics rather than wraps and the order
assertion of dispatch is active; it is an `assert` in `CheckDispatchOrder` and is proved.
Iteration over sets whose order the language leaves open is an arbitrary choice here, so the
results hold for every order.

## Where the code differs from its documentation

Each of these follows the code, and a member states the difference.

- `crates/v2xw-core/src/event.rs:199-203` calls the reentrancy counter a count of events not yet
  dispatched. Over every run it is the step-backs still pending plus those that left the queue
  otherwise than by a key that goes back (cancelled, cleared, or dispatched after an earlier
  step-back of the same instant) plus those counted although no handle was left for them; so
  it is exact if and only if there are none of these (`Debts.DebtIsExactIff`).
  `Scheduler.DebtOutlivesItsEvent` and `Scheduler.DebtOutlivesItsDispatch` are two runs in which it
  is not. The counter is an upper bound, which is what the order check needs.
- `crates/v2xw-copilot/src/tools.rs:14` says the absence of `__` makes the name mapping
  one-to-one. It does not: `a_.b` and `a._b` share a tool name
  (`ToolNames.NoDoubleUnderscoreIsNotEnough`).
- `crates/v2xw-copilot/src/tools.rs:289-290` says a closed schema stands alone. It does, in the sense
  that no reference leads out of it, exactly for the schemas that are `SelfContained`
  (`SchemaClosure.StandsAloneIff`). It means the same as in the document exactly for those that are
  `Closable` (`SchemaClosure.ClosingKeepsMeaning`). Neither is the other:
  `SchemaClosure.ClosingCanChangeMeaning` and `SchemaClosure.StandingAloneIsNotMeaningTheSame` are
  witnesses.
- `crates/v2xw-engine/build.rs:314-317` says the reader takes the formatter's output. Of the layout in
  `Declarations` it does not read everything: an attribute of a member that goes on over several
  lines, as at `crates/v2xw-core/src/card.rs:325-328`, reads as a variant named `)]` that takes the
  documentation of the next one, and in a struct wipes out what stands above the field
  (`DeclarationLosses.WrappedAttributeReadsAsVariant`,
  `DeclarationLosses.WrappedAttributeWipesOutField`); inside a struct-like variant only its opening
  line is read; above an item it is read whole, unless a line inside it ends in a bracket; a
  variant whose fields stay on one line, as in `Count { count: u64 },`, comes back without them
  (`DeclarationLosses.OneLineVariantLosesItsFields`); a field whose type has a line of its own is not
  read (`DeclarationLosses.WideFieldIsLost`); and an item without members does not come back
  (`DeclarationLosses.EmptyItemIsLost`). `DeclarationLosses.ReflectUndoesLayout` says that within that
  layout these are all.
- `crates/v2xw-core/src/grid.rs:192-196` and `216-222` say the largest radius covers the whole
  coordinate space. It does so for no centre: 2147483647 steps on both sides cannot reach
  4294967296 coordinates (`Grid.NeverTheWholeSpace`).
- `crates/v2xw-msg/build.rs:240-243` says runs of spaces become one and fences are removed. Two
  spaces survive across a dropped fence (`DocComments.OnePassIsNotEnough`); `DocComments.BlankRunsCollapse`
  says exactly when. A fence survives only behind an escaped backtick
  (`DocComments.FencesAreDropped`, `DocComments.EscapedTickKeepsAFence`), which no literal of the
  language holds, so in generated code every fence is dropped (`DocComments.NoFenceInLiterals`).
- `legacy/gui/agent.py:604` takes the first component of a network; without nodes there is none
  and the source raises an error, which `Bridging.AutoConnect` returns.

## Model

| member | source | states |
|---|---|---|
| BinaryHeap.Push | crates/v2xw-core/src/event.rs:327-334 | adding to the heap keeps heap order and adds exactly the one entry |
| BinaryHeap.Pop | crates/v2xw-core/src/event.rs:382-393 | the entry taken out is the least by time, priority and sequence number, and the rest is a heap of all the others |
| BinaryHeap.From | crates/v2xw-core/src/event.rs:365-370 | a vector in any order becomes a heap of the same entries |
| BinaryHeap.RootIsLeast | crates/v2xw-core/src/event.rs:422-432 | heap order between parents and children puts a least entry at the root |
| EagerQueue.AboutInsert | crates/v2xw-core/src/event.rs:327-334 | the reference queue stays sorted when an event is scheduled and gains that event only |
| EagerQueue.WithoutRemovesOne | crates/v2xw-core/src/event.rs:336-351 | cancelling a pending handle takes out one event, the one it names |
| EagerQueue.WithoutKeepsOrder | crates/v2xw-core/src/event.rs:336-351 | cancelling keeps the order of all other events |
| EagerQueue.WithoutAbsent | crates/v2xw-core/src/event.rs:344-347 | cancelling a handle that is not pending changes nothing |
| EagerQueue.HeadIsLeast | crates/v2xw-core/src/event.rs:376-393 | the head of the reference queue precedes every other pending event |
| Runs.RunAppend | crates/v2xw-core/src/event.rs:212-488 | a run with one more call is the run followed by that call |
| Runs.ApplyKeepsConsistent | crates/v2xw-core/src/event.rs:247-393 | every call keeps: pending events lie in the present or future, handles are unique, and only reentrant ones sort before the last dispatched key |
| Runs.DispatchOrder | crates/v2xw-core/src/event.rs:289-315 | over every run, keys come out in order except that a reentrant event may step back, within its instant only |
| Runs.RunsInKeyOrder | crates/v2xw-core/src/event.rs:226-246 | the determinism contract: without reentrant schedules every run dispatches strictly increasing keys, first in first out within a time and class |
| Runs.RunsInTimeOrder | crates/v2xw-core/src/event.rs:434-439 | simulated time never decreases, over every run, reentrant schedules included |
| Runs.EveryHandleHasOneFate | crates/v2xw-core/src/event.rs:336-344 | each handle ever issued is still pending or was fired, cancelled or cleared exactly once, also across a clear; no other handle appears |
| Scheduler.PushKeepsLists | crates/v2xw-core/src/event.rs:327-334 | after a push the live heap entries are the reference queue with the event inserted |
| Scheduler.CancelKeepsLists | crates/v2xw-core/src/event.rs:344-351 | forgetting a live handle adds exactly one dead entry and removes that event from what is pending |
| Scheduler.RetainedCount | crates/v2xw-core/src/event.rs:360-372 | the entries a compaction keeps and the dead ones add up to the heap |
| Scheduler.Rebuild | crates/v2xw-core/src/event.rs:364-370 | a rebuilt heap holds the live entries, all of them and each once |
| Scheduler.RebuildKeepsLists | crates/v2xw-core/src/event.rs:353-372 | compaction changes neither what is pending nor the dispatch order and leaves no dead entry |
| Scheduler.RootIsHead | crates/v2xw-core/src/event.rs:478-487 | a live entry at the root of the heap is the head of the reference queue |
| Scheduler.PopLiveKeepsLists | crates/v2xw-core/src/event.rs:382-389 | a live entry taken from the root is the reference queue's head, and afterwards nothing in the heap precedes it |
| Scheduler.PopDeadKeepsLists | crates/v2xw-core/src/event.rs:390 | a dead entry at the root means the dead counter is positive, so it does not underflow; dropping it changes nothing that is pending |
| Scheduler.Scheduler.constructor | crates/v2xw-core/src/event.rs:213-224 | a new scheduler is the empty reference queue at time 0 |
| Scheduler.Scheduler.Push | crates/v2xw-core/src/event.rs:326-334 | issues the next sequence number as handle and inserts the event; overflow of the counter leaves everything alone |
| Scheduler.Scheduler.Schedule | crates/v2xw-core/src/event.rs:226-261 | refuses the past and an earlier priority at the current instant, in that order, and otherwise does what the reference queue does |
| Scheduler.Scheduler.ScheduleAfter | crates/v2xw-core/src/event.rs:263-287 | schedules at now plus the delay, stopping at the end of time, and never panics for being in the past |
| Scheduler.Scheduler.ScheduleReentrant | crates/v2xw-core/src/event.rs:289-315 | refuses only the past; the debt grows by one exactly when the event sorts before the instant being dispatched, also when no handle is left for it |
| Scheduler.Scheduler.Cancel | crates/v2xw-core/src/event.rs:336-351 | true exactly when the event was pending; afterwards the dead entries are at most the pending events, or 64, and the bound of `PendingEntries` is set to the pending events |
| Scheduler.Scheduler.CompactIfNeeded | crates/v2xw-core/src/event.rs:353-372 | rebuilds exactly when dead entries exceed 64 and half the heap, then reading each entry of the heap once and keeping the live ones; otherwise changes nothing; either way keeps the refinement and the amortised cost |
| Scheduler.Scheduler.Pop | crates/v2xw-core/src/event.rs:374-393 | returns and removes the reference queue's head and moves the clock to it; the debt is paid exactly by a key that goes back |
| Scheduler.Scheduler.Dispatch | crates/v2xw-core/src/event.rs:384-388 | handing out the least live entry restores the whole invariant |
| Scheduler.Scheduler.CheckDispatchOrder | crates/v2xw-core/src/event.rs:395-416 | both debug assertions hold: time does not go back, and an earlier key finds the debt positive |
| Scheduler.Scheduler.PeekTime | crates/v2xw-core/src/event.rs:418-425 | the time the next pop will return, or nothing; pending events are unchanged |
| Scheduler.Scheduler.PeekKey | crates/v2xw-core/src/event.rs:427-432 | the key the next pop will return, or nothing; pending events are unchanged |
| Scheduler.Scheduler.Len | crates/v2xw-core/src/event.rs:441-444 | the number of events in the reference queue |
| Scheduler.Scheduler.IsEmpty | crates/v2xw-core/src/event.rs:446-449 | whether the reference queue is empty |
| Scheduler.Scheduler.PendingEntries | crates/v2xw-core/src/event.rs:451-458 | at least the pending events, and no more than those plus the larger of 64 and what was pending right after the last successful cancellation, which `Cancel` sets and every other call keeps |
| Scheduler.Scheduler.Clear | crates/v2xw-core/src/event.rs:470-476 | nothing is pending, and clock, last key and sequence counter stay, so handles stay unique |
| Scheduler.Scheduler.PurgeHead | crates/v2xw-core/src/event.rs:478-487 | afterwards the root of the heap is the next event to dispatch |
| Scheduler.Perform | crates/v2xw-core/src/event.rs:212-488 | each call has the outcome the reference queue has and the stated effect on the reentrancy counter; the space bound survives every call that dispatches nothing, and each successful cancellation and each clear restores it |
| Scheduler.Replay | crates/v2xw-core/src/event.rs:183-488 | whole runs: outcomes equal the reference queue's; compactions read at most twice the successful cancellations in all; dead entries are at most 64 or what was pending after the run's last successful cancellation, and at most 64 or what is pending now if nothing was dispatched since; the reentrancy counter is the one of `Debts.Books` |
| Scheduler.DebtOutlivesItsEvent | crates/v2xw-core/src/event.rs:199-203 | a run with a cancelled step-back: nothing is pending and the counter is one |
| Scheduler.DebtOutlivesItsDispatch | crates/v2xw-core/src/event.rs:199-203 | a run without any cancellation: two step-backs of one instant are dispatched, nothing is pending and the counter is one |
| Debts.ApplyBalanced | crates/v2xw-core/src/event.rs:301-416 | every call keeps: the counter is the pending step-backs, the lost ones and those that got no handle, and only step-backs sort before the last key |
| Debts.DebtIsExactIff | crates/v2xw-core/src/event.rs:199-203 | over every run the counter is that sum, so it is the number of step-backs not yet dispatched if and only if none was lost and none went without a handle |
| Calendar.YearOfEraContains | crates/v2xw-cli/src/wall.rs:59-70 | the division chain puts each day of a 400-year era in the year that contains it |
| Calendar.YearOfEraUnique | crates/v2xw-cli/src/wall.rs:59-70 | and in no other |
| Calendar.MonthContains | crates/v2xw-cli/src/wall.rs:59-70 | the month formula finds the month that contains the day of the year |
| Calendar.EpochIsDayZero | crates/v2xw-cli/src/wall.rs:58-70 | day 0 is 1970-01-01 |
| Calendar.NextDayAgrees | crates/v2xw-cli/src/wall.rs:58-70 | for every integer day the date exists, and the date of the next day is the next day of the Gregorian calendar |
| Calendar.LaterDaysAreLaterDates | crates/v2xw-cli/src/wall.rs:58-70 | later days have later dates |
| Calendar.EveryDateIsReached | crates/v2xw-cli/src/wall.rs:58-70 | every date of the calendar is the date of some day |
| Calendar.Bijection | crates/v2xw-cli/src/wall.rs:58-70 | days and dates are in bijection, with days-from-civil as the inverse |
| IsoTimestamp.NothingOverflows | crates/v2xw-cli/src/wall.rs:46-70 | on every 64-bit input every value computed on the way fits 64 bits, each of them listed, and the casts to 32 bits lose nothing |
| IsoTimestamp.TextIsLayout | crates/v2xw-cli/src/wall.rs:42-56 | in years 0 to 9999 the text is 20 characters, the fixed-width fields of section 5.6 of RFC 3339 |
| IsoTimestamp.RoundTrip | crates/v2xw-cli/src/wall.rs:42-56 | the text decodes back to its second if and only if the year has four digits |
| IsoTimestamp.TextOrderIsTimeOrder | crates/v2xw-cli/src/wall.rs:42-56 | in those years texts compare as the instants do |
| IsoTimestamp.FourDigitYears | crates/v2xw-cli/src/wall.rs:42-56 | which seconds those years are |
| ToolNames.ToolName | crates/v2xw-copilot/src/tools.rs:115-120 | a tool name holds no dot |
| ToolNames.MangleRoundTrip | crates/v2xw-copilot/src/tools.rs:115-130 | the method name comes back if and only if it contains neither `__` nor `_.` |
| ToolNames.NoDoubleUnderscoreIsNotEnough | crates/v2xw-copilot/src/tools.rs:12-14 | two methods without `__` that share a tool name |
| ToolNames.ToolNamesDiffer | crates/v2xw-copilot/src/tools.rs:12-14 | names free of both never collide |
| ToolSurface.FromSpecs | crates/v2xw-copilot/src/tools.rs:178-186 | the index keeps the first tool of each name |
| ToolSurface.GetFindsTheFirst | crates/v2xw-copilot/src/tools.rs:232-236 | looking a name up finds its first tool, and nothing exactly when there is none |
| ToolSurface.EveryMethodIsFound | crates/v2xw-copilot/src/tools.rs:172-231 | every method a document lists is reached by its own tool name and classed by its own effect, when the names can be mangled without loss |
| ToolSurface.ReadOnlyOffersNoMutation | crates/v2xw-copilot/src/tools.rs:255-276 | what is offered is every tool, less those that change the run when mutation is not allowed |
| SchemaClosure.Discover | crates/v2xw-copilot/src/tools.rs:299-305 | new names join the set and the stack, known ones do not, in any order |
| SchemaClosure.CloseSchema | crates/v2xw-copilot/src/tools.rs:289-324 | the worklist ends, on cyclic schemas too, with exactly the names reachable through references; what it returns means the same as the schema if and only if the schema is closable |
| SchemaClosure.BodyNames | crates/v2xw-copilot/src/tools.rs:291-315 | the names reached from the schema's body are closed under references |
| SchemaClosure.DefsOfResult | crates/v2xw-copilot/src/tools.rs:308-324 | `$defs` is exactly the reached names the document defines, nothing missing and nothing extra |
| SchemaClosure.SameUnlessDiffers | crates/v2xw-copilot/src/tools.rs:349-369 | at each depth the rewritten value unfolds to the same tree if and only if nothing within that depth reads differently |
| SchemaClosure.NeverDiffers | crates/v2xw-copilot/src/tools.rs:289-324 | without references into `$defs`, and with every reached name defined on both sides or neither, nothing ever reads differently |
| SchemaClosure.ChainDiffers | crates/v2xw-copilot/src/tools.rs:289-324 | otherwise something does, as many levels down as the chain of references is long |
| SchemaClosure.ClosingKeepsMeaning | crates/v2xw-copilot/src/tools.rs:289-324 | the closed schema, read against its own `$defs`, means at every depth what the original means in its document, if and only if it is closable |
| SchemaClosure.ClosingCanChangeMeaning | crates/v2xw-copilot/src/tools.rs:289-324 | a schema whose reference into the document runs into a definition it brought: closing changes what it means |
| SchemaClosure.RewriteMovesRefs | crates/v2xw-copilot/src/tools.rs:348-369 | rewriting turns every reference into the document into a local one and keeps the local ones |
| SchemaClosure.StandsAloneIff | crates/v2xw-copilot/src/tools.rs:289-324 | the closed schema stands alone, no reference leading out of it, if and only if the schema is self-contained |
| SchemaClosure.StandingAloneIsNotMeaningTheSame | crates/v2xw-copilot/src/tools.rs:289-324 | a schema that stands alone and is not closable |
| SchemaClosure.NoDocumentRefsRemain | crates/v2xw-copilot/src/tools.rs:348-369 | no reference into the document remains, except in the one case stated: a copied component that is named `$ref` and is itself such a string |
| Graph.ExtraLinkSplits | legacy/gui/agent.py:600-616 | a path over one added link avoids it or is cut at it |
| Graph.OneLinkOneLeader | legacy/gui/agent.py:600-616 | one link lowers the number of components by at most one |
| Graph.AdditionsNeeded | legacy/gui/agent.py:580-583 | no way of connecting a graph uses fewer links than components less one |
| Bridging.Adjacency | legacy/gui/agent.py:585-588 | neighbours are exactly the linked nodes, both ways |
| Bridging.Search | legacy/gui/agent.py:590-598 | the search from an unseen node finds exactly its component, in whatever order neighbours come |
| Bridging.Components | legacy/gui/agent.py:589-599 | all components, each once, in the order of their least nodes |
| Bridging.ShortestLink | legacy/gui/agent.py:604-611 | the least link by distance, then the two indices, over all pairs |
| Bridging.AutoConnect | legacy/gui/agent.py:580-616 | all input edges stay as a prefix, and one least link from the merged part is added for each further component; an empty network is the error it is in the source |
| Bridging.LaterComponentUntouched | legacy/gui/agent.py:603-615 | links added so far do not reach the components not yet merged |
| Bridging.EachLinkJoinsTwoParts | legacy/gui/agent.py:603-615 | each addition joins two parts that were disconnected when it was added |
| Bridging.BridgingConnectsWithFewest | legacy/gui/agent.py:580-583 | the result is connected and no other set of additions that connects the network is smaller |
| Bridging.AdditionsAreDetermined | legacy/gui/agent.py:580-583 | the additions depend only on distances and on which nodes are linked, not on edge order, direction, repetition or iteration order |
| Grid.CellIsHalfOpen | crates/v2xw-core/src/grid.rs:126-145 | a cell is one half-open interval per axis, equally wide on both sides of the origin; the extreme cells take in all beyond |
| Grid.CoordinateOrder | crates/v2xw-core/src/grid.rs:126-145 | cells follow the order of positions, saturated or not |
| Grid.StepCrossesFewCells | crates/v2xw-core/src/grid.rs:210-215 | a step of at most the radius crosses at most `ceil(radius / size)` cell borders |
| Grid.AboutRectangle | crates/v2xw-core/src/grid.rs:205 | a range of cells is exactly the rectangle, in strictly ascending order |
| Grid.AboutNeighborhood | crates/v2xw-core/src/grid.rs:182-206 | the neighbourhood is the clamped square, at the corners of the coordinates too |
| Grid.NeighborhoodAscends | crates/v2xw-core/src/grid.rs:171-206 | ascending `x`, then ascending `y`, each cell once |
| Grid.NeighborhoodIsRingBall | crates/v2xw-core/src/grid.rs:66-77 | the neighbourhood is the ball of the ring distance if and only if the radius is below 2147483647 |
| Grid.NeverTheWholeSpace | crates/v2xw-core/src/grid.rs:192-196 | for every centre and radius some cell is not in the neighbourhood |
| Grid.CandidatesCompleteIff | crates/v2xw-core/src/grid.rs:208-237 | the candidate cells hold every point within the radius if and only if they reach the four extreme ones |
| Grid.ModerateRadiiAreCovered | crates/v2xw-core/src/grid.rs:210-237 | up to 2147483647 rings they always do, saturated positions included |
| Grid.NineCellsSuffice | crates/v2xw-core/src/grid.rs:171-180 | the three-by-three query suffices when the range is at most the cell size |
| Grid.SearchEqualsBruteForce | crates/v2xw-core/src/grid.rs:208-237 | filtering the candidate cells by true distance finds exactly the points a scan of all points finds, for every list of points, if and only if the candidate range is covered on both axes; and no point twice |
| Grid.BoxCellsAreThoseMet | crates/v2xw-core/src/grid.rs:239-254 | a box query yields exactly the cells the box meets, ascending, and nothing for an empty box |
| CanonicalJson.InsertMemberSorted | crates/v2xw-core/src/hash.rs:171-172 | the sorted table stays sorted by key |
| CanonicalJson.InsertMemberTable | crates/v2xw-core/src/hash.rs:171-172 | a later member with the same key replaces the earlier one, and no other entry changes |
| CanonicalJson.SortKeysKeepsMeaning | crates/v2xw-core/src/hash.rs:167-184 | the value is unchanged as nested maps and every object in it is sorted |
| CanonicalJson.SortedIsUnique | crates/v2xw-core/src/hash.rs:148-161 | a value has one sorted form |
| CanonicalJson.SameFormIffSameMeaning | crates/v2xw-core/src/hash.rs:148-165 | two values get the same form exactly when they are equal up to key order at every level |
| CanonicalJson.SortKeysIsIdempotent | crates/v2xw-core/src/hash.rs:167-184 | sorting twice is sorting once, and exactly sorted values stay as they are |
| CurlConfig.Quote | crates/v2xw-copilot/src/http.rs:275-301 | escapes character by character and stops at the first control character that cannot be sent, naming it |
| CurlConfig.AcceptedIffSendable | crates/v2xw-copilot/src/http.rs:275-301 | a value is accepted exactly when it holds no control character but tab, line feed and carriage return |
| CurlConfig.QuotedHasNoControls | crates/v2xw-copilot/src/http.rs:275-280 | what is written holds no control character, DEL included, so no line break |
| CurlConfig.QuoteRoundTrip | crates/v2xw-copilot/src/http.rs:275-301 | reading a quoted value as `curl` does gives the value back and stops at its closing quote |
| CurlConfig.Config | crates/v2xw-copilot/src/http.rs:241-273 | writes the options of the request in order, or the first reason to refuse it |
| CurlConfig.AcceptedRequests | crates/v2xw-copilot/src/http.rs:241-273 | a request is accepted exactly when its body starts like JSON and every field can be sent |
| CurlConfig.ParseUndoesLines | crates/v2xw-copilot/src/http.rs:241-273 | options printed one to a line read back as the same options |
| CurlConfig.ConfigRoundTrip | crates/v2xw-copilot/src/http.rs:241-273 | an accepted configuration is one option to a line, and reading it recovers the url, the headers and the body, and no further option |
| CurlConfig.SplitStatusRoundTrip | crates/v2xw-copilot/src/http.rs:223-235 | splitting undoes appending a line break and a 16-bit status, whatever lines the body has |
| TurnLoop.Copilot.Dispatch | crates/v2xw-copilot/src/session.rs:266-306 | at most one call goes out; what happens is up to the first tool of the name, as in `DispatchObeys`, when the index fits the tools |
| TurnLoop.DispatchObeys | crates/v2xw-copilot/src/session.rs:266-321 | by the list of tools: a name no tool has is refused; a tool that changes the run is refused to a read-only policy; one without a method never reaches the transport; any other sends its method and the arguments once and ends as the transport answers, a result within the limit unchanged |
| TurnLoop.Copilot.Ask | crates/v2xw-copilot/src/session.rs:201-264 | the conversation, the result and the calls sent are those of the specification, for every model and transport |
| TurnLoop.RoundsGrow | crates/v2xw-copilot/src/session.rs:215-263 | from any round on, the logs only grow and both budgets hold |
| TurnLoop.TurnStaysInBudget | crates/v2xw-copilot/src/session.rs:201-264 | a turn ends within its round and tool-call budgets, and a budget error means that budget is used up |
| TurnLoop.ReadOnlySendsNoMutation | crates/v2xw-copilot/src/session.rs:283-291 | a read-only turn never sends the transport a method that changes the run, even when the model names a tool it was not offered |
| TurnLoop.TranscriptTellsWhatWasSent | crates/v2xw-copilot/src/session.rs:232-256 | of any turn, failed ones too, the transport was sent exactly the calls the transcript shows, in order, with their arguments, and the transcript holds its answers |
| TurnLoop.SuccessfulTurnIsComplete | crates/v2xw-copilot/src/session.rs:201-264 | on success every call the model made is answered in order by one tool message and one step, and the last word is the model's and is the reply |
| Reflector.ReflectVariant | crates/v2xw-engine/build.rs:444-473 | the loop over a variant's fields reads what the specification reads and stops at the closing brace |
| Reflector.ReflectBody | crates/v2xw-engine/build.rs:388-498 | the loop over an item's members reads what the specification reads and stops at the brace in column zero |
| Reflector.ReflectFile | crates/v2xw-engine/build.rs:314-504 | the loop over a file reads what the specification reads |
| DeclarationReading.TopPreamble | crates/v2xw-engine/build.rs:325-379 | what is left of the documentation and attributes above an item: an attribute over several lines is gathered whole, unless a line inside it ends in a bracket, which wipes out all above |
| DeclarationReading.MemberPreamble | crates/v2xw-engine/build.rs:388-428 | what is left of them above a member, and the variants that the closing lines of attributes read as in an enum |
| DeclarationReading.VariantFieldsReadBack | crates/v2xw-engine/build.rs:444-473 | fields below a struct-like variant come back in order; of an attribute over several lines only the opening line is read; a name without its type passes what stands above it on |
| DeclarationReading.StructReadsBack | crates/v2xw-engine/build.rs:475-497 | the public fields of a struct come back in order, with what is left of their marks; private ones and those with the type on a line of its own do not |
| DeclarationReading.EnumReadsBack | crates/v2xw-engine/build.rs:418-474 | variants come back in order, each behind the phantoms of its wrapped attributes, and without its fields if it stays on one line |
| DeclarationReading.ReflectReadsLayout | crates/v2xw-engine/build.rs:314-504 | for any list of structs with named fields and enums with unit or struct-like variants, whatever the formatter decides by width, what comes back |
| DeclarationLosses.ReflectUndoesLayout | crates/v2xw-engine/build.rs:314-504 | the declarations come back as they say, in order, if and only if every item is intact: it has members, what is left of its marks and of each member's says what they all say, no variant has a wrapped attribute or its fields on one line, and no type that is read has a line of its own |
| DeclarationLosses.PlainIsIntact | crates/v2xw-engine/build.rs:314-317 | so it is for every list whose items have members, each on lines of its own, with the attributes of members on one line each |
| DeclarationLosses.WrappedAttributeReadsAsVariant | crates/v2xw-engine/build.rs:417-443 | an attribute over several lines above a variant reads as a variant `)]` with the documentation of the next one |
| DeclarationLosses.WrappedAttributeWipesOutField | crates/v2xw-engine/build.rs:475-497 | in a struct it loses the field its documentation, wire name and flags |
| DeclarationLosses.OneLineVariantLosesItsFields | crates/v2xw-engine/build.rs:418-444 | `Count { count: u64 }` on one line reads as a unit variant |
| DeclarationLosses.WideFieldIsLost | crates/v2xw-engine/build.rs:275-287 | a public field with its type on a line of its own is not read |
| DeclarationLosses.EmptyItemIsLost | crates/v2xw-engine/build.rs:360-367 | `pub struct X {}` is not read |
| Reflector.FirstValueCounts | crates/v2xw-engine/build.rs:241-253 | an option has the value the first attribute that mentions it gives |
| Reflector.AnyAttributeFlags | crates/v2xw-engine/build.rs:255-272 | a flag is set exactly when some serde attribute has it, bare or with a value |
| Reflector.AboutField | crates/v2xw-engine/build.rs:454-464 | a field keeps its name and type, is renamed by its own option before any policy, and has the flags its attributes set |
| Reflector.FirstParagraphOnly | crates/v2xw-engine/build.rs:289-309 | documentation comes to its first paragraph on one line |
| Reflector.EachPairIsReplaced | crates/v2xw-engine/build.rs:310-311 | each link bracket is replaced and nothing else is |
| Reflector.WireNamesDiffer | crates/v2xw-engine/build.rs:216-239 | kebab-case and snake_case never give two names that start in upper case and lack the separator the same wire name |
| DocComments.CleanContent | crates/v2xw-msg/build.rs:258-304 | the cursor loop with its counter of spaces computes the cleaned content |
| DocComments.WordsAreKept | crates/v2xw-msg/build.rs:239-248 | without blanks and backticks the content is the same before and after |
| DocComments.LiteralsStayWellFormed | crates/v2xw-msg/build.rs:277-286 | the content is a well-formed string literal after cleaning exactly when it was before |
| DocComments.FencesAreDropped | crates/v2xw-msg/build.rs:294-303 | a fence survives exactly where an escaped backtick stands before a run of backticks that leaves two |
| DocComments.NoFenceInLiterals | crates/v2xw-msg/build.rs:294-303 | with the escapes the language has, no fence survives |
| DocComments.EscapedTickKeepsAFence | crates/v2xw-msg/build.rs:277-303 | an escaped backtick, which the language lacks, keeps a fence |
| DocComments.BlankRunsCollapse | crates/v2xw-msg/build.rs:264-293 | two spaces survive exactly across a dropped fence or behind an escaped space |
| DocComments.OnePassIsNotEnough | crates/v2xw-msg/build.rs:240-243 | a fence between two spaces leaves both, and a second pass joins them |
| DocComments.SanitiseLine | crates/v2xw-msg/build.rs:253-313 | a documentation attribute stays one, with its indentation and its cleaned content; any other line is copied |
| DocComments.Sanitise | crates/v2xw-msg/build.rs:251-316 | line for line, in order, and no other line is touched |

## Left out

- Processes, files, the network and clocks: running `curl`, `now_iso8601_utc`, `Stopwatch`, recording and manifests.
- Printing and parsing of JSON text, SHA-256 and hexadecimal digests: values are compared, not bytes.
- Floating point: rounding, infinities and values that are not numbers.
- The fallible parsing of an OpenRPC document and the text of tool descriptions: a document is the list of its methods here.
- The patch reader and the code generation of `crates/v2xw-msg/build.rs`.
- Everything else of `legacy/gui`, and the card, geometry, context, error and display types, which would only add easy members.
- Scheduler.Scheduler.Push: the payload is never looked at, and the heap's own length counters are unbounded numbers, because a heap of 2^64 entries does not fit in memory.
- Scheduler.Scheduler.CheckDispatchOrder: is the debug build; in a release build the counter is never paid back, and nothing reads it.
- Scheduler.Scheduler.PendingEntries: is bounded by what was pending at the last successful cancellation and not by what is pending now, because in the source pops of live events may leave more dead entries than pending ones until the next cancellation.
- BinaryHeap.Pop: the standard library's heap is represented by its contract and one heap algorithm; ties in the key cannot occur, since sequence numbers are unique.
- IsoTimestamp.TextOrderIsTimeOrder: covers years 0 to 9999, outside of which the texts have other lengths.
- SchemaClosure.CloseSchema: objects are maps, so the order of members is not modelled; names holding `~0` or `~1` are compared as they stand, as in the source.
- Bridging.AutoConnect: edges are pairs of valid indices, as its callers ensure; edges of three elements do not unpack in the source. Distance is any function of two nodes.
- Grid.SearchEqualsBruteForce: metres are exact reals.
- CanonicalJson.SortKeysKeepsMeaning: is the key order; the bytes printed from the sorted value are not modelled.
- CurlConfig.Config: error messages are reduced to their reason, and the timeout is any natural number.
- CurlConfig.ParseUndoesLines: the reader takes the forms that are printed, which are some of those `curl` takes.
- TurnLoop.Copilot.Ask: the model, the transport, tools answered in process, JSON parsing, size measuring and message texts are arbitrary functions; a provider that fails ends the turn with its error as in the source.
- Reflector.ReflectFile: reads lines already classified by indentation and kind. Telling the kinds apart in raw text and letter case beyond ASCII are not modelled; generic items are skipped, as in the source.
- DeclarationReading.ReflectReadsLayout: is for structs with named fields and enums with unit or struct-like variants, not for tuple structs and tuple variants; and for attributes whose inner lines do not by themselves read as documentation, an attribute, a field or a closing brace.
- DocComments.Sanitise: works on the list of lines; splitting the text at line breaks and ending every line with one is not modelled.
