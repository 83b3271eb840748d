# Verified model of rxgraph

A Dafny model of the traversal library's search engine, topology algorithms,
expression language and lazy payload store, with machine-checked proofs that each of
its optimised forms does what a simple specification says. `dafny verify
dfyconfig.toml` checks everything.

## What is modelled

**Path search.** `Enumeration` says, in mathematics only, which paths a kernel admits
and in which order depth-first and breadth-first search meet them; `Routes` restates a
deliverable path without reference to any search (indices into lists of nodes, edges,
steps and states) and proves the enumerations sound, complete and finite; `Orders` and
`Stats` prove the delivery orders, that both strategies do the same things equally
often, and that counters conserve; `Limits` says what a path limit leaves of a run,
`DepthLimits` when a depth limit is never felt, and `Accounts` tells on routes and edge
positions alone where a run fails and what each of its counters counts. The machines are then proved against this one
specification: the resumable cursor (`Cursor`, over `DfsStack` and `BfsQueue`), parallel
breadth-first search (`ParallelBfs`, over `BfsChunks`), parallel depth-first search
(`ParallelDfs`, over `DfsShares`). `Words`, `Revisits` and `Arena` hold the revisit tests
and the parent-linked arena. `Searches` runs them to the end.

A kernel is an arbitrary function of source, edge, destination and state that may also
fail; the work quantum, thresholds, worker counts and batch sizes are arbitrary positive
numbers. An unknown start or a kernel failure is an event of the enumeration: a serial
search fails exactly when one comes before the last path asked for; parallel breadth-first
search may look less than one quantum of edges further, and parallel depth-first search
fails only when the enumeration contains one. Starts are positions in the request
list. Workers share nothing and results are collected in order, so a parallel round is
modelled as independent steps, one worker after another and in any order.

**Topology.** `Csr` builds outgoing and incoming rows by counting sort in arrays with
32-bit offsets; `Graph` reads the tables and maps external integer ids. `BreadthFirst`
defines discovery as a function and proves distances, reachability and order;
`ShortestPaths`, `Scratch`, `Walks` and `Components` prove the loops over visited arrays
against it. `DepthFirst` does the same for the explicit stack and recursive preorder.
`ExternalPaths` joins both parts: what a search over a loaded graph delivers is, in
external ids, a chain of rows of its edge table.

**Expressions.** `Values` and `Columns` hold equality, ordering and the column/literal
shortcut; `Expressions` evaluates with and without it; `Binding` compiles named state to
slots, over the stable sort of `Sorting`; `Lists` holds keyed and pairwise distinct values
and set operations. What the comparisons, conditions, list and struct
operations and transitions mean is proved on the values themselves (lemmas named `Meaning`).
Floats are abstract: equality, order, NaN, infinities and signed zero,
and integers convert to the nearest value with 53 bits, ties to even. Strings compare by
characters. Arithmetic, casts, string operations and the other list and struct operations
are one arbitrary function of their argument values.

**Payloads.** `RowGroups` selects row groups and relative rows; `Payloads` fills
write-once cells. A file is a sequence of row groups, decoding an arbitrary function
that may fail.

Where the code is stricter or looser than its own description the model follows the
code. `walk_depth_first` under a depth bound b over n nodes is sure to reach every node
within the bound exactly when b <= 1 or n <= b + 1 (`DepthFirst.GraphWalkExact`). Node
tables that pass the row checks have at most 2^32 rows; their incoming rows are right
exactly when there are fewer or every edge leaves the first node (`Graphs.Load`). The
comparison shortcut ignores operands beyond the second (`Expressions.ExtraOperands` says
exactly when that shows); no constructor of the expression language makes such a comparison.

## Model

| member | source | states |
|---|---|---|
| Routes.DeliversExactlyRoutes | crates/rxgraph/src/traversal/engine/cursor.rs:190-267 | The enumeration delivers a path if and only if it is a route: it opens at a requested, known start, every edge stands at its position in the outgoing slice, the depth and visit limits hold, all edges but the last continue and the last completes, and every state is the kernel's answer to the one before |
| Routes.CompletedIsRoute | crates/rxgraph/src/traversal/algo.rs:213-275 | Soundness of one delivered walk, edge by edge, with the node, edge and state lists aligned |
| Routes.RouteIsCompleted | crates/rxgraph/src/traversal/algo.rs:213-275 | Completeness: every route is a completed walk with the same lists |
| Routes.DfsFinishesExactly | crates/rxgraph/src/traversal/engine/cursor.rs:190-267 | A walk is among the depth-first deliveries if and only if it is completed and begins at a requested start position |
| Routes.LengthBound | crates/rxgraph/src/traversal/engine.rs:303-326 | Nodes on a live path plus the visits it may still make are exactly node count times max_visits, so every search is finite, cycles and no depth limit included |
| Routes.DeliveredLengthBound | crates/rxgraph/src/traversal/engine.rs:303-326 | A delivered path has at most node count times max_visits nodes |
| Enumeration.RoomStep | crates/rxgraph/src/traversal/engine.rs:303-326 | Following one admitted edge uses up exactly one of the visits still allowed; this is the measure by which all enumerations end |
| Enumeration.PressureDrops | crates/rxgraph/src/traversal/engine/cursor.rs:268-341 | Every step of the breadth-first queue, an edge looked at or an exhausted front popped, lowers the measure of work left |
| Orders.DfsDeliversLexicographically | crates/rxgraph/src/traversal/engine/cursor.rs:190-267 | Depth-first deliveries strictly increase lexicographically by start position and edge positions |
| Orders.DfsDeliversOnce | crates/rxgraph/src/traversal/engine/cursor.rs:190-267 | No path is delivered twice |
| Orders.BfsDeliversShortlex | crates/rxgraph/src/traversal/engine/cursor.rs:268-341 | Breadth-first deliveries never decrease in length and increase lexicographically within a length |
| Orders.BfsFinishesExactly | crates/rxgraph/src/traversal/engine/cursor.rs:268-341 | A walk is among the breadth-first deliveries if and only if it is completed and begins at a requested start position |
| Orders.RunAscends | crates/rxgraph/src/traversal/engine/cursor.rs:169-341 | Everything that happens in a run, skips, rejections and faults included, happens in strictly increasing order of coordinates: lexicographic depth first, shortlex breadth first |
| Orders.SameEvents | crates/rxgraph/src/traversal/engine/cursor.rs:169-341 | Complete depth-first and breadth-first runs go through the same starts, skips, rejections, extensions and completions, each equally often |
| Orders.SameDeliveries | crates/rxgraph/src/traversal/engine/cursor.rs:169-341 | Both strategies deliver the same multiset of paths |
| DepthLimits.LimitNotFelt | crates/rxgraph/src/traversal/engine.rs:107-118 | Any two depth limits of at least node count times max_visits give the same run in either order, event by event, so each of them stands for an absent limit |
| DepthLimits.SameRoutes | crates/rxgraph/src/traversal/engine.rs:107-118 | They also admit the same routes |
| Orders.FirstIsCanonical | crates/rxgraph/src/traversal/algo.rs:104-109 | The first breadth-first delivery is the least route by length, then start position, then edge positions; there is none exactly when no route exists |
| Stats.Conservation | crates/rxgraph/src/traversal/engine/cursor.rs:169-189 | At any moment of an error-free run all that has been looked at is a start, an evaluated or a skipped edge; evaluated edges are the accepted, the rejected and the pending ones, entries are starts plus accepted edges, and stopped paths are completed paths |
| Stats.CountPermute | crates/rxgraph/src/traversal/engine.rs:328-344 | Counters and the deepest entry do not depend on the order in which events happen |
| Stats.SameStats | crates/rxgraph/src/traversal/engine/cursor.rs:169-341 | Complete serial depth-first and breadth-first runs end with identical start, entry, evaluated, accepted, rejected, skipped, stopped and max_depth counters |
| Routes.LiveIsOpen | crates/rxgraph/src/traversal/engine.rs:249-281 | A path under construction is an unfinished route: it opens at a known start, stays within the limits and continues along every edge |
| Routes.OpenIsLive | crates/rxgraph/src/traversal/engine.rs:249-281 | Every unfinished route is such a path |
| Accounts.LookDecides | crates/rxgraph/src/traversal/engine.rs:249-281 | What happens at an edge position out of an unfinished route, by the route's node list and the kernel's answer alone: skipped when the destination already occurs max_visits times on it, otherwise rejected, failed, continued or completed as the kernel says |
| Accounts.LookHappens | crates/rxgraph/src/traversal/engine/cursor.rs:169-341 | Every edge position out of an unfinished route below the depth limit is looked at, in either strategy |
| Accounts.EventLooks | crates/rxgraph/src/traversal/engine/cursor.rs:169-341 | Nothing else is looked at |
| Accounts.HappensInTime | crates/rxgraph/src/traversal/engine/cursor.rs:164-168 | What happens before the max_paths-th path is exactly what fewer than max_paths deliverable routes precede in the order of the strategy |
| Accounts.FaultExact | crates/rxgraph/src/traversal/engine/cursor.rs:169-341 | A run up to its last path meets a fault exactly when, in time, a requested start is unknown or the kernel fails on an edge out of an unfinished route whose destination may still be visited |
| Accounts.CountTallies | crates/rxgraph/src/traversal/engine/cursor.rs:169-189 | Counting the skipped, evaluated, rejected, accepted or completing events of a run up to its last path is counting the pairs of an unfinished route and an edge position of that kind, in time |
| Accounts.CountersExact | crates/rxgraph/src/traversal/engine/cursor.rs:169-189 | The counters of such a run are the numbers of known starts opened and of route and position pairs skipped, evaluated, rejected, accepted and completed in time, and max_depth is the length of the longest accepted path |
| Accounts.TallyOnce | crates/rxgraph/src/traversal/engine/cursor.rs:169-189 | Such a number is determined by the routes |
| Words.WordsBits | crates/rxgraph/src/traversal/engine.rs:83-94 | Setting or clearing one bit of a word array changes that bit and no other |
| Words.WordsMasks | crates/rxgraph/src/traversal/engine/cursor.rs:28-49 | The array of 64-bit words behaves as a set of bit positions under the masks the source computes |
| Revisits.InsertContains | crates/rxgraph/src/traversal/engine.rs:70-102 | A fingerprint contains a node after its insertion and keeps all it contained |
| Revisits.StepCovered | crates/rxgraph/src/traversal/engine.rs:283-296 | Extending a path by a node keeps its fingerprint from denying any node on the path |
| Revisits.OriginCovered | crates/rxgraph/src/traversal/engine.rs:71-75 | The fingerprint of a start covers the start |
| Revisits.TracksIncrement | crates/rxgraph/src/traversal/engine/cursor.rs:36-42 | Counting a node keeps the single-bit, dense and sparse counters equal to the occurrences on the active path |
| Revisits.TracksDecrement | crates/rxgraph/src/traversal/engine/cursor.rs:43-49 | Uncounting the last node of the active path does the same, and never underflows |
| Revisits.EmptyTracks | crates/rxgraph/src/traversal/engine/cursor.rs:97-105 | The counter chosen for a search starts in agreement with the empty path; single bits are chosen only for max_visits 1 |
| Arena.CanVisit | crates/rxgraph/src/traversal/engine.rs:303-326 | The fingerprint followed by the parent chain answers true exactly when the node occurs fewer than max_visits times on the ancestor chain |
| Arena.EvalArenaEdge | crates/rxgraph/src/traversal/engine.rs:249-281 | Evaluating an edge over the arena gives the specified outcome of that edge and counts it; `Accounts.LookDecides` says what that outcome is |
| Arena.EvalCountedEdge | crates/rxgraph/src/traversal/engine/cursor.rs:219-249 | Evaluating an edge with a live counter gives the same outcome and counts |
| Arena.PushChild | crates/rxgraph/src/traversal/engine.rs:283-296 | Pushing an accepted edge extends the walk of its parent by that edge: parent link, depth, state and fingerprint |
| Arena.Materialize | crates/rxgraph/src/traversal/algo.rs:229-275 | Walking the parents and reversing gives the nodes, edges and states of the walk, in order |
| Arena.DeliveredShowsRoute | crates/rxgraph/src/traversal/algo.rs:229-275 | A materialized path shows its route: it ends in the last state, and with intermediate states the history is aligned with the nodes and ends in that state |
| DfsStack.RestEdge | crates/rxgraph/src/traversal/engine/cursor.rs:207-250 | Looking at one edge of the topmost frame consumes exactly the next event of the enumeration |
| DfsStack.RestPop | crates/rxgraph/src/traversal/engine/cursor.rs:208-214 | Popping an exhausted frame changes nothing that is still to come |
| DfsStack.RestPush | crates/rxgraph/src/traversal/engine/cursor.rs:251-264 | Pushing the frame of an accepted child changes nothing that is still to come |
| DfsStack.RestStart | crates/rxgraph/src/traversal/engine/cursor.rs:113-144 | Opening the next start consumes exactly its event |
| DfsStack.EdgeMove | crates/rxgraph/src/traversal/engine/cursor.rs:215-250 | Looking at an edge keeps the whole depth-first invariant: frames, live counter, arena, statistics and what is still to come |
| DfsStack.PopMove | crates/rxgraph/src/traversal/engine/cursor.rs:208-214 | Popping keeps the depth-first invariant |
| DfsStack.PushMove | crates/rxgraph/src/traversal/engine/cursor.rs:251-264 | Pushing keeps the depth-first invariant |
| DfsStack.StartMove | crates/rxgraph/src/traversal/engine/cursor.rs:113-144 | Opening a start keeps the depth-first invariant |
| Cursors.Cursor.constructor | crates/rxgraph/src/traversal/engine/cursor.rs:52-74 | A new cursor has done nothing and expects all deliveries of its starts |
| Cursors.Cursor.Accept | crates/rxgraph/src/traversal/engine/cursor.rs:169-189 | An accepted edge adds one entry and one unit of statistics; a completed one hands out its path and takes the entry back |
| Cursors.Cursor.Start | crates/rxgraph/src/traversal/engine/cursor.rs:113-144 | Opens the next start or fails on an unknown one, advancing the enumeration by its event |
| Cursors.Cursor.ScanDfs | crates/rxgraph/src/traversal/engine/cursor.rs:215-250 | Scans a range of edges up to the first accepted child, the batch limit or the path limit, advancing the enumeration by exactly the edges looked at |
| Cursors.Cursor.PopDfs | crates/rxgraph/src/traversal/engine/cursor.rs:208-214 | Pops a frame and its entry and uncounts its node |
| Cursors.Cursor.PushDfs | crates/rxgraph/src/traversal/engine/cursor.rs:251-264 | Pushes the frame of the child that was accepted |
| Cursors.Cursor.AdvanceDfs | crates/rxgraph/src/traversal/engine/cursor.rs:190-267 | One quantum of depth-first work keeps the invariant, hands out the newly completed walks in order and no more than the limit, looks at nothing behind the last path asked for, and makes progress unless the search is over |
| Cursors.Cursor.ScanBfs | crates/rxgraph/src/traversal/engine/cursor.rs:319-337 | The same scan for the front of the queue, over the parent chain |
| Cursors.Cursor.TurnBfs | crates/rxgraph/src/traversal/engine/cursor.rs:275-338 | One turn of the breadth-first loop: prefetch width, edge count, pop or scan |
| Cursors.Cursor.AdvanceBfs | crates/rxgraph/src/traversal/engine/cursor.rs:268-341 | One quantum of breadth-first work, with the same contract as the depth-first one |
| Cursors.Cursor.Initialize | crates/rxgraph/src/traversal/engine/cursor.rs:87-112 | First use opens all breadth-first starts at once or prepares the live counter; a path limit of zero or no starts end the search |
| Cursors.Cursor.Advance | crates/rxgraph/src/traversal/engine/cursor.rs:146-163 | A bounded piece of work in either strategy; an error is reported only when a fault comes before the last path asked for |
| Cursors.Cursor.Close | crates/rxgraph/src/traversal/engine/cursor.rs:75-86 | Closing drops all working state and delivers nothing more |
| Cursors.Cursor.NextBatch | crates/rxgraph/src/traversal/engine/cursor.rs:342-366 | Every batch is non-empty, no longer than its size, and continues the expected deliveries where the last one ended; when the end is reported all of them are out, and nothing behind the last one has been looked at; no edge is counted as parallel |
| Limits.LimitedPrefix | crates/rxgraph/src/traversal/engine/cursor.rs:164-168 | What has been found within the limit is a prefix of the first max_paths deliveries |
| Limits.CutFinishes | crates/rxgraph/src/traversal/engine/cursor.rs:164-168 | The part of a run up to its max_paths-th path delivers exactly the first max_paths paths of the whole run |
| Limits.CutExact | crates/rxgraph/src/traversal/engine/cursor.rs:164-168 | A run that is over, or has found enough and would not have earlier, has gone through exactly that part |
| Limits.FaultMet | crates/rxgraph/src/traversal/engine/cursor.rs:164-168 | A fault that comes next before enough has been found belongs to that part, so it cannot be missed |
| Limits.NearAhead | crates/rxgraph/src/traversal/engine/cursor/parallel.rs:229-312 | Before enough has been found, a fault among the next count events lies in the limited run or less than count events behind it |
| Limits.NoFaultMet | crates/rxgraph/src/traversal/engine/cursor.rs:164-168 | A run that is over or has found enough without a fault was not to meet one |
| BfsQueue.BfsEdgeMove | crates/rxgraph/src/traversal/engine/cursor.rs:320-337 | Looking at an edge of the front keeps the breadth-first invariant |
| BfsQueue.BfsPopMove | crates/rxgraph/src/traversal/engine/cursor.rs:311-318 | Popping an exhausted front keeps the breadth-first invariant |
| BfsQueue.InitialArena | crates/rxgraph/src/traversal/engine.rs:221-247 | Opens all starts in order, or fails when one is unknown, which is then the next event |
| BfsChunks.RangeTrace | crates/rxgraph/src/traversal/engine/cursor/parallel.rs:242-274 | The outcomes of a range of the front's edges are exactly what a queue search does first, although their children are appended later |
| BfsChunks.TakeRange | crates/rxgraph/src/traversal/engine/cursor/parallel.rs:265-274 | Taking an edge range as a job advances the specified queue search by that range |
| BfsChunks.EvaluateJob | crates/rxgraph/src/traversal/engine/cursor/parallel.rs:276-300 | A worker evaluating a range with private counters returns the accepted edges and the counters of that range |
| BfsChunks.SettleMove | crates/rxgraph/src/traversal/engine/cursor/parallel.rs:181-202 | Pushing a pending edge keeps the invariant that everything looked at is settled or pending, in order |
| ParallelBreadthFirst.EvaluateJobs | crates/rxgraph/src/traversal/engine/cursor/parallel.rs:276-308 | Splitting the jobs into groups for any number of workers and collecting in order returns the same accepted edges and summed counters as one worker; the evaluated edges count as parallel all or none, as asked |
| ParallelBreadthFirst.ParallelBfs.Drain | crates/rxgraph/src/traversal/engine/cursor/parallel.rs:181-205 | Pending edges are pushed in order until the batch is full, the limit is met or none is left |
| ParallelBreadthFirst.ParallelBfs.TakeJobs | crates/rxgraph/src/traversal/engine/cursor/parallel.rs:242-274 | The jobs cover every edge position of the taken parents once and in order, starting where the cursor stood in the middle of a node |
| ParallelBreadthFirst.ParallelBfs.Chunk | crates/rxgraph/src/traversal/engine/cursor/parallel.rs:229-312 | A chunk is taken, evaluated and made pending without changing what is still to come; its fault, if any, is among the next quantum of edges; what it evaluates counts as parallel exactly when it is large enough |
| ParallelBreadthFirst.ParallelBfs.Round | crates/rxgraph/src/traversal/engine/cursor/parallel.rs:176-316 | Each round settles what is pending, or searches on directly or by a chunk, and makes progress |
| ParallelBreadthFirst.ParallelBfs.SearchOn | crates/rxgraph/src/traversal/engine/cursor/parallel.rs:206-312 | Both the direct cursor and the chunk leave the same specified search behind |
| ParallelBreadthFirst.ParallelBfs.Pull | crates/rxgraph/src/traversal/engine/cursor/parallel.rs:163-322 | A pull delivers the next paths of the serial breadth-first search, or ends it |
| ParallelBreadthFirst.ParallelBfs.NextBatch | crates/rxgraph/src/traversal/engine/cursor/parallel.rs:135-156 | For every batch size, chunk split, worker count and switching pattern: the batches are those of serial breadth-first search |
| DfsShares.RoundRobin | crates/rxgraph/src/traversal/engine/cursor/parallel.rs:25-27 | Start i goes to worker i modulo their number, in order, and the runs of the shares together go through the events of the serial run, each once |
| DfsShares.QuotasShareOut | crates/rxgraph/src/traversal/engine/cursor/parallel.rs:50-60 | The quotas of a round add up to the remaining allowance, and the first active worker may always advance |
| ParallelDepthFirst.ParallelDfs.AdvanceWorker | crates/rxgraph/src/traversal/engine/cursor/parallel.rs:63-71 | A worker advances by at most its quota and its measure of remaining work drops |
| ParallelDepthFirst.ParallelDfs.Round | crates/rxgraph/src/traversal/engine/cursor/parallel.rs:49-72 | A round advances every active worker, in any order, collects their paths in the order of the workers, delivers at most the allowance, and lowers the total work, so the loop cannot stall; after a failure every worker that did not fail still serves its share |
| ParallelDepthFirst.ParallelDfs.ShareQuotas | crates/rxgraph/src/traversal/engine/cursor/parallel.rs:50-60 | Every active worker gets its quota by its number among these, the quotas add up to the allowance, and some worker may advance |
| ParallelDepthFirst.ParallelDfs.MergeStats | crates/rxgraph/src/traversal/engine/cursor/parallel.rs:73-76 | The merged counters are those of everything the workers have done, and every edge they evaluated is counted as parallel |
| ParallelDepthFirst.ParallelDfs.Pull | crates/rxgraph/src/traversal/engine/cursor/parallel.rs:35-86 | One round with its bookkeeping keeps the invariant over all workers |
| ParallelDepthFirst.ParallelDfs.RunOver | crates/rxgraph/src/traversal/engine/cursor/parallel.rs:46-48 | When no worker is active or the allowance is used up, exactly min(max_paths, total) paths have been delivered |
| ParallelDepthFirst.ParallelDfs.NextBatch | crates/rxgraph/src/traversal/engine/cursor/parallel.rs:35-86 | Deliveries are always a sub-multiset of the serial ones; an ended run has delivered min(max_paths, total) of them; without a limit that is all, no fault occurs in the whole enumeration, and the counters are the serial ones |
| ParallelDepthFirst.NewParallelDfs | crates/rxgraph/src/traversal/engine/cursor/parallel.rs:13-34 | A new parallel search has as many workers as threads but no more than starts, and at least one, each with the starts dealt to it |
| Searches.RunBatches | crates/rxgraph/src/traversal/engine/cursor.rs:342-366 | For every sequence of positive batch sizes the serial batches are non-empty, fit their sizes and concatenate to a prefix of the expected deliveries; at the end to all of them, and then exactly the events up to the last path asked for have happened, without a fault, and the counters are theirs, which over starts requested in order are those of `Accounts.CountersExact`; an error means a fault among those events |
| Searches.RunParallelBfs | crates/rxgraph/src/traversal/engine/cursor/parallel.rs:163-322 | The concatenated batches of parallel breadth-first search are the serial breadth-first deliveries; a fault that is reported lies in the run up to the last path asked for or less than one quantum of edges behind it, and within it without a limit or with a quantum of 1; a run that ends met no fault that a serial run would meet, and without a limit ends with the serial counters; faults and counters are told on routes too, as in `Accounts.FaultExact` and `Accounts.CountersExact` |
| Searches.RunParallelDfs | crates/rxgraph/src/traversal/engine/cursor/parallel.rs:35-86 | The concatenated batches of parallel depth-first search are a sub-multiset of the serial deliveries, at the end all of them or as many as the limit allows; an error means an unknown start or a failing edge out of an unfinished route, and without a limit an ended run met neither and has the counters of the routes |
| Searches.SearchSerial | crates/rxgraph/src/traversal/engine.rs:206-219 | A whole serial search fails exactly when max_visits is zero or, with fewer than max_paths deliverable routes before it, a requested start is unknown or the kernel fails on an edge out of an unfinished route; otherwise it returns the first max_paths paths of the enumeration, its counters are those of `Accounts.CountersExact`, and no edge is counted as parallel |
| Searches.SearchFirst | crates/rxgraph/src/traversal/algo.rs:104-109 | Fails exactly when max_visits is zero or such a fault comes before every deliverable route; otherwise returns the canonical first path, or none exactly when no route exists |
| Searches.SerialCounters | crates/rxgraph/src/traversal/engine/cursor.rs:169-189 | At every pull boundary of a serial search the counters conserve: starts, evaluated and skipped edges are all that has been looked at; they respect max_paths |
| Searches.ParallelBfsCounters | crates/rxgraph/src/traversal/engine/cursor/parallel.rs:181-199 | At every pull boundary of parallel breadth-first search they conserve with the pending edges counted, and no more edges are parallel than evaluated |
| Searches.ParallelDfsCounters | crates/rxgraph/src/traversal/engine/cursor/parallel.rs:72-84 | At every pull boundary of parallel depth-first search, its end included, they conserve over all workers and respect max_paths, and every evaluated edge is counted as parallel |
| CompressedRows.CountOffsets | crates/rxgraph/src/graph/csr.rs:26-34 | Counting and summing up give, for every node, the number of edges with a smaller source; no 32-bit offset overflows |
| CompressedRows.BuildCsr | crates/rxgraph/src/graph/csr.rs:17-52 | Fails exactly when there are more than u32::MAX edges; otherwise groups edge ids and destinations by source |
| CompressedRows.CsrRows | crates/rxgraph/src/graph/csr.rs:36-45 | Stability: the row of a node lists exactly its edges in increasing edge id, each with its destination |
| CompressedRows.CsrPermutes | crates/rxgraph/src/graph/csr.rs:36-45 | Every edge id stands at exactly one position |
| CompressedRows.BuildIncomingCsr | crates/rxgraph/src/graph/repo.rs:435-461 | Groups the positions of the outgoing rows by destination. The offsets are right for every node count and none overflows; the rows are right with at most u32::MAX nodes, and with 2^32 nodes, where the loop over 32-bit sources does nothing, exactly when every position belongs to node 0 |
| CompressedRows.OwnersFirst | crates/rxgraph/src/graph/repo.rs:448-460 | Every position belongs to node 0 exactly when every edge of the edge list leaves it |
| CompressedRows.LargeGraphWrong | crates/rxgraph/src/graph/repo.rs:448-460 | With 2^32 nodes and the one edge from 1 to 0 the incoming row of node 0 reads 0 instead of 1 |
| CompressedRows.Transposed | crates/rxgraph/src/graph/repo.rs:435-461 | A source occurs in the incoming row of a destination, and the destination in the outgoing row of the source, as often as the edge list holds that edge |
| CompressedRows.IncomingSorted | crates/rxgraph/src/graph/repo.rs:448-460 | The sources of an incoming row never decrease |
| CompressedRows.DestsPermute | crates/rxgraph/src/graph/csr.rs:36-45 | The destination column is a rearrangement of the destinations of the edge list |
| CompressedRows.DegreesSum | crates/rxgraph/src/graph/repo.rs:362-433 | Out-degrees and in-degrees each add up to the number of edges, combined degrees to twice that |
| CompressedRows.DegreeCounts | crates/rxgraph/src/graph/repo.rs:362-372 | A node's out-degree, in-degree and combined degree count the edges of the edge list that leave it, enter it, and both |
| Graphs.IdentityRoundTrip | crates/rxgraph/src/graph/repo.rs:160-178 | External and internal ids translate back and forth without loss |
| Graphs.ReadNodes | crates/rxgraph/src/graph/repo.rs:488-501 | Succeeds exactly when no id is null or repeated and every row fits a 32-bit id; the lookup is the inverse of the id column |
| Graphs.ReadEdges | crates/rxgraph/src/graph/repo.rs:502-531 | Succeeds exactly when every edge has a fresh id, known endpoints and a 32-bit row; the endpoints are the rows the edge names |
| Graphs.Load | crates/rxgraph/src/graph/repo.rs:376-404 | A graph loads exactly from well-formed tables; its outgoing rows, its node and edge ids and its incoming offsets represent them, and its incoming rows do exactly when there are at most u32::MAX nodes or every edge leaves the first node |
| Graphs.LargeTableLoads | crates/rxgraph/src/graph/repo.rs:488-531 | Tables of 2^32 nodes with one edge from the second to the first pass all checks and fail that condition |
| Graphs.GraphExists | crates/rxgraph/src/graph/repo.rs:376-404 | Every adjacency of 32-bit size is the outgoing rows of some well-formed graph, so what is proved or refuted over adjacencies is so over graphs |
| Graphs.RowsOpposite | crates/rxgraph/src/graph/repo.rs:300-313 | A node is an in-neighbour exactly of its out-neighbours |
| Graphs.OutgoingIsRow | crates/rxgraph/src/graph/repo.rs:208-299 | Each entry of an outgoing row is, in external ids, the row of that edge in the edge table: its id, source and destination |
| ExternalPaths.RouteInTable | crates/rxgraph/src/traversal/algo.rs:229-270 | Every deliverable route over a loaded graph translates to external ids without failing and is then a chain of rows of the edge table |
| ExternalPaths.DeliveredInTable | crates/rxgraph/src/traversal/algo.rs:229-270 | The same for every path a search over a loaded graph delivers |
| BreadthFirst.DepthIsDistance | crates/rxgraph/src/graph/graph.rs:584-632 | The depth at which breadth-first discovery meets a node is the least number of edges on a path from the seeds |
| BreadthFirst.BfsReaches | crates/rxgraph/src/graph/graph.rs:584-632 | Exactly the nodes reachable from the seeds within the bound are discovered |
| BreadthFirst.BfsOrder | crates/rxgraph/src/graph/graph.rs:584-632 | No node is discovered twice, seeds come first, and nearer nodes before farther ones |
| BreadthFirst.BfsRowOrder | crates/rxgraph/src/graph/graph.rs:613-632 | Of two discovered nodes the earlier one was discovered by an earlier node, or by the same node and earlier in its row; no node before the one that discovered it leads to it |
| BreadthFirst.RunSound | crates/rxgraph/src/graph/graph.rs:482-538 | Every step of discovery keeps the tree of parents, the layers of depths and the processed prefix |
| ShortestPaths.MaterializePath | crates/rxgraph/src/graph/graph.rs:714-743 | Following parents from the target and reversing gives the discovery path in external ids |
| ShortestPaths.ScanRow | crates/rxgraph/src/graph/graph.rs:562-577 | One row marks and discovers exactly the unmarked neighbours in order, stopping at the target |
| ShortestPaths.FindPath | crates/rxgraph/src/graph/graph.rs:540-582 | Over arrays in which no node carries the mark, the search returns the discovery path of the target, or nothing when it is not discovered |
| ShortestPaths.ShortestPathU64 | crates/rxgraph/src/graph/graph.rs:278-316 | One query with fresh arrays: nothing when an id is unknown, otherwise the answer |
| ShortestPaths.AnswerIsShortest | crates/rxgraph/src/graph/graph.rs:278-316 | The answer is a directed path from source to target that no such path undercuts; there is none exactly when no path exists or an id is unknown |
| BatchedQueries.TopologyScratch.NextGeneration | crates/rxgraph/src/graph/graph.rs:765-773 | The new stamp is on no node; when the 32-bit counter wraps around, all stamps are cleared |
| BatchedQueries.TopologyScratch.ShortestPath | crates/rxgraph/src/graph/graph.rs:540-582 | A query on scratch left behind by any earlier queries answers as a fresh one |
| BatchedQueries.TopologyScratch.WalkFrom | crates/rxgraph/src/graph/graph.rs:482-538 | A bounded or unbounded traversal on reused scratch answers as a fresh one |
| BatchedQueries.ShortestPathsU64 | crates/rxgraph/src/graph/graph.rs:324-340 | Every query of a batch answers as if asked alone |
| BatchedQueries.BfsManyU64 | crates/rxgraph/src/graph/graph.rs:112-127 | Every traversal of a batch answers as if asked alone |
| BatchedQueries.BfsU64 | crates/rxgraph/src/graph/graph.rs:99-104 | One traversal with fresh arrays |
| Walks.VisitRow | crates/rxgraph/src/graph/graph.rs:613-632 | One row marks and appends exactly the unmarked neighbours in order |
| Walks.Explore | crates/rxgraph/src/graph/graph.rs:613-632 | An unbounded walk, in either or both directions and beside finished walks, lists the breadth-first discoveries |
| Walks.ExploreBounded | crates/rxgraph/src/graph/graph.rs:584-611 | A walk with a depth bound lists the bounded breadth-first discoveries |
| Walks.WalkBreadthFirst | crates/rxgraph/src/graph/graph.rs:584-632 | Bounded and unbounded walks list the breadth-first discoveries from the start |
| Walks.WalkReaches | crates/rxgraph/src/graph/graph.rs:584-632 | A walk lists exactly the nodes within reach, each once, the start first |
| Walks.WalkByDistance | crates/rxgraph/src/graph/graph.rs:584-632 | Nodes are listed in order of their distance |
| Walks.WalkMany | crates/rxgraph/src/graph/graph.rs:634-668 | Seeds are entered once each, explored and dropped |
| Walks.ManyWalkReaches | crates/rxgraph/src/graph/graph.rs:634-668 | Each node reachable from a seed is listed exactly once, and never a seed |
| Walks.ManyWalkByDistance | crates/rxgraph/src/graph/graph.rs:634-668 | Nodes are listed in order of distance from the nearest seed |
| Walks.AncestorsReach | crates/rxgraph/src/graph/graph.rs:169-181 | Over incoming rows, exactly the nodes with a directed path to a target are reached |
| DepthFirst.PushRow | crates/rxgraph/src/graph/graph.rs:685-690 | The pushed part of a row is its unvisited nodes, the first on top |
| DepthFirst.PreorderUnseen | crates/rxgraph/src/graph/graph.rs:677-679 | Leaving out what is already listed changes nothing, even when more is listed before it is popped |
| DepthFirst.PreorderSplit | crates/rxgraph/src/graph/graph.rs:670-694 | Visiting one list after another is visiting them together |
| DepthFirst.WalkDepthFirst | crates/rxgraph/src/graph/graph.rs:670-694 | The stack loop lists the recursive preorder, under any depth bound |
| DepthFirst.DeepWalkReaches | crates/rxgraph/src/graph/graph.rs:670-694 | Unbounded, it lists exactly the reachable nodes, each once |
| DepthFirst.DeepWalkOrder | crates/rxgraph/src/graph/graph.rs:670-694 | The start is listed first, and right behind a node comes the first node of its row that is not listed yet, if there is one |
| DepthFirst.DeepWalkWithin | crates/rxgraph/src/graph/graph.rs:670-694 | Bounded, it lists only nodes within the bound, each once |
| DepthFirst.BoundNotFelt | crates/rxgraph/src/graph/graph.rs:670-694 | With at most b + 1 nodes the bound b changes nothing: a node met at the bound completes the listing |
| DepthFirst.DeepWalkComplete | crates/rxgraph/src/graph/graph.rs:670-694 | Under a bound of at most 1, or with at most b + 1 nodes, it lists exactly the nodes within the bound |
| DepthFirst.BoundedWalkMisses | crates/rxgraph/src/graph/graph.rs:677-683 | For every bound b of 2 or more and every larger node count there is a graph on which it does not: a node first met at the end of a long path hides what lies behind it on a shorter one |
| DepthFirst.BoundedWalkExact | crates/rxgraph/src/graph/graph.rs:670-694 | Over n nodes, whatever the edges and the start, it lists all nodes within bound b exactly when b <= 1 or n <= b + 1 |
| DepthFirst.GraphWalkExact | crates/rxgraph/src/graph/graph.rs:670-694 | The same over all well-formed graphs of n nodes: the node that is missed is missed by a walk over a graph |
| WeakComponents.WeaklyConnectedComponents | crates/rxgraph/src/graph/graph.rs:358-400 | Each component is the walk, over edges in both directions, from the least node not found before |
| WeakComponents.ComponentsPartition | crates/rxgraph/src/graph/graph.rs:358-400 | The components partition the nodes, and two nodes share one exactly when an undirected path joins them |
| WeakComponents.UndirectedRows | crates/rxgraph/src/graph/graph.rs:377-389 | Undirected neighbours are those joined by an edge one way or the other |
| Values.StructFieldsEq | crates/rxgraph/src/dsl/value.rs:177-203 | Struct equality through a map of the right fields, for eight or more, and by scanning, for fewer, is the same relation |
| Values.CompareReverse | crates/rxgraph/src/dsl/value.rs:163-174 | Swapping operands reverses an ordering; whether a comparison fails does not depend on the order |
| Values.CompareEqual | crates/rxgraph/src/dsl/value.rs:148-174 | Two values compare as equal exactly when they are equal scalars |
| Values.StrMeaning | crates/rxgraph/src/dsl/value.rs:164-174 | Strings compare by their first difference, a proper beginning first |
| Values.CompareMeaning | crates/rxgraph/src/dsl/value.rs:164-174 | A comparison succeeds exactly for two booleans, two strings or two numbers other than NaN, and is less or greater exactly as false is before true, strings by first difference and numbers by size with the infinities outermost |
| Values.NumbersCompare | crates/rxgraph/src/dsl/value.rs:107-114 | Finite floats and integers of up to 53 bits compare and equal each other as the numbers they are, whatever their types |
| Values.RoundNearest | crates/rxgraph/src/dsl/value.rs:107-114 | Of all integers that a float can hold, an integer is rounded to a nearest one, and of two nearest to the one with the even mantissa |
| Values.FloatNearest | crates/rxgraph/src/dsl/value.rs:107-114 | An integer of either sign becomes a float nearest to it |
| Values.EqMeaning | crates/rxgraph/src/dsl/value.rs:148-162 | Two values are equal exactly when they are the same null, boolean or string, the same number, lists of equal items, or structs of as many fields each equal to its first namesake |
| Values.EqTransitive | crates/rxgraph/src/dsl/value.rs:148-162 | Equality is transitive on all values, NaN, lists and structs with repeated names included |
| Columns.ComparisonMeaning | crates/rxgraph/src/dsl/ops/scalar.rs:46-51 | A comparison is null for a null operand and fails exactly for incomparable ones; otherwise less tells that the left one is before, less-or-equal that it is before or equal, and greater the same with the operands swapped; equality never fails |
| Columns.NumbersMeaning | crates/rxgraph/src/dsl/ops/scalar.rs:46-51 | On exact numbers the six comparisons are <, <=, >, >=, = and the opposite |
| Columns.OperandsMissing | crates/rxgraph/src/dsl/ops/scalar.rs:44-51 | A comparison fails on the first operand that is not there; the one operand of a connective may decide it |
| Columns.NumberRefines | crates/rxgraph/src/dsl/arrow_value.rs:199-215 | A number cell against a literal gives the boxed comparison: integers through their floats, NaN, infinities and signed zero |
| Columns.StrRefines | crates/rxgraph/src/dsl/arrow_value.rs:217-230 | A string cell against a literal gives the boxed comparison |
| Columns.BoolRefines | crates/rxgraph/src/dsl/arrow_value.rs:184-197 | A boolean cell against a literal gives the boxed comparison |
| Columns.LiteralRefines | crates/rxgraph/src/dsl/arrow_value.rs:117-274 | Comparing any cell with any literal unboxed, in either operand order, gives the boxed result or the boxed error, which `Columns.ComparisonMeaning` describes; only nested columns decline |
| Expressions.ShortcutAgrees | crates/rxgraph/src/dsl/eval.rs:112-138 | The shortcut found through aliases on either side gives what evaluating both operands and comparing gives |
| Expressions.Simulation | crates/rxgraph/src/dsl/eval.rs:47-84 | Evaluation with linked columns and sound shortcuts gives the same value or error as boxed evaluation, for every expression, list item by item |
| Expressions.ShortcutInvisible | crates/rxgraph/src/dsl/eval.rs:112-138 | Where comparisons have two operands, as their constructors give them, taking the shortcut changes no result and no error |
| Expressions.ExtraOperands | crates/rxgraph/src/dsl/eval.rs:112-138 | With more operands, which no constructor or parser of expressions builds, the shortcut skips the others, and differs from boxed evaluation exactly when one of those fails, and not in the same way |
| Expressions.ExtraOperandSkipped | crates/rxgraph/src/dsl/eval.rs:112-138 | A concrete comparison with a failing third operand, which no constructor or parser builds, on which the two differ |
| Expressions.ShortCircuitAgrees | crates/rxgraph/src/dsl/eval.rs:91-109 | Short-circuiting differs from evaluating both operands first exactly when the right one fails and the left one already settles the result |
| Expressions.ConditionMeaning | crates/rxgraph/src/dsl/value.rs:83-89 | A condition is true for true, false for false and null, and otherwise an error: its own, or that it is no boolean |
| Expressions.TernaryMeaning | crates/rxgraph/src/dsl/eval.rs:57-67 | A ternary expression is the branch its condition chooses, and fails as its condition does |
| Expressions.ConnectiveMeaning | crates/rxgraph/src/dsl/eval.rs:91-109 | A conjunction is false when the left operand is, a disjunction true when it is; otherwise either is what the right operand decides, and fails as that one does |
| Expressions.UnaryMeaning | crates/rxgraph/src/dsl/ops/scalar.rs:88-90 | Negation turns true into false and false or null into true; the tests for null never fail |
| Expressions.ArgsMeaning | crates/rxgraph/src/dsl/eval.rs:87-89 | Arguments are evaluated in order, up to the first that fails |
| Expressions.LeafValues | crates/rxgraph/src/dsl/eval.rs:49-56 | Literals, columns and the list item, also under other names, are what they read; outside a list there is no item |
| Expressions.CallMeaning | crates/rxgraph/src/dsl/eval.rs:70-83 | Operations that evaluate all their arguments are applied to the values of these |
| Expressions.FilterKeeps | crates/rxgraph/src/dsl/ops/list.rs:672-685 | Filtering a list keeps, in order, exactly the items at which the condition is true |
| Expressions.ListMeaning | crates/rxgraph/src/dsl/ops/list.rs:659-685 | Evaluating or filtering over a list: null for null, an error for what is no list, the error of the first item that fails, and otherwise every item's result or exactly the items at which the condition is true |
| Expressions.SetFieldMeaning | crates/rxgraph/src/dsl/ops/struct_.rs:75-80 | Setting a field changes what that name reads and no other, and keeps all places |
| Expressions.WithFieldsMeaning | crates/rxgraph/src/dsl/ops/struct_.rs:65-83 | A struct with fields set reads the last value set under each name and what it read before under the others |
| Expressions.FieldsFail | crates/rxgraph/src/dsl/ops/struct_.rs:70-74 | Setting fields fails as the first value that fails or is missing |
| Expressions.MapSame | crates/rxgraph/src/dsl/expr.rs:239-267 | Replacing columns changes nothing but the columns |
| Expressions.MapExact | crates/rxgraph/src/dsl/expr.rs:239-267 | Replacing columns succeeds exactly when it does for every column that occurs, and fails as one of them does |
| Binding.SortedDistinctExact | crates/rxgraph/src/dsl/bind.rs:194-203 | The state names are all names of the row and the updates, ascending, each once |
| Sorting.SortedExact | crates/rxgraph/src/dsl/mod.rs:51-58 | A stable sort: a permutation in order that keeps the order of ties |
| Sorting.DedupStrict | crates/rxgraph/src/dsl/bind.rs:200-202 | Dropping repeats from sorted items leaves one of each, strictly ascending |
| Binding.InitialSorted | crates/rxgraph/src/dsl/mod.rs:51-64 | A kernel's initial row is the given one, in any order and with repeats, sorted by name, the values of a repeated name in their order |
| Binding.BinarySearchFinds | crates/rxgraph/src/dsl/bind.rs:218-220 | On sorted names binary search finds a name exactly when it is there, and one of its places when it is repeated |
| Binding.NormalizeExact | crates/rxgraph/src/dsl/bind.rs:205-216 | The initial slots hold the value of an occurrence of their name, null for names without a value |
| Binding.InitialRepresents | crates/rxgraph/src/dsl/bind.rs:205-216 | Whichever occurrence of a repeated initial name is found, the initial slots represent named state that takes one occurrence's value per name |
| Binding.TakesUnique | crates/rxgraph/src/dsl/bind.rs:205-216 | With distinct initial names there is only one such state |
| Binding.BoundReads | crates/rxgraph/src/dsl/bind.rs:118-163 | A bound column reads what the named one reads; reserved topology fields read external ids and unknown state names read null |
| Binding.ColumnMeaning | crates/rxgraph/src/dsl/bind.rs:138-163 | Endpoint columns read the node table at the row of their endpoint, edge columns the edge table at the row of the edge, the reserved names the external ids, and state its value or null |
| Binding.BindExact | crates/rxgraph/src/dsl/bind.rs:25-45 | Binding succeeds exactly when every field that the kernel mentions is a column of its table or a reserved name |
| Binding.NextState | crates/rxgraph/src/dsl/bind.rs:55-65 | Every update is evaluated against the current slots, and the slots are overwritten one after another; the first failure is the result |
| Binding.UpdatesMeaning | crates/rxgraph/src/dsl/bind.rs:55-65 | Updating succeeds exactly when every update evaluates, against the state before; each slot then holds its last update, or what it held, and otherwise the first failing update is the error |
| Binding.UpdatesAgree | crates/rxgraph/src/dsl/bind.rs:55-65 | The updated slots represent the updated named state, repeated targets included |
| Binding.Transition | crates/rxgraph/src/dsl/bind.rs:90-101 | The transition decides, updates and stops as specified over slots, which `Binding.TransitionMeaning` describes |
| Binding.TransitionMeaning | crates/rxgraph/src/dsl/bind.rs:90-101 | A transition rejects exactly when visit is false or null; it fails as visit, the first failing update or, over the updated slots, stop does; otherwise it completes exactly when stop is true there, with those slots |
| Binding.TransitionPreserved | crates/rxgraph/src/dsl/bind.rs:90-101 | Binding preserves a transition: its decision, its error and its state |
| Binding.RunPreserved | crates/rxgraph/src/dsl/bind.rs:90-101 | Binding preserves every run of transitions: the same decisions, the same error, the same states |
| Binding.BindPreserves | crates/rxgraph/src/dsl/bind.rs:25-45 | From the initial row on, given in any order and with any repeats, a bound kernel behaves as named evaluation along every run, whichever occurrence of a repeated name binary search finds |
| Binding.StateRowReads | crates/rxgraph/src/dsl/bind.rs:71-77 | The reported row lists every name once, ascending, with what it reads |
| Lists.KeyExact | crates/rxgraph/src/dsl/ops/list.rs:276-290 | Two keys agree exactly when the values are equal, across number types and signed zeros |
| Lists.KeyDefined | crates/rxgraph/src/dsl/ops/list.rs:276-290 | A value has a key exactly when it is a scalar equal to itself, so neither NaN nor a list nor a struct has one |
| Lists.UniqueSlow | crates/rxgraph/src/dsl/ops/list.rs:310-318 | The quadratic loop keeps the values that equal none kept before |
| Lists.UniqueByScalarKey | crates/rxgraph/src/dsl/ops/list.rs:299-308 | The keyed loop returns the same list |
| Lists.Unique | crates/rxgraph/src/dsl/ops/list.rs:292-297 | Either way the distinct values are the same list |
| Lists.KeyedUnique | crates/rxgraph/src/dsl/ops/list.rs:629-639 | Distinct values with their keys, or nothing exactly when some value has no key |
| Lists.SetByKeys | crates/rxgraph/src/dsl/ops/list.rs:585-627 | Union, intersection, difference and symmetric difference by hashed keys are the lists that comparing all pairs gives, item by item those of `Lists.SetByIndex` |
| Lists.SetOperation | crates/rxgraph/src/dsl/ops/list.rs:548-583 | The operation on two list arguments, null and missing arguments and what is no list included, is that of comparing all pairs, with the items of `Lists.SetByIndex` |
| Lists.SetMeaning | crates/rxgraph/src/dsl/ops/list.rs:548-583 | On keyable lists the results are the set operations on keys, and no value comes twice |
| Lists.SetByIndex | crates/rxgraph/src/dsl/ops/list.rs:548-583 | For all lists, with keys or not: the result is, in order, the left items at exactly those positions that equal no earlier left item and, for an intersection, some right item or, for both differences, none; then, for a union or a symmetric difference, the right items that equal no earlier right item and no left one |
| Lists.DistinctPositions | crates/rxgraph/src/dsl/ops/list.rs:310-318 | The distinct values are the items at exactly those positions that equal no earlier item |
| Lists.DistinctMeaning | crates/rxgraph/src/dsl/ops/list.rs:310-318 | Whatever the values, the distinct ones keep their order, none equals an earlier one, and none is lost |
| RowGroups.RowGroupOffsets | crates/rxgraph/src/traversal/typed.rs:1337-1345 | The offsets are the prefix sums of the row-group sizes |
| RowGroups.RowGroupHolds | crates/rxgraph/src/traversal/typed.rs:1320-1324 | The group found by partition point holds the row, empty groups included |
| RowGroups.GroupsOf | crates/rxgraph/src/traversal/typed.rs:1290-1296 | The groups to read are ascending, each once, and exactly those that hold a demanded row |
| RowGroups.Select | crates/rxgraph/src/traversal/typed.rs:1274-1315 | Succeeds exactly when all rows are in the file; indexing the concatenated selected groups at the relative rows gives the demanded rows |
| Payloads.EagerLoad | crates/rxgraph/src/traversal/typed.rs:976-983 | An eager load succeeds exactly when every row decodes, and holds what every row decodes to |
| Payloads.EagerRow | crates/rxgraph/src/traversal/typed.rs:976-983 | The row at a place of a group decodes as what is stored there, or as the row without columns if none is projected |
| Payloads.SortedRowsExact | crates/rxgraph/src/traversal/typed.rs:1464-1466 | The missing rows are ascending, each once |
| Payloads.LazyTable.MissingRows | crates/rxgraph/src/traversal/typed.rs:1451-1468 | Fails exactly on a row without a cell; otherwise lists the demanded rows that are not held |
| Payloads.LazyTable.ReadMany | crates/rxgraph/src/traversal/typed.rs:1169-1184 | Reads succeed exactly when every row decodes, return what an eager load gives, and are counted only when some column is projected: one call, the rows asked for, the groups that hold any of them and all rows of those groups |
| Payloads.LazyTable.Fill | crates/rxgraph/src/traversal/typed.rs:1422-1434 | Demanded rows are held afterwards and agree with eager decoding, held cells keep their values, a failure changes no cell, and in error-free runs no row is read twice and requested rows equal loaded payloads |
| Payloads.LazyTable.Get | crates/rxgraph/src/traversal/typed.rs:1532-1551 | Returns the eager decode of the row, reading it only if it is not held |
| Payloads.GraphStore.Demand | crates/rxgraph/src/traversal/typed.rs:1511-1526 | Demands the nodes, their edges and the destinations, each only when columns are projected |
| Payloads.RowsMeaning | crates/rxgraph/src/traversal/typed.rs:1511-1526 | The node rows demanded are the nodes and where their edges lead, the edge rows those of their edges |
| Payloads.GraphStore.PrefetchOutgoing | crates/rxgraph/src/traversal/typed.rs:1511-1530 | Succeeds exactly when every demanded row can be loaded, and then all are held |

## Left out

- Cursors.Cursor.NextBatch: batch sizes, counters and depths are unbounded numbers; `usize` overflow is not modelled; an absent depth limit is any limit of at least node count times max_visits (`DepthLimits.LimitNotFelt`).
- Cursors.Cursor.Initialize: payload prefetch, progress reporting and per-worker caches do not influence results and are not modelled; the prefetch width of breadth-first search is computed, but nothing is read.
- Accounts.CountersExact: starts are requested in order, as positions in the request list are; over starts in any order or with repeats the counters are those of the enumeration (`Searches.SearchSerial`).
- ParallelDepthFirst.ParallelDfs.Pull: the counters are added up after a failure too, and nothing is stated about them then.
- Arena.Materialize: ids are translated after the walk over the parents, not during it (`ExternalPaths.External`), and the projection of states is left out.
- The choice between serial and parallel search (`should_parallelize_dfs`, `GraphCursor::new`) selects among machines that are each proved.
- Graphs.Load: integer ids only; string ids follow the same code without the contiguous form. Incoming rows are built at once, not on first use. The algorithms over a graph take at most u32::MAX nodes.
- ShortestPaths.ShortestPathU64: the generic variants over string ids (`shortest_path`, `weakly_connected_components`, `ancestors_many`) run the same loops over the same rows.
- WeakComponents.WeaklyConnectedComponents: components are listed in internal ids.
- Binding.BindPreserves: two operands in every comparison, as the expression constructors give them (`Expressions.ExtraOperands` is exact about the others).
- Binding.BoundReads: a row beyond a column's end, where the Arrow arrays panic, is an error value here.
- Expressions.Simulation: error messages are reduced to kinds.
- Columns.LiteralRefines: integer and float columns of different widths are one column of widened numbers, as the readers widen them.
- Payloads.LazyTable.Fill: cells are filled by one caller at a time; racing fills of the same cell, of which the first wins, are not modelled.
- RowGroups.Select: the Parquet reader is taken to return the selected positions of the selected groups in order.
- Numeric arithmetic, casts, mean, median, sorting and slicing of lists: an arbitrary function, so nothing is stated about them.
- Parquet and Arrow reading, column projection and aliasing, the JSON expression parser, state encoding, Python bindings, progress display and the stream and ownership shells.
