# Work Frontier, modelled and proved

Work Frontier decides which work item to do next. It reads items and typed edges, quarantines what is caught
in dependency cycles, derives blockers, fan-out and root causes for the rest, and ranks what is ready. Around
that engine run a durable job queue, a journalled setup procedure, an audit chain, a harness registry, an
identifier factory, an ingestion step and a rate limiter. This project models those parts and proves what they
are for, over every input, every run or every reachable state.

| area | files | main results |
|---|---|---|
| graphs | `Digraph`, `Edges`, `DirectedCycle`, `Containment`, `Tarjan`, `Components`, `ShortestPaths` | strongly connected components, cycle search, least topological order and least paths are exactly what they claim |
| analysis | `Dependency`, `AffectedRegion` | quarantine exactly on cycles, an acyclic and stable rest, faithful derived facts, an analysis determined by its input sets |
| queue | `QueueModel`, `QueueRuns`, `QueueOwnership`, `QueueFairness`, `QueueLaws`, `DurableQueue` | every operation field by field, invariant over all runs, backoff, lease protection, single submission, claim accounting, lease ownership, terminal jobs, bounded bypass |
| setup | `SetupSaga`, `SetupResults`, `SetupExecution` | crash safety of the journal at every event, outcomes recorded only as the runner answered, verified actions left alone by every resume, restoration after failure from any journal, exactly which returned results agree with it |
| audit | `Audit` | built segments verify; a final checksum determines the history |
| frontier | `Frontier`, `Ingestion` | total, permutation-invariant, monotone ranking; a change affects no item outside its closure |
| registry | `Registry`, `ClosureOrder`, `RegistryClosure` | the cycle check and the closure agree; the closure's exact contents and order |
| identifiers, limits | `Ulid`, `RateLimiter`, `WindowBounds` | strictly increasing, decodable ULIDs; the pruned window agrees with the full history, and exactly which clocks keep its bound and that agreement |

Conventions. A graph node is an integer, the rank of its `(kind, identifier)` key, so nodes compare as the keys
do (`Resources.RankIsKey`); item, harness and limiter identifiers are integers in the same way. Times are
integers. Code that updates objects or local tables step by step is written as classes and loops proved against
specifications; code made of expressions is written as functions. Errors the code raises are results. A queue
run is a list of operations with their times; a setup session is a list of attempts, each with the runner's
answers and the number of events after which the process stopped.

Findings. `_shortest_paths` (`backend/src/work_frontier/domain/graph.py:489-495`) may replace a path by a better
one, but never does: the first path found is always least (`ShortestPaths.NeverImproved`).

A failed setup run undoes what it has applied, but goes on to return VERIFIED, or FAILED for the action that stopped it,
for every action whose compensation works, where the journal says COMPENSATED
(`backend/src/work_frontier/application/setup/execution.py:102-134`). `SetupResults.VerifiedExample` and
`SetupResults.FailedExample` are such runs. A result agrees with the journal exactly if the action is not one the run undoes with
success (`SetupResults.ResultsAgree`), all do exactly if there is none (`SetupResults.AllAgree`); plan, earlier journal and runner
answers decide which these are (`SetupResults.UndoneUpTo`).

An adapter may answer a changed identifier with an item under another one; the merge stores it under the identifier asked for
(`backend/src/work_frontier/application/ingestion.py:113-116`). If the list then repeats an identifier, the snapshot refuses it
(`Ingestion.RepeatsExactly`). Otherwise an item outside the change is touched exactly if some answer carries an identifier
that was not among the changed ones (`Ingestion.TouchesOnlyChangedExactly`, `Ingestion.ForeignAnswerExample`).

When the random part overflows, the ULID factory carries into the timestamp (`backend/src/work_frontier/domain/identifiers.py:154-163`),
where the ULID specification, section "Monotonicity", has generation fail; the model follows the code.
`Ulid.CarriesExactlyOnOverflow` says exactly when this happens, `Ulid.CarryExample` gives two calls.

The rate limiter promises at most `limit` admissions in any window. The code keeps this promise for limit one
under every clock. For a greater limit it keeps it on every run that reads a given clock exactly if the clock never
passes an instant by a window or more and later comes back to within a window of it (`WindowBounds.BoundExactly`):
the queue has by then forgotten the admissions at that instant. Smaller steps back, and larger ones, do no harm to
the bound. Agreement with a counter over all admissions holds exactly on clocks that never run backwards (`WindowBounds.AgreesExactly`).

`dafny verify dfyconfig.toml` checks the whole project.

## Model

| member | source | states |
|---|---|---|
| Resources.RankIsKey | backend/src/work_frontier/domain/graph.py:513-514 | nodes compare as their `(kind, identifier)` keys do; equal rank means the same resource |
| Edges.NodesFromEdges | backend/src/work_frontier/domain/graph.py:261-264 | exactly the ends of the edges, sorted, each once |
| Edges.Adjacency | backend/src/work_frontier/domain/graph.py:267-281 | the table has a sorted, duplicate-free target list for every node and endpoint |
| Edges.AdjacencyMeaning | backend/src/work_frontier/domain/graph.py:267-281 | the table has exactly the given nodes and the ends of edges, and an edge exactly where some listed edge joins the two nodes; every target is itself a key |
| DirectedCycle.CycleSearch.Visit | backend/src/work_frontier/domain/graph.py:399-414 | one depth-first visit: a genuine simple cycle, the first that following every path in order would meet, or finished nodes that are closed and on no cycle |
| DirectedCycle.CycleSearch.VisitTargets | backend/src/work_frontier/domain/graph.py:403-411 | the targets of the node being visited, in order, with the same promise |
| DirectedCycle.NothingFinished | backend/src/work_frontier/domain/graph.py:403-415 | skipping visited nodes is safe: a search without memory would find nothing among finished ones |
| DirectedCycle.FindDirectedCycle | backend/src/work_frontier/domain/graph.py:391-420 | empty exactly for acyclic graphs; otherwise a closed walk over real edges that repeats only its first node, and the first one that a search without any memory of visited nodes would meet |
| Containment.InDegrees | backend/src/work_frontier/domain/graph.py:125-128 | every in-degree is the number of distinct predecessors |
| Containment.ReleaseTargets | backend/src/work_frontier/domain/graph.py:137-141 | after a node is placed, the ready list again holds exactly the unplaced nodes without unplaced parents |
| Containment.KahnOrder | backend/src/work_frontier/domain/graph.py:130-143 | for acyclic tables every node is placed once, each time the least node that is available |
| Containment.GreedyIsTopological | backend/src/work_frontier/domain/graph.py:134-141 | placing the least available node puts every parent before its child |
| Containment.GreedyIsLeast | backend/src/work_frontier/domain/graph.py:134-143 | that order is lexicographically least among all topological orders |
| Containment.ValidateContainmentDag | backend/src/work_frontier/domain/graph.py:109-143 | fails exactly on a directed contains cycle, and names the first met; otherwise all ends of contains edges in the least topological order |
| Containment.ContainmentGraph | backend/src/work_frontier/domain/graph.py:111-118 | the graph validated has exactly the ends of the contains edges given, and an edge exactly where one of them leads |
| Tarjan.TarjanState.Visit | backend/src/work_frontier/domain/graph.py:296-308 | one visit keeps the stack, index and low-link invariants and emits exactly the components it completes |
| Tarjan.TarjanState.VisitTarget | backend/src/work_frontier/domain/graph.py:310-321 | following one edge keeps the invariants of the visit in progress, with the low link a bound over the edges seen so far |
| Tarjan.TarjanState.VisitTargets | backend/src/work_frontier/domain/graph.py:304-305 | the loop over the targets keeps those invariants and terminates |
| Tarjan.TarjanState.PopComponent | backend/src/work_frontier/domain/graph.py:323-331 | pops down to the root and returns what came off, sorted |
| Tarjan.ComponentMembers | backend/src/work_frontier/domain/graph.py:334-341 | the member lists partition all nodes; each is one class of mutual reachability |
| Components.SearchSound | backend/src/work_frontier/domain/graph.py:371-384 | whatever the exhaustive search returns is a simple cycle through the start inside the component |
| Components.SearchComplete | backend/src/work_frontier/domain/graph.py:371-384 | if some way back to the start exists, the search does not miss |
| Components.SearchLeast | backend/src/work_frontier/domain/graph.py:371-384 | no way back to the start that the search may take is lexicographically less than the one it finds |
| Components.CyclicMeansOnCycle | backend/src/work_frontier/domain/graph.py:343-349 | a component is marked cyclic exactly when its members lie on directed cycles |
| Components.CycleFound | backend/src/work_frontier/domain/graph.py:364-388 | the reported cycle of a cyclic component is non-empty, starts and ends at its smallest member, stays inside, uses real edges, repeats no inner node, and is lexicographically least among all such cycles |
| Components.SharedComponent | backend/src/work_frontier/domain/graph.py:334-361 | two nodes are in the same component exactly when each reaches the other |
| Components.ComponentsUnique | backend/src/work_frontier/domain/graph.py:334-388 | the graph determines the component list, cycle paths included |
| Components.StronglyConnectedComponents | backend/src/work_frontier/domain/graph.py:334-361 | components cover all nodes, carry the right cyclic mark and cycle path, and are ordered by smallest member |
| ShortestPaths.NeverImproved | backend/src/work_frontier/domain/graph.py:489-495 | when a node already has a path, no later candidate beats it, so the improving branch of the loop never fires |
| ShortestPaths.LeastPathUnique | backend/src/work_frontier/domain/graph.py:521-522 | least by length, then by node order, leaves one path |
| ShortestPaths.ExpandNode | backend/src/work_frontier/domain/graph.py:488-495 | expanding a node relaxes all its targets and keeps the queue in path order |
| ShortestPaths.ShortestPaths | backend/src/work_frontier/domain/graph.py:482-496 | terminates; the domain is exactly the reachable nodes; each path is the least of all walks from the root |
| Dependency.BlockerIndex | backend/src/work_frontier/domain/graph.py:423-438 | for every node in order the sorted sources of its hard (or soft) edges |
| Dependency.BlockersAreRight | backend/src/work_frontier/domain/graph.py:172-182 | in the analysis the hard lists name, for every kept node in order, exactly the kept nodes with a given hard blocks edge to it, and the soft lists those with a soft one |
| Dependency.WholeGraph | backend/src/work_frontier/domain/graph.py:153-156 | the graph analysed has the given nodes and the ends of blocks edges, and an edge exactly where a given blocks edge leads |
| Dependency.FanOutIsRight | backend/src/work_frontier/domain/graph.py:183 | the reported fan-out of a kept node counts the kept nodes that it reaches |
| Dependency.RootCausesAreRight | backend/src/work_frontier/domain/graph.py:184-188 | the root causes of a kept node are exactly the least paths from the kept nodes that nobody blocks and that reach it, by first node |
| Dependency.ReachableFrom | backend/src/work_frontier/domain/graph.py:445-452 | exactly the nodes reachable by a non-empty path |
| Dependency.FanOutIndex | backend/src/work_frontier/domain/graph.py:441-456 | each count is the number of distinct nodes reachable by a non-empty path |
| Dependency.FanOutDecreases | backend/src/work_frontier/domain/graph.py:441-456 | in an acyclic graph a blocker reaches strictly more than what it blocks |
| Dependency.RootCauseIndex | backend/src/work_frontier/domain/graph.py:459-479 | for every node one least path from every unblocked node that reaches it, in root order |
| Dependency.RootCauseExists | backend/src/work_frontier/domain/graph.py:459-479 | every node of an acyclic graph has a root-cause path, and each starts at a node with no blockers |
| Dependency.AnalyzeDependencyGraph | backend/src/work_frontier/domain/graph.py:146-209 | refuses exactly the inputs with other than work items; otherwise components, invalid components, one attention record for each of these, and the projection of the rest |
| Dependency.Project | backend/src/work_frontier/domain/graph.py:164-189 | the facts of the nodes left after dropping the invalid ones with their edges |
| Dependency.QuarantinedExactlyOnCycles | backend/src/work_frontier/domain/graph.py:156-169 | a work item is quarantined exactly when it lies on a directed blocks cycle |
| Dependency.AttentionNamesCycles | backend/src/work_frontier/domain/graph.py:190-203 | every attention record lists one strongly connected component and the least simple cycle in it through its smallest member; a work item is in some record exactly when it lies on a directed blocks cycle |
| Dependency.KeptGraphShape | backend/src/work_frontier/domain/graph.py:164-170 | the kept graph has the other nodes and exactly the edges among them |
| Dependency.KeptGraphAcyclic | backend/src/work_frontier/domain/graph.py:164-170 | the kept graph has no cycle |
| Dependency.KeptPartIsFixed | backend/src/work_frontier/domain/graph.py:146-209 | the kept nodes and edges, taken as input, are kept whole |
| Dependency.ProjectionUnique | backend/src/work_frontier/domain/graph.py:172-189 | nodes and edges determine the projection: no choice is left to iteration order |
| Dependency.AnalysisUnique | backend/src/work_frontier/domain/graph.py:146-209 | the set of nodes and the set of blocks edges determine the whole analysis, evidence included, whatever the order and repetition of the input |
| Dependency.AnalysisIdempotent | backend/src/work_frontier/domain/graph.py:146-209 | analysing the kept part again finds no invalid component and gives the same projection |
| Dependency.ProjectionFacts | backend/src/work_frontier/domain/graph.py:172-189 | reported fan-out strictly falls along every kept edge; every kept node has root causes, which nobody blocks |
| AffectedRegion.TraverseAffectedRegion | backend/src/work_frontier/domain/graph.py:212-248 | in terms of the given edges: affected is exactly what an unquarantined root reaches over contains, blocks and requires-gate edges between unquarantined nodes; one least such route per root and target, in key order |
| AffectedRegion.RegionGraphMeaning | backend/src/work_frontier/domain/graph.py:223-232 | the graph traversed has an edge exactly where a contains, blocks or requires-gate edge joins unquarantined nodes, and exactly the unquarantined roots and the ends of such edges |
| QueueModel.RetryDelayMonotone | backend/src/work_frontier/platform/queue.py:387-403 | whatever the digests, the delay lies between base and maximum and never falls from one attempt to the next |
| QueueModel.ClaimsBeforeTotal | backend/src/work_frontier/platform/queue.py:167-175 | the claim key orders any two jobs with different identifiers |
| QueueModel.FirstUnique | backend/src/work_frontier/platform/queue.py:167-176 | sorting leaves one possible first job |
| QueueModel.FirstId | backend/src/work_frontier/platform/queue.py:165-176 | the selected job comes before every other eligible one |
| QueueRuns.ClaimKeeps | backend/src/work_frontier/platform/queue.py:176-191 | a claim keeps the index, the lease fields, the attempts and the claim counter consistent |
| QueueRuns.EnqueueKeeps | backend/src/work_frontier/platform/queue.py:141-152 | enqueueing a fresh job keeps index and table inverse to each other |
| QueueRuns.RecoverKeeps | backend/src/work_frontier/platform/queue.py:274-310 | recovering expired leases keeps the invariant |
| QueueRuns.StepKeeps | backend/src/work_frontier/platform/queue.py:141-361 | every operation keeps the invariant: index and job table inverse, claimed exactly with lease fields, attempts bounded, clocks within the counter |
| QueueRuns.RunKeeps | backend/src/work_frontier/platform/queue.py:141-361 | so does every sequence of operations |
| QueueRuns.RunClaims | backend/src/work_frontier/platform/queue.py:154-191 | over a run, the claims recorded for a job grow by exactly the times it was handed out |
| QueueRuns.ClaimAccounting | backend/src/work_frontier/platform/queue.py:141-361 | from an empty queue, a job has been claimed attempts plus one times if claimed or completed, attempts times otherwise, and never more than `max_attempts` times |
| QueueRuns.RunCounter | backend/src/work_frontier/platform/queue.py:177-178 | the claim counter counts the claims of the run |
| QueueRuns.TotalClaimsBounded | backend/src/work_frontier/platform/queue.py:141-361 | all claims of a run number at most the sum of `max_attempts` over the jobs |
| QueueRuns.TerminalForever | backend/src/work_frontier/platform/queue.py:141-361 | completed and dead-letter jobs never change again |
| QueueOwnership.EndsOwnClaim | backend/src/work_frontier/platform/queue.py:185-188 | in an orderly history every completion or failure directly follows a claim by the same worker, and no claim follows an open one |
| QueueOwnership.StepOwned | backend/src/work_frontier/platform/queue.py:141-361 | every operation keeps histories orderly and a claimed job's open claim its lease owner's |
| QueueOwnership.OwnershipOverRuns | backend/src/work_frontier/platform/queue.py:141-361 | in every reachable state a claimed job was claimed last by its lease owner; attempts are ended only by the worker that claimed them; claims never overlap |
| QueueOwnership.StaleOwnerRefused | backend/src/work_frontier/platform/queue.py:274-310 | after recovery the former owner can neither extend, complete nor fail the job |
| QueueFairness.ServedIsEarliest | backend/src/work_frontier/platform/queue.py:165-176 | a served tenant was last served no later than any tenant with an eligible job |
| QueueFairness.NotServedAgain | backend/src/work_frontier/platform/queue.py:154-191 | once served, a tenant is not served again while another keeps waiting with an eligible job |
| QueueFairness.BoundedBypass | backend/src/work_frontier/platform/queue.py:154-191 | from any reachable state, claims serve no other tenant twice while a tenant waits |
| QueueFairness.WaitIsBounded | backend/src/work_frontier/platform/queue.py:154-191 | with k tenants in the table, a waiting tenant is overtaken at most k - 1 times |
| QueueLaws.FailMeans | backend/src/work_frontier/platform/queue.py:229-272 | for the live owner, with a reason: a dead letter exactly if not retryable or out of attempts, otherwise a retry after `min(maximum, base * 2^(n - 1))` plus at most a quarter or one second, never over the maximum; any other call is the error of its cause |
| QueueLaws.DelayBounds | backend/src/work_frontier/platform/queue.py:387-403 | the wait after the n-th failure |
| QueueLaws.DelayMonotone | backend/src/work_frontier/platform/queue.py:387-403 | a later failure waits no less than any earlier one, whatever the digests |
| QueueLaws.LaterFailureWaitsLonger | backend/src/work_frontier/platform/queue.py:229-272 | over any run between two failures of a job, the second never makes it wait less |
| QueueLaws.ClaimMeans | backend/src/work_frontier/platform/queue.py:154-191 | hands out a job exactly if one is waiting and due, the one that comes first by tenant clock, age and names; states every field of the claimed job and of the new state |
| QueueLaws.HeartbeatMeans | backend/src/work_frontier/platform/queue.py:193-202 | for the live owner extends the lease to now plus the lease duration and nothing else; otherwise the error of its cause |
| QueueLaws.CompleteMeans | backend/src/work_frontier/platform/queue.py:204-227 | for the live owner completes with result and time and gives the lease back; otherwise the error of its cause |
| QueueLaws.RecoverMeans | backend/src/work_frontier/platform/queue.py:274-310 | exactly the claimed jobs whose lease ended before now lose an attempt and are due at once, or are dead letters when out of attempts; nothing else changes |
| QueueLaws.LeaseDividesTime | backend/src/work_frontier/platform/queue.py:274-310 | at any time a claimed job is either its owner's to end or recovery's to take back, never both |
| QueueLaws.SubmitMeans | backend/src/work_frontier/platform/queue.py:82-152 | a job of the same tenant, workspace and key comes back unchanged; otherwise a new identifier stores a pending job due now, a used one is an error |
| QueueLaws.ReplayMeans | backend/src/work_frontier/platform/queue.py:312-345 | only dead letters, for a named actor: a pending job with the replay key that points back, the dead letter left as it is |
| QueueLaws.LeaseProtects | backend/src/work_frontier/platform/queue.py:154-310 | while a lease lasts, no run of operations by others changes the claimed job |
| QueueLaws.SubmittedOnce | backend/src/work_frontier/platform/queue.py:141-152 | after any run, submitting again under the same tenant, workspace and key gives the first job back and changes nothing |
| DurableQueues.DurableQueue.constructor | backend/src/work_frontier/platform/queue.py:133-139 | an empty queue that satisfies the invariant |
| QueueRuns.EnqueueExactly | backend/src/work_frontier/platform/queue.py:141-152 | enqueueing any job keeps the invariant exactly if the job is not stored or is fresh |
| DurableQueues.DurableQueue.Enqueue | backend/src/work_frontier/platform/queue.py:141-152 | for any job: the stored one for a known key, an error for a reused identifier, otherwise both tables extended; the invariant is kept exactly if the job is not stored or is fresh |
| DurableQueues.DurableQueue.ClaimNext | backend/src/work_frontier/platform/queue.py:154-191 | result and whole new state are those of the fair-claim transition; the invariant is kept |
| DurableQueues.DurableQueue.Heartbeat | backend/src/work_frontier/platform/queue.py:193-202 | extends the lease of its live owner, or refuses and changes nothing |
| DurableQueues.DurableQueue.Complete | backend/src/work_frontier/platform/queue.py:204-227 | completes and releases for the live owner, or refuses and changes nothing |
| DurableQueues.DurableQueue.Fail | backend/src/work_frontier/platform/queue.py:229-272 | uses up an attempt and schedules a retry or dead-letters the job, or refuses and changes nothing |
| DurableQueues.DurableQueue.RecoverEach | backend/src/work_frontier/platform/queue.py:276-309 | the in-place loop recovers exactly the jobs whose lease had expired and leaves all others |
| DurableQueues.DurableQueue.RecoverExpired | backend/src/work_frontier/platform/queue.py:274-310 | keeps the invariant and returns the recovered jobs in their new versions, sorted by identifier |
| DurableQueues.DurableQueue.ReplayDeadLetter | backend/src/work_frontier/platform/queue.py:312-345 | a fresh job for a dead letter with an authorizing actor; errors as in the source |
| DurableQueues.DurableQueue.OwnedClaim | backend/src/work_frontier/platform/queue.py:351-361 | no error exactly for the worker that holds a live lease |
| SetupSaga.ValidateDependencyOrder | backend/src/work_frontier/contracts/setup.py:180-193 | accepts exactly the plans with unique identifiers whose dependencies come first |
| SetupSaga.DistinctIds | backend/src/work_frontier/contracts/setup.py:183-186 | comparing list and set length detects exactly the repeated identifiers |
| SetupSaga.WriteMoves | backend/src/work_frontier/platform/configuration/setup_storage.py:226-247 | which actions are verified after one more journal write |
| SetupSaga.TrySafe | backend/src/work_frontier/application/setup/execution.py:73-108 | trying the first unverified action is safe at every write and extends the verified prefix exactly when apply and verify succeed |
| SetupSaga.CompensationSafe | backend/src/work_frontier/application/setup/execution.py:137-176 | undoing in reverse keeps a verified prefix at every write and ends with exactly the prefix before the run |
| SetupSaga.RunFromSafe | backend/src/work_frontier/application/setup/execution.py:60-134 | from the first unverified action on, a run is safe at every moment |
| SetupSaga.SkipVerified | backend/src/work_frontier/application/setup/execution.py:60-71 | verified actions are passed over without a write or a call |
| SetupSaga.RunSafe | backend/src/work_frontier/application/setup/execution.py:50-134 | an uninterrupted run verifies the whole plan or restores exactly the verified set it started with |
| SetupSaga.SafeCut | backend/src/work_frontier/application/setup/execution.py:50-176 | a crash between any two events leaves a safe trace |
| SetupSaga.HistorySafe | backend/src/work_frontier/application/setup/execution.py:25-176 | any sequence of runs, failures, crashes and resumes is safe |
| SetupSaga.SessionSafety | backend/src/work_frontier/application/setup/execution.py:25-176 | at every moment the verified actions are a plan prefix closed under `depends_on`; an action is marked running or applied only while it is unverified and everything it depends on is verified |
| SetupSaga.RunLeavesVerified | backend/src/work_frontier/application/setup/execution.py:58-134 | from any journal, no write, apply, verify or compensation of a run concerns an action that was verified at its start |
| SetupSaga.AttemptLeavesVerified | backend/src/work_frontier/application/setup/execution.py:25-176 | in any session of runs, crashes and resumes, on any journal, each attempt leaves alone every action verified when it begins |
| SetupSaga.RunHonest | backend/src/work_frontier/application/setup/execution.py:73-176 | in every run each recorded outcome directly follows its runner call, each call its announcement, and the outcome recorded is what the runner answered |
| SetupSaga.HistoryCaused | backend/src/work_frontier/application/setup/execution.py:73-176 | over whole sessions, crashes included, nothing is recorded as applied, verified or compensated without that call just before |
| SetupResults.AppliesExactly | backend/src/work_frontier/application/setup/execution.py:58-133 | a run applies exactly the unverified actions up to and including the first that does not succeed |
| SetupResults.CompensatesExactly | backend/src/work_frontier/application/setup/execution.py:137-176 | a run calls compensation for exactly the reversible actions among those it undoes |
| SetupResults.ResultsOfFailure | backend/src/work_frontier/application/setup/execution.py:58-134 | a run that stops at i returns one result per action up to i in plan order: MANUAL_RECOVERY_REQUIRED for what was applied and could not be compensated, FAILED for i, VERIFIED for the others |
| SetupResults.ResultsOfSuccess | backend/src/work_frontier/application/setup/execution.py:58-134 | a run that gets through returns VERIFIED for every action, in plan order |
| SetupExecution.SetupJournal.RecordTransition | backend/src/work_frontier/platform/configuration/setup_storage.py:226-247 | appends one row and touches nothing else |
| SetupExecution.SetupJournal.LoadSession | backend/src/work_frontier/platform/configuration/setup_storage.py:249-276 | the plan identifier and the last state of exactly the actions with a row; an unknown session is an error |
| SetupExecution.SetupJournal.AcquireInstallationLock | backend/src/work_frontier/platform/configuration/setup_storage.py:154-173 | granted when free or held by the same session, and then held |
| SetupExecution.SetupJournal.ReleaseInstallationLock | backend/src/work_frontier/platform/configuration/setup_storage.py:175-186 | frees the lock only for its owner |
| SetupExecution.SetupJournal.CreateSession | backend/src/work_frontier/platform/configuration/setup_storage.py:217-224 | adds an unknown session and leaves a known one alone |
| SetupExecution.LatestStep | backend/src/work_frontier/platform/configuration/setup_storage.py:260-271 | overwriting in order keeps the table of latest states |
| SetupExecution.JournaledLog | backend/src/work_frontier/platform/configuration/setup_storage.py:226-276 | the writes of one session move its own log as the saga says and no other session's |
| SetupExecution.TryAction | backend/src/work_frontier/application/setup/execution.py:73-108 | the writes and calls of one attempt, in order, for every way the runner may answer |
| SetupExecution.CompensateAll | backend/src/work_frontier/application/setup/execution.py:137-176 | the writes and calls of the compensation, last applied action first, and the actions that need manual recovery |
| SetupExecution.ExecuteLocked | backend/src/work_frontier/application/setup/execution.py:50-134 | journal, trace and returned results are exactly what the saga prescribes for the journal found at the start |
| SetupExecution.ExecutePlan | backend/src/work_frontier/application/setup/execution.py:25-47 | a stale plan leaves everything untouched, a foreign lock everything but the saved plan; otherwise the run is journalled, its results are returned and the lock is free again |
| SetupExecution.ExecutionOutcome | backend/src/work_frontier/application/setup/execution.py:25-176 | from any journal, other plans' rows included: after an execution the whole plan is verified if every action was verified or succeeds, otherwise exactly what was verified before; other sessions see nothing |
| SetupResults.TryLeaves | backend/src/work_frontier/application/setup/execution.py:73-108 | after an attempt the latest state of the action is VERIFIED or FAILED, and no other action's changes |
| SetupResults.CompensationLeaves | backend/src/work_frontier/application/setup/execution.py:137-176 | after the compensation each applied action is COMPENSATED, or MANUAL_RECOVERY_REQUIRED if it is irreversible or its compensation fails; all other actions keep their state |
| SetupResults.ResultsAgree | backend/src/work_frontier/application/setup/execution.py:58-134 | a returned result says what the journal says last exactly if the action is not among those that, by plan, earlier journal and runner answers, the run undoes with success; for these the journal says COMPENSATED |
| SetupResults.AllAgree | backend/src/work_frontier/application/setup/execution.py:58-134 | all results agree with the journal exactly if nothing the run undoes is reversible with a working compensation |
| SetupResults.UndoneUpTo | backend/src/work_frontier/application/setup/execution.py:73-108 | a run whose first action neither verified nor succeeding is at i undoes exactly the actions up to i that were not verified before and can be applied |
| SetupResults.NothingUndone | backend/src/work_frontier/application/setup/execution.py:58-107 | a run that gets through undoes nothing |
| SetupResults.FailedExample | backend/src/work_frontier/application/setup/execution.py:102-134 | an action that applies, fails to verify and is compensated: returned as FAILED, journalled as COMPENSATED |
| SetupResults.VerifiedExample | backend/src/work_frontier/application/setup/execution.py:94-134 | a verified action before one that fails: returned as VERIFIED, journalled as COMPENSATED |
| SetupResults.RunRestores | backend/src/work_frontier/application/setup/execution.py:50-176 | from any journal, an uninterrupted run verifies the whole plan if it gets through and otherwise leaves exactly the verified set it found |
| Audit.AppendKeepsChain | backend/src/work_frontier/platform/audit.py:159-198 | appending a fresh event to an open chain gives a chain |
| Audit.AppendMeans | backend/src/work_frontier/platform/audit.py:159-198 | refused when closed or the event identifier is used; otherwise one entry for the event, every field of it stated, and nothing else changed |
| Audit.ChainMeans | backend/src/work_frontier/platform/audit.py:201-267 | in stored fields: numbered from 1, no event identifier twice, each entry linked to the checksum before it and hashed over all its content, the last checksum the segment's |
| Audit.FailureMeans | backend/src/work_frontier/platform/audit.py:201-234 | each failure code means what it says; the first check to fail decides |
| Audit.AnchorMeans | backend/src/work_frontier/platform/audit.py:125-132 | an anchor verifies exactly for the segment and checksum it names with the signature over both and the signer |
| Audit.BuiltSegmentsVerify | backend/src/work_frontier/platform/audit.py:84-105 | every segment built by opening, appending and closing is a chain |
| Audit.VerifyEntries | backend/src/work_frontier/platform/audit.py:244-258 | stops at the first entry that breaks the chain, with that entry's failure; otherwise ends with the last checksum |
| Audit.VerifySegment | backend/src/work_frontier/platform/audit.py:237-267 | accepts exactly the chains with an acceptable anchor; each failure code means what it says |
| Audit.Sign | backend/src/work_frontier/platform/audit.py:116-123 | only closed segments with a named signer are anchored, and the anchor verifies |
| Audit.SameLink | backend/src/work_frontier/platform/audit.py:214-222 | equal checksums come from equal entries at equal positions of segments of equal scope |
| Audit.FinalChecksumDetermines | backend/src/work_frontier/platform/audit.py:201-267 | two non-empty chains with one final checksum agree in scope, length and every entry's sequence number, event, payload hash and checksums |
| Audit.AnchorDetermines | backend/src/work_frontier/platform/audit.py:125-132 | one anchor cannot verify for two non-empty chains that differ |
| Audit.CopiesUnchecked | backend/src/work_frontier/platform/audit.py:201-234 | the scope copies on entries are outside every check |
| Frontier.ValidatePipeline | backend/src/work_frontier/domain/frontier.py:126-136 | accepts exactly the non-empty pipelines without repetition that end with the stable identifier |
| Frontier.BeforeTotal | backend/src/work_frontier/domain/frontier.py:401-416 | a legal pipeline orders any two items with different identifiers |
| Frontier.BuildSnapshot | backend/src/work_frontier/domain/frontier.py:207-214 | refuses exactly repeated identifiers; otherwise the same items in increasing identifier order |
| Frontier.ReadyMeansAllHold | backend/src/work_frontier/domain/frontier.py:388-398 | ready exactly when lifecycle, blockers, gates and authority all allow it |
| Frontier.StrictlySortedUnique | backend/src/work_frontier/domain/frontier.py:357-359 | the ranking is determined by the items: sorting has one possible outcome |
| Frontier.Classify | backend/src/work_frontier/domain/frontier.py:350-355 | one pass finds the ready items and notes every item's reasons |
| Frontier.SolveFrontier | backend/src/work_frontier/domain/frontier.py:344-385 | the loops and tables produce the frontier and its recommendation |
| Frontier.EachItemOnce | backend/src/work_frontier/domain/frontier.py:361-373 | each item is decided exactly once |
| Frontier.ReadyFirst | backend/src/work_frontier/domain/frontier.py:357-373 | ready items first, at positions 1, 2, ... in strictly increasing key order; the others unranked |
| Frontier.RecommendationIsLeast | backend/src/work_frontier/domain/frontier.py:374-384 | the recommendation is the least ready item; none exactly if nothing is ready |
| Frontier.RankedByFields | backend/src/work_frontier/domain/frontier.py:401-416 | of two ready items the one ranked first is preferred by some comparator, greater priority, earlier class, more unlocks, greater age or smaller identifier, with none before it telling them apart |
| Frontier.RecommendedIsPreferred | backend/src/work_frontier/domain/frontier.py:374-384 | the recommendation, at position 1, is the ready item so preferred to every other; none exactly if no item is ready |
| Frontier.ReasonsAreExact | backend/src/work_frontier/domain/frontier.py:388-398 | every decision states exactly the conditions that stand against its item, each once, in order; "ready" alone if none does |
| Frontier.UnreadyInOrder | backend/src/work_frontier/domain/frontier.py:362-364 | items that are not ready follow in the order of the snapshot |
| Frontier.OrderIsIndependent | backend/src/work_frontier/domain/frontier.py:357-360 | the order of two ready items depends on the two alone |
| Frontier.PermutationInvariant | backend/src/work_frontier/domain/frontier.py:207-214 | the snapshot, hence the frontier, is the same for every order of the input |
| Frontier.RaisingNeverMovesLater | backend/src/work_frontier/domain/frontier.py:401-416 | raising one ready item's priority never moves it later |
| Registry.ValidatePrerequisites | backend/src/work_frontier/contracts/harness_registry.py:98-110 | accepts exactly duplicate-free lists of other known harnesses |
| Registry.Dependents | backend/src/work_frontier/contracts/harness_registry.py:114-120 | the adjacency and in-degree tables are the prerequisite edges turned round, and their counts |
| Registry.CountHarnesses | backend/src/work_frontier/contracts/harness_registry.py:122-130 | the count is complete exactly for acyclic graphs; a degree is left exactly where prerequisites lead to a cycle |
| Registry.ValidatePrerequisiteCycles | backend/src/work_frontier/contracts/harness_registry.py:113-136 | accepts exactly the acyclic prerequisite graphs; the error names exactly the harnesses that lead to a cycle |
| RegistryClosure.ValidateRegistry | backend/src/work_frontier/contracts/harness_registry.py:240-283 | accepts exactly the registries with a supported schema, unique identifiers, legal prerequisite lists and no prerequisite cycle |
| RegistryClosure.ClosureSearch.Visit | backend/src/work_frontier/contracts/harness_registry.py:337-355 | one visit extends the finished, ordered, acyclic part, or names a needed harness that stops it |
| Registry.PrerequisiteGraphMeaning | backend/src/work_frontier/contracts/harness_registry.py:288-318 | the graph: a node for every identifier, an edge to exactly what the first entry with the identifier lists |
| RegistryClosure.UsableMeans | backend/src/work_frontier/contracts/harness_registry.py:288-318 | usable: the first entry with the identifier is implemented, and lists its prerequisites unless the schema is 1.0.0 |
| RegistryClosure.DependencyClosure | backend/src/work_frontier/contracts/harness_registry.py:331-358 | for any registry: succeeds exactly if every needed harness is usable and on no cycle, with exactly the needed harnesses, each once, prerequisites first, target last, in the order of the prerequisites' own closures merged one after another |
| ClosureOrder.AddsNode | backend/src/work_frontier/contracts/harness_registry.py:337-355 | a harness adds the merged closures of its prerequisites in their order, then itself |
| RegistryClosure.AcceptedNeverCycles | backend/src/work_frontier/contracts/harness_registry.py:331-358 | in an accepted registry the cycle and invalid-list errors never occur; unknown means the target itself is unknown |
| RegistryClosure.AcceptedClosable | backend/src/work_frontier/contracts/harness_registry.py:331-358 | in an accepted registry a known target has a closure exactly if every needed harness is implemented |
| Ulid.Alphabet | backend/src/work_frontier/domain/identifiers.py:12 | the digit characters are the alphabet, in order |
| Ulid.DigitsAreShifts | backend/src/work_frontier/domain/identifiers.py:167-169 | character i is found by shifting right by five bits for every later character |
| Ulid.EncodeDecodes | backend/src/work_frontier/domain/identifiers.py:166-170 | every 128-bit number encodes to a canonical ULID that decodes to it |
| Ulid.DecodeEncodes | backend/src/work_frontier/domain/identifiers.py:13-32 | the format check admits exactly the encodings of 128-bit numbers |
| Ulid.EncodeOrder | backend/src/work_frontier/domain/identifiers.py:166-170 | encoded strings compare as the numbers they encode |
| Ulid.MonotonicUlidFactory.Generate | backend/src/work_frontier/domain/identifiers.py:129-170 | a call in range fails exactly when the last number was 2^128 - 1; otherwise the greater of the clamped request and the last number plus one; refusals change nothing |
| Ulid.NextMeans | backend/src/work_frontier/domain/identifiers.py:148-163 | a later request is taken as it stands; otherwise the last timestamp stays, with the greater of the given random part and the next one |
| Ulid.RefusesMeans | backend/src/work_frontier/domain/identifiers.py:129-163 | refused exactly if a part does not fit 48 or 80 bits, or all numbers are used up |
| Ulid.NumbersIncrease | backend/src/work_frontier/domain/identifiers.py:148-165 | over any calls the generated numbers strictly increase within 128 bits |
| Ulid.UlidIsCanonical | backend/src/work_frontier/domain/identifiers.py:129-170 | over any calls, every generated string is canonical and decodes to its number |
| Ulid.UlidsIncrease | backend/src/work_frontier/domain/identifiers.py:129-170 | over any calls, backward clocks included, the strings strictly increase |
| Ulid.CarriesExactlyOnOverflow | backend/src/work_frontier/domain/identifiers.py:148-163 | the timestamp moves past the requested and the last one exactly when the last random part is all ones and the requested time is not later: where the ULID specification has generation fail |
| Ulid.CarryExample | backend/src/work_frontier/domain/identifiers.py:148-163 | two calls at time zero, the second stamped one millisecond later |
| Ingestion.MergeChanges | backend/src/work_frontier/application/ingestion.py:107-116 | refetched items replace or join the stored ones under the identifier asked for, all others stay; values sorted by their own identifiers, equal ones in the order their keys were entered, strictly if every answer carries the identifier asked for; the first missing item is an error |
| Ingestion.SortKeysSorts | backend/src/work_frontier/application/ingestion.py:116 | sorting the keys puts their values in order of identifier, each key once |
| Ingestion.SortKeysStable | backend/src/work_frontier/application/ingestion.py:116 | keys of values with equal identifiers stay in the order they were entered |
| Ingestion.MergeTouchesOnlyChanged | backend/src/work_frontier/application/ingestion.py:107-116 | merging leaves every unchanged identifier with the item it had |
| Ingestion.RepeatsExactly | backend/src/work_frontier/application/ingestion.py:107-116 | the merged list repeats an identifier, which the snapshot refuses, exactly if an answer carries the identifier of another answer or of a stored item that was not refetched |
| Ingestion.TouchesOnlyChangedExactly | backend/src/work_frontier/application/ingestion.py:107-116 | an accepted merge leaves every unchanged identifier as it was exactly if all answers carry changed identifiers |
| Ingestion.ForeignAnswerExample | backend/src/work_frontier/application/ingestion.py:111-116 | one answer under another identifier: accepted, and an item appears outside the change |
| Ingestion.Downstream | backend/src/work_frontier/application/ingestion.py:273-276 | for every blocker exactly the items that name it |
| Ingestion.AffectedItemIds | backend/src/work_frontier/application/ingestion.py:266-285 | the least set with the changed identifiers and everything blocked by a member; everything when no change is named |
| Ingestion.FanOutTable | backend/src/work_frontier/application/ingestion.py:302-305 | how often each identifier is named as a blocker |
| Ingestion.FanOutCountsItems | backend/src/work_frontier/application/ingestion.py:302-305 | in a normalized corpus that is the number of items it blocks |
| Ingestion.FrontierInputs | backend/src/work_frontier/application/ingestion.py:296-345 | one engine input per item, from the corpus-wide states and counts |
| Ingestion.NormalizeMeans | backend/src/work_frontier/application/ingestion.py:249-253 | keeps the item, lists what body and policy name once and in order, completed exactly if the state reads "closed" in any case |
| Ingestion.InputIsRight | backend/src/work_frontier/application/ingestion.py:296-345 | every field of an engine input in terms of the source items: unlocks count the items that name it, incomplete blockers are those named and not known to be closed |
| Ingestion.ReadyAfterIngestion | backend/src/work_frontier/application/ingestion.py:296-345 | an ingested item is ready exactly if it is open and everything it names is known to be closed |
| Ingestion.UnaffectedKeepFacts | backend/src/work_frontier/application/ingestion.py:266-345 | outside the affected set an item keeps its lifecycle, its incomplete blockers and its readiness reasons |
| RateLimiter.SlidingWindowRateLimiter.Allow | backend/src/work_frontier/interfaces/api/browser_security.py:45-60 | errors before any change; otherwise the decision and the new queues are those of the transition |
| RateLimiter.KeptCounts | backend/src/work_frontier/interfaces/api/browser_security.py:54-57 | in a sorted history the pruned queue is as long as the window is full |
| RateLimiter.AgreesWithFullHistory | backend/src/work_frontier/interfaces/api/browser_security.py:45-60 | with clocks that never run backwards per key, each decision is that of a counter over all admissions |
| RateLimiter.SameAdmissions | backend/src/work_frontier/interfaces/api/browser_security.py:45-60 | over a whole run with such clocks, limiter and counter admit the same requests |
| WindowBounds.AlwaysTracked | backend/src/work_frontier/interfaces/api/browser_security.py:54-59 | under any clock, the queue is the end of the admitted instants, and what it has forgotten was pushed out by a later call |
| WindowBounds.WindowBound | backend/src/work_frontier/interfaces/api/browser_security.py:37-60 | at most `limit` admissions of a key in any window, for every run in which no key's clock passes an instant by a window and then comes back within a window of it |
| WindowBounds.ForwardBound | backend/src/work_frontier/interfaces/api/browser_security.py:37-60 | in particular, at most `limit` in any window for clocks that never run backwards per key |
| WindowBounds.LimitOneBound | backend/src/work_frontier/interfaces/api/browser_security.py:37-60 | with limit one, at most one admission in any window, whatever the clock does |
| WindowBounds.RevivalOverruns | backend/src/work_frontier/interfaces/api/browser_security.py:37-60 | with a greater limit, every such return of the clock overruns: `limit` calls at x, one at y, one at z are all admitted |
| WindowBounds.BoundExactly | backend/src/work_frontier/interfaces/api/browser_security.py:37-60 | every run that reads a given clock keeps the bound exactly if the limit is one or the clock has no such return |
| WindowBounds.OnlyLimitOne | backend/src/work_frontier/interfaces/api/browser_security.py:37-60 | the bound holds under all clocks exactly for limit one |
| WindowBounds.StepBackDisagrees | backend/src/work_frontier/interfaces/api/browser_security.py:45-60 | with any limit, `limit` calls at y and one at an earlier z: the limiter refuses the last, the counter over all admissions admits it |
| WindowBounds.AgreesExactly | backend/src/work_frontier/interfaces/api/browser_security.py:45-60 | limiter and full-history counter admit the same requests on every run that reads a given clock exactly if that clock never runs backwards |

## Left out

- Dependency.AnalyzeDependencyGraph: attention records hold members and cycle path; their rendering as text is not modelled.
- Ingestion.AffectedItemIds: returns the set of affected identifiers; the source lists it by a numeric-or-text key.
- Blocker references in issue bodies (`_BLOCKED_SECTION`, `_ISSUE_REFERENCE`): the references found are an input of `Ingestion.Normalize`.
- Page-wise reading of a source, source revisions, snapshot hashes and decision cycles: I/O and hashing around the merge.
- Case folding of item states is modelled for ASCII letters, the only ones that can spell "closed".
- Frontier.SolveFrontier: decisions carry no identifier, comparator trace or other copied field: no computation beyond copying or hashing.
- Ingestion.FrontierInputs: takes ages in seconds, possibly negative; parsing timestamps and the error on one without a zone are not modelled.
- Reproducibility envelope and blank-text checks of frontier inputs: one-branch validation.
- `SchedulerFence` and `get` of the queue: a dictionary lookup each; concurrent threads are not modelled.
- Time zones: timestamps are instants; only the rate limiter's zone check is kept, as an input case.
- SetupExecution.ExecutePlan: results carry no message or redacted evidence.
- SetupExecution.SetupJournal.RecordTransition: rows carry no payload, and the session's update time is not kept.
- SetupExecution.SetupJournal.LoadSession: returns the latest states without their payloads.
- Redaction of evidence, reports and SQL of the setup journal: the append-only rows, the sessions and the lock remain.
- An adapter that fails while a transition is being recorded: recording is total, a crash may follow or precede it.
- Audit.Canonical: no global injectivity of the hash is assumed, because digests are shorter than texts; instead no two of the texts actually hashed collide.
- `purge_segment` and its deletion proof: a conjunction of closedness, verification and named actors.
- JSON text and `isoformat`: opaque encodings, injective by hypothesis; payload values stand for their canonical text.
- RegistryClosure.ValidateRegistry: checks schema, identifiers and prerequisites only; other fields, release stages, counts, the foundation closure and an explicit JSON null for prerequisites are field-by-field checks.
- Fan-out across two corpora: it may change outside the affected set, so nothing is claimed about it.
- Recursion limits of the interpreter.
