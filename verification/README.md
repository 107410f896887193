# AlpineForm core: a verified model

AlpineForm brings Alpine hosts to a declared configuration. It compiles a resource graph, compares it with the state it
stored last time and with what it observes on the host, orders the resulting steps and carries them out under a lease.
This project models the parts of that engine in which several functions have to agree, and proves what they promise
together.

| Component | Files |
|---|---|
| strings in Go's order, directed graphs, the priority form of Kahn's algorithm, cycle search | `addresses`, `digraph`, `kahn`, `cycle_finding` |
| graph validation and scheduling | `resource_graph`, `explicit_dependencies` |
| step ordering | `dependency_order`, `ordering_theorems`, `step_order`, `plan_ordering` |
| planning and execution of one host | `model`, `plan`, `plan_host`, `remote`, `execute`, `effects`, `plan_decisions`, `triggers` |
| what holds over runs and after crashes | `convergence`, `crash`, `restart`, `run_invariant`, `engine_run` |
| moved components | `moved_validation`, `moved_chains`, `moved_theorems`, `state_moves`, `move_lineage`, `move_order`, `component_names`, `move_resolution` |
| the lease lock | `lease_lock`, `lease_protocol`, `lease_exchange` |
| the bounded worker pool | `worker_pool` |
| shell quoting and the OpenRC script | `shell_quoting`, `openrc_script` |
| nftables bodies | `nftables`, `nftables_persistence`, `nftables_lexing` |
| typed variable values | `variable_types`, `set_normal_form`, `typed_values`, `value_parts`, `value_keys`, `normalize_value` |

`dafny verify dfyconfig.toml` checks the whole project.

## How the code is represented

- Addresses, names and texts are Go strings, compared as Go compares them. Maps are Dafny maps; where the code ranges
  over a map and sorts afterwards, the model ranges in an arbitrary order.
- Code that changes things step by step is a method with loops, tied by its `ensures` to a function or relation; the
  theorems are lemmas about those. The step graph, the lock directory, the lease, the clock and the remote host are
  classes; `applyExplicitDependencies` and the removal of repeated set items work in place on arrays.
- The depth-first closures of the source share variables. They are methods that take and return those variables.
  `actionDependencyCycle` and `validateAcyclicDependencies` are one search, `canonicalActionCycle` and
  `canonicalDependencyCycle` one rotation.
- The provider is a map from address to remote object: `Apply` leaves the object of one address as its node wants it,
  `Delete` clears one, and either may fail and leave its own address in any condition. How an object that is as wanted is
  reported is up to the provider (`Remoting.Faithful`): it names the digest of the desired attributes, beside any other
  values, as packages, services and the hostname do, or it shows exactly those attributes without a digest. The theorems
  hold for every such provider, and two runs may be reported differently. The backend's `Write` replaces the stored state.
- An inspection reports the engine's marker on nftables tables only, and on every such table that shows the wanted
  digest (`Remoting.Inspectable`), as the provider derives that digest from the marker.
- Digests are injective: the digest of a set of attributes stands for those attributes.
- The lease protocol and the worker pool are transition systems, and their theorems hold for every finite run. Time is
  one monotone clock in nanoseconds, read by clients and floored to seconds by the stored expiry. Each remote script is
  one atomic step, and it runs at any moment after it was built, or never.
- The worker pool's calls return any outcome at any moment. Setting the first error and cancelling is one step, as
  `sync.Once` makes it for the other workers.
- `RunInvariant.GoodState` says of a stored state that every recorded dependency is tracked, that dependencies have no
  cycle, and that no address is empty.
- `Convergence.Settleable` collects what the graph compiler gives every node: ephemeral nodes have safe digests, nodes
  that are to be absent are neither triggered nor of a kind with its own update rule, and component kinds record their
  desired identity as their delete identity.
- `PlanOrdering.InScheduleOrder` is what a validated graph's schedule gives one host's managed nodes. Authored
  dependencies name managed nodes of the same host (`PlanOrdering.AuthoredWithinHost`), which is all the configuration
  language lets them name.

## What turned out false, and what holds instead

- **Stopping and planning again can fail**, for one kind of resource. The engine does not take over an nftables table
  that it neither tracks nor marked. When the creation of such a table is interrupted, the table may be there without
  the marker, and the next plan is refused (`Crash.InterruptedTableIsRefused`). Every interruption of a plan can be
  planned again exactly when the plan changes no untracked nftables table that may not be adopted
  (`Crash.RestartAlwaysPlansExactly`).
- **Ordering is not idempotent**: which edge of a circle is dropped depends on the input order
  (`OrderingTheorems.NotIdempotent`). Sorting a sorted plan changes nothing exactly when the second sort keeps no edge
  that the first one skipped (`OrderingTheorems.ResortUnchangedExactly`), in particular when nothing was skipped.
- **A set can lose a member**: a number and a string of its digits have the same set key. Two values share a key
  exactly when they differ in no more than marks and numbers written as text (`ValueKeys.SharesKeyExactly`), and keys
  tell the values of a type apart exactly when no part of the type is `any` (`ValueKeys.KeysTellApartExactly`).
- **The lease object's `released` flag lags**: it is set only when the reply of the release is read.
  `LeaseProtocol.ReleasedFlagLags` is a run after which two leases carry a clear flag and are unexpired. That happens
  only after the release of one of them has removed the lock (`LeaseProtocol.ClearFlagsOverlapAfterRelease`); mutual
  exclusion holds among all leases that no release has ended, those of crashed holders included.
- `runBounded` deadlocks for exactly the calls with work, no worker and a live context
  (`WorkerPool.StuckOnlyWithoutWorkers`). Its callers never make one.
- A remote command whose script holds a NUL is not refused, unlike one whose argument does. The command line reads back
  exactly when the script holds none (`ShellQuoting.RemoteCommandReadsBack`).
- Two refusals of the code are never given: that declared roots overlap (`MoveOrder.OffenceIsReal`), and that a
  resolution changed while desired identities were rebased (`MoveResolution.RebasingChangesNothing`).

## Model

| member | source | states |
|---|---|---|
| Addresses.CanonicalAddresses | internal/core/engine/dependency_order.go:268-278 | the result is the one strictly sorted list of the addresses, without repetitions; the same holds of sortedUniqueStrings |
| Digraph.AddEdgeAcyclic | internal/core/engine/dependency_order.go:45-52 | an edge that closes no path keeps a graph acyclic |
| Digraph.LeastOrderComplete | internal/core/engine/dependency_order.go:101-125 | the greedy order emits every vertex exactly when the edges have no cycle, and then it is a permutation and a linear extension |
| Digraph.LeastOrderIsLeast | internal/core/engine/dependency_order.go:107-119 | at the first difference from any other linear extension, the greedy order chose the vertex of higher priority |
| CycleFinding.CanonicalCycle | internal/core/graph/graph.go:1267-1283 | a cycle with distinct interior comes back entered at its smallest address: the result is a rotation of it |
| CycleFinding.FindCycle | internal/core/graph/graph.go:1213-1265 | the search finds nothing exactly when the graph is acyclic; otherwise it returns a closed walk along edges with distinct interior, in canonical rotation |
| DependencyOrder.StepGraph.AddBefore | internal/core/engine/dependency_order.go:28-44 | an edge between known steps is added once, with the counts and lists of dependents still matching the edges; an unknown endpoint adds nothing |
| DependencyOrder.StepGraph.PathExists | internal/core/engine/dependency_order.go:128-149 | the search with its visited set answers reachability exactly |
| DependencyOrder.StepGraph.AddInferredBefore | internal/core/engine/dependency_order.go:45-52 | the inferred edge is added unless its target already reaches its source |
| DependencyOrder.StepGraph.SortDependents | internal/core/engine/dependency_order.go:96-100 | every list of dependents comes out in rank order, with the edges unchanged |
| DependencyOrder.StepGraph.Drain | internal/core/engine/dependency_order.go:101-120 | the ready-list loop emits the greedy priority order of the edges |
| DependencyOrder.BuildEdges | internal/core/engine/dependency_order.go:54-88 | the graph holds the authored edges of all steps, each turned by orphanhood or removal, and then the inferred ones that closed no path when their turn came |
| DependencyOrder.OrderStepsForExecution | internal/core/engine/dependency_order.go:11-126 | success gives the execution order of an acyclic plan; failure on well-addressed steps is a canonical cycle of the final edges, so the code's "unknown" fallback is never taken; other failures name an empty or repeated address |
| OrderingTheorems.InferredKeepAcyclic | internal/core/engine/dependency_order.go:45-52 | inferred edges never create a cycle |
| OrderingTheorems.FailsIffAuthoredCyclic | internal/core/engine/dependency_order.go:54-125 | sorting fails exactly when the authored edges alone are cyclic |
| OrderingTheorems.SkippedIsReversed | internal/core/engine/dependency_order.go:45-52 | a skipped inferred edge with distinct endpoints has them in the opposite order in the output |
| OrderingTheorems.NothingSkipped | internal/core/engine/dependency_order.go:74-88 | when authored and inferred edges together have no cycle, every inferred edge is kept |
| OrderingTheorems.OrderIsLinearExtension | internal/core/engine/dependency_order.go:90-125 | the sorted plan is a permutation of its input that respects every final, and so every authored, edge |
| OrderingTheorems.OrderIsLeast | internal/core/engine/dependency_order.go:90-120 | no other linear extension is smaller in the steps' input positions |
| OrderingTheorems.UnchangedExactly | internal/core/engine/dependency_order.go:90-120 | a plan comes back unchanged exactly when it respects its own final edges |
| OrderingTheorems.ResortUnchangedExactly | internal/core/engine/dependency_order.go:45-120 | sorting a sorted plan leaves it unchanged exactly when the second sort keeps no edge that the first skipped |
| OrderingTheorems.NothingSkippedIsStable | internal/core/engine/dependency_order.go:45-120 | a plan whose sort skipped no inferred edge is stable under sorting |
| OrderingTheorems.NotIdempotent | internal/core/engine/dependency_order.go:45-120 | three steps whose sorted order is sorted into yet another order |
| StepOrder.AuthoredExactly | internal/core/engine/dependency_order.go:54-73 | the authored edges, said of the steps: a node comes after what it explicitly depends on, or before it when a step of the plan deletes or destroys that; an orphan goes before what its record depends on; and both ends are planned |
| StepOrder.InferredInOrder | internal/core/engine/dependency_order.go:74-88 | inferred edges take their turn by the position of the step that asks, and of one step by the address it waits for |
| StepOrder.OrderMeans | internal/core/engine/dependency_order.go:54-120 | the execution order, pair by pair: explicit dependencies as above, and every other dependency first, unless its edge was dropped, and then it runs later |
| ResourceGraph.ValidatedNodes | internal/core/graph/graph.go:1132-1162 | validation succeeds exactly for well-addressed graphs whose references are known, whose triggers are dependencies and which have no cycle; every error is a true witness |
| ResourceGraph.Schedule | internal/core/graph/graph.go:1173-1211 | scheduling succeeds exactly for valid graphs, with the greedy order; the "did not emit every graph node" branch is never taken |
| ResourceGraph.ValidGraphSchedules | internal/core/graph/graph.go:1173-1211 | the schedule of a valid graph is a permutation of its addresses with every dependency and trigger before its node |
| ResourceGraph.ScheduleIsLeast | internal/core/graph/graph.go:1193-1206 | the schedule is the lexicographically least topological order in Go's string order |
| ResourceGraph.ScheduleIgnoresInputOrder | internal/core/graph/graph.go:1180-1206 | permuting the nodes or any dependency list leaves the schedule unchanged |
| ExplicitDependencies.ApplyExplicitDependencies | internal/core/graph/resource_dependencies.go:10-51 | succeeds exactly when every authored edge stays in the host and names known nodes; each edge is added in place to its node's graph and explicit dependencies, which come out sorted, with the source of the first dependency that asked for it, and nothing else changes; the error names the first edge refused, with those before it added |
| ExplicitDependencies.AuthoredStaysGraphEdge | internal/core/graph/resource_dependencies.go:40-42 | a graph in which authored edges are graph edges keeps that property |
| ExplicitDependencies.FirstSourceIs | internal/core/graph/resource_dependencies.go:43-48 | the recorded source of an edge is that of the first dependency that asked for it |
| ExplicitDependencies.ScopesDisjoint | internal/core/graph/resource_dependencies.go:11-25 | an address is in the scope of one host only |
| PlanOrdering.GroupByHost | internal/core/engine/engine.go:294-299 | every host gets its managed nodes, in schedule order |
| PlanOrdering.ValidGraphInOrder | internal/core/engine/engine.go:290-299 | a valid graph's schedule, filtered to one host's managed nodes, is in schedule order with its authored edges inside |
| PlanOrdering.AuthoredAlwaysAcyclic | internal/core/engine/engine.go:414-446 | for nodes in schedule order and any prior state with acyclic dependencies, whatever is removed or kept, the authored edges are acyclic and the plan is ordered |
| PlanOrdering.PlanExists | internal/core/engine/engine.go:338-450 | nodes in schedule order that can each be planned, against a state with acyclic dependencies and no protected orphan, have a plan |
| PlanOrdering.NodesRunInScheduleOrder | internal/core/engine/dependency_order.go:54-120 | for nodes in schedule order, the plan runs them in exactly that order and before all orphans just when no node depends on an orphan, none of their explicit dependencies is removed, and no orphan depends on a node |
| Planning.PlanNodesShape | internal/core/engine/engine.go:342-413 | each planned step is its node's decision given the actions planned before it |
| PlanDecisions.StepCarries | internal/core/engine/engine.go:350-371 | a step carries its node, its observation with a digest that tells whether the object is as wanted, and its record; the record of a newly protected node loses its digest and takes over the delete identity of the node, and every protected record is marked |
| PlanDecisions.StepPayload | internal/core/engine/engine.go:355-378 | the identity that a newly protected artifact or certificate still has on public record goes into the payload of its step, and no other payload changes |
| PlanDecisions.RefusedExactly | internal/core/engine/engine.go:379-410 | planning a node fails exactly, and in this order, for a newly protected artifact or certificate whose earlier identity nothing names, for an untracked and unmarked table that is there and may not be adopted, and for an object that is wanted absent, is there and must not be destroyed |
| PlanDecisions.CleanupExactly | internal/core/engine/engine.go:550-580 | an earlier identity is to be cleaned up exactly when one is known, from the payload or else from the record, and is not the wanted one |
| PlanDecisions.CleanupIsCarriedOut | internal/core/engine/engine.go:384-386 | whatever is to be cleaned up, the provider gets to see |
| PlanDecisions.MigrationExactly | internal/core/engine/engine.go:811-838 | a migration is required of exactly the newly protected artifacts and certificates, and possible when the payload names an identity |
| PlanDecisions.MadeOrChanged | internal/core/engine/engine.go:390-406 | an object is created only where there is none, and changed where there is none only to clean up; a step that names triggers names all that change, and acts |
| PlanDecisions.TriggersNamed | internal/core/engine/engine.go:526-535 | triggers are named one by one, in the order of the list |
| PlanDecisions.OneTriggerNamed | internal/core/engine/engine.go:526-535 | a trigger is named exactly when it is planned to be created, updated, deleted or destroyed |
| PlanDecisions.PlanCarries | internal/core/engine/engine.go:339-366 | the state a plan starts from holds the carried records of its nodes and the untouched records of orphans, and is written early exactly when a tracked node is newly protected |
| PlanHosting.SortOrphans | internal/core/engine/engine.go:414-427 | the orphans come out by falling recorded order, ties by falling address |
| PlanHosting.PlanNodeLoop | internal/core/engine/engine.go:342-413 | the loop plans all nodes against the observations, or explains the first refusal: an inspection that failed, a missing cleanup identity, an nftables table that may not be adopted, or prevent_destroy |
| PlanHosting.PlanOrphans | internal/core/engine/engine.go:428-442 | every orphan gets its recorded removal: deleted or destroyed as the record says, or else forgotten; unless prevent_destroy blocks one of the former |
| PlanHosting.PlanHost | internal/core/engine/engine.go:338-450 | a plan is an execution order of a complete draft; every error is explained by the node, observation, orphan or cycle that caused it |
| Triggers.PassIsFixpoint | internal/core/engine/engine.go:390-406 | after the single pass, exactly the nodes act that have their own reason or see a changed trigger or apk dependency |
| Triggers.SinglePassIsLeastFixpoint | internal/core/engine/engine.go:342-413 | the pass computes the least set closed under trigger propagation over all nodes, with the apk_update rule and the exemption of artifacts whose content is verified against a protected checksum |
| Execution.ReconcileStateDependencies | internal/core/engine/dependency_order.go:224-247 | every tracked resource of a planned node lists, sorted, exactly those of its authored dependencies that are tracked; nothing but dependency lists of planned nodes changes |
| Execution.RunRecords | internal/core/engine/engine.go:728-807 | the early and the final write list every planned node's tracked authored dependencies, sorted and complete, and the final write numbers every tracked resource by the position of its step |
| Execution.RemoveStateDependencyReferences | internal/core/engine/dependency_order.go:249-266 | the removed address disappears from every dependency list, sorted lists stay sorted, and nothing else changes |
| Execution.ExecuteStep | internal/core/engine/engine.go:768-805 | one step performs its effect on memory and host, unless it calls the provider for an address that fails; then every other address is left alone |
| Execution.PerformExactly | internal/core/engine/engine.go:768-805 | what each action does to records and host: nothing; the record and all references to it go, and on a deletion the object; or a record of the node replaces the old one, with the protection that was observed, and on creation and update the object is as the provider reports it |
| Execution.MigratePriors | internal/core/engine/engine.go:738-757 | the loop passes exactly when every step that must migrate has an identity and can be migrated, and otherwise names the first that has or can not |
| Execution.BuildResource | internal/core/engine/engine.go:846-878 | every recorded field comes from the node, with its authored dependencies sorted and once each and the protection of the node or of the observation; and it is what the next plan needs: with the wanted object in place the node is a no-op exactly when its digest may be kept, it does not count as newly protected, and as an orphan it is removed, forgotten or blocked as the node asked |
| Execution.ExecuteHost | internal/core/engine/engine.go:717-809 | success comes exactly when migrations, provider calls and the needed writes succeed: one early write after moves or for newly protected records, and one at the end unless nothing changed after an early one; it performs all steps in order and stores the final state, with complete dependency lists and positions. A failed migration changes nothing; a failed step is the first one whose call fails, leaves only its own address in doubt, and leaves the early write stored, if there was to be one |
| Execution.RunSteps | internal/core/engine/engine.go:768-808 | from the memory that executeHost starts with, the step loop and the final write do all steps and store the result, or stop at the step or write that failed |
| Effects.FinalAt | internal/core/engine/engine.go:768-808 | what a run leaves at an address, on the host and in the state, is the effect of the one step that owns it; of a tracked resource this is everything but its dependency list and its order, which other steps touch too |
| Convergence.NodeDecision | internal/core/engine/engine.go:582-630 | exactly when a node is created, updated, adopted, deleted or left alone, in terms of the node's attributes, the recorded digest and the observation: a reported digest decides, and the values only where none is reported; write-only content is never adopted |
| Convergence.SettledIsNoOp | internal/core/engine/engine.go:582-630 | a node in its desired condition and state, with nothing changing before it, is planned as a no-op |
| Convergence.RunSettles | internal/core/engine/engine.go:768-808 | after a run, every node is in its desired condition and state and nothing else is tracked |
| Convergence.Converges | internal/core/engine/engine.go:338-450 | from any prior state and any remote world, and however the provider reports what it applied, the draft after a successful run is entirely no-op and has no orphan, and for nodes in schedule order an ordered plan of it exists |
| Crash.CrashTransparent | internal/core/engine/engine.go:338-450 | stopped after any prefix of the steps, with the interrupted address in any condition and the early write done or not: the nodes can be planned again exactly when none is a refused nftables table, which can only be the interrupted one; then, for nodes in schedule order against a good state, an ordered plan exists; and any new execution leaves the content that the uninterrupted run leaves everywhere, and, where inspections can have reported both starting worlds, the same markers |
| Crash.RestartAlwaysPlansExactly | internal/core/engine/engine.go:387-389 | every interruption of a plan can be planned again exactly when the plan changes no untracked nftables table that may not be adopted |
| Crash.InterruptedTableIsRefused | internal/core/engine/engine.go:387-389 | creating a table on an empty host, stopped before its marker is there: the next plan is refused |
| Restart.RestartFinds | internal/core/engine/moved.go:14-49 | stopped with nothing written or after the early write, resolving the declared moves again leads to the state that was planned against or to the early write, with the same names and bindings, and after the early write moves nothing |
| Restart.ApplyTransparent | internal/core/engine/engine.go:315-331 | an apply with its moves, stopped anywhere and started over from the stored state, plans again unless a table is refused and ends in the remote world of the uninterrupted apply |
| RunInvariant.EarlyWriteGood | internal/core/engine/engine.go:728-763 | the early write has closed, acyclic dependencies and tracks the same addresses as before |
| RunInvariant.FinalWriteGood | internal/core/engine/engine.go:806-807 | the final write has closed, acyclic dependencies and holds no orphan |
| RunInvariant.TeardownSafe | internal/core/engine/engine.go:768-787 | when an orphan is removed or forgotten, no resource in memory still depends on it |
| EngineRun.RunKeepsGood | internal/core/engine/engine.go:219-284 | over any sequence of applies with changing configurations, crashes and moves, every stored state is good |
| EngineRun.RunAlwaysOrders | internal/core/engine/dependency_order.go:121-124 | from every state of every run, after any moves, the step ordering never reports a cycle |
| EngineRun.ValidatedAlwaysOrders | internal/core/engine/engine.go:290-325 | the managed nodes of any host of a validated graph, planned against any state of any run, can always be ordered |
| EngineRun.ApplyHost | internal/core/engine/engine.go:315-331 | resolving the declared moves, planning and executing one host changes nothing before the plan is made; success carries out a plan of the resolved state, written early if anything moved, and leaves its final state and the resolved names; failure leaves the host stopped at a step of that plan, with the state as it was or as the early write; the stored state stays good, ordering never fails, and success leaves no orphan |
| MovedValidation.ValidateAndSortMoved | internal/core/parser/moved.go:86-165 | moves are accepted exactly when no source, target or name is shared and there is no cycle, and come back permuted with strictly rising sources; the error is the first offence by file, line, source and target, or a name on a cycle |
| MovedValidation.Screen | internal/core/parser/moved.go:101-118 | the first pass finds the first self-move, repeated source or repeated target, or collects the moves by both ends |
| MovedValidation.Visit | internal/core/parser/moved.go:120-138 | the coloured visit reports a name that lies on a cycle, or finishes the name after all it leads to |
| MovedChains.WalkChain | internal/core/merge/compile.go:454-464 | the walk from a head ends, with the head's one maximal chain |
| MovedChains.PathDistinct | internal/core/merge/compile.go:454-464 | no chain meets itself |
| MovedChains.ChainsDisjoint | internal/core/merge/compile.go:453-464 | two chains that share a name are the same chain |
| MovedChains.MoveInOneChain | internal/core/merge/compile.go:438-464 | every validated move is one step of exactly one head's chain, at exactly one place |
| MovedChains.CompileMovedSpecs | internal/core/merge/compile.go:433-498 | the result is that of the chains of all heads in sorted order: the moves before each one mounted node, or the names of the first chain with several |
| MovedTheorems.AmbiguousExactly | internal/core/merge/compile.go:466-482 | compiling fails exactly when one mounted component leads, through moves, to another |
| MovedTheorems.AmbiguousNames | internal/core/merge/compile.go:475-482 | the names in the error are all the mounted components of one chain, in the order of its moves |
| MovedTheorems.EmittedExactly | internal/core/merge/compile.go:466-492 | a move is emitted exactly when its target is, or leads to, a mounted component |
| MovedTheorems.EmissionCollapses | internal/core/engine/moved.go:153-164 | the emitted moves are in chain order, and their lineage has one entry a chain, from its mounted end to its start |
| MovedTheorems.EmissionOrderable | internal/core/state/moved.go:136-216 | what a host compiles from component names is never refused when it is resolved: the roots lie apart and the moves can be ordered |
| StateMoves.MoveRoot | internal/core/state/moved.go:82-97 | unless a target sets only one of its two digests, and then the first such address is named, every address and dependency under the root is rebased, digests are retargeted, nothing else changes, and the single moves are listed in address order |
| StateMoves.MovedRecord | internal/core/state/moved.go:82-97 | a moved record keeps everything but its dependencies, which are rebased and sorted, and its desired digest, which is exchanged for the target's just when it is the one that the target replaces |
| StateMoves.RebaseExactly | internal/core/state/moved.go:335-348 | an address lies under a root when it is the root, or the root, a dot and more; rebasing exchanges the root and nothing else |
| StateMoves.MoveKeepsGood | internal/core/state/moved.go:350-362 | moving a root to where nothing is tracked keeps a good state good |
| MoveLineage.CollapseMoves | internal/core/engine/moved.go:153-164 | the loop computes the lineage |
| MoveLineage.LineageCollapses | internal/core/engine/moved.go:153-164 | for moves in chain order the lineage maps exactly the final targets one-to-one to exactly the original sources, each along moves |
| MoveLineage.RealizedInChainOrder | internal/core/state/moved.go:84-96 | the realized moves of a resolution are in chain order |
| MoveLineage.LineageSpansResolution | internal/core/engine/moved.go:91-98 | each lineage entry leads from an address tracked after the resolution to the one address it had before |
| MoveOrder.RootsDisjoint | internal/core/state/moved.go:368-411 | no address lies under two component roots of a host |
| MoveOrder.NameExactly | internal/core/state/moved.go:368-411 | a component root of a host is the host's component prefix and a name of letters, digits and underscores that does not start with a digit |
| MoveOrder.OffenceIsReal | internal/core/state/moved.go:144-171 | a move that the screening refuses breaks the rules, and the refusal for overlapping roots is never given |
| MoveOrder.DepthOf | internal/core/state/moved.go:173-198 | the memoised search finds how many moves lead on from a source, or a source that leads back to itself |
| MoveOrder.ValidateAndOrderMoves | internal/core/state/moved.go:136-216 | succeeds exactly for moves between different component roots with distinct sources, distinct targets and no cycle; the result holds the same moves by falling length of the chain ahead, which is chain order; every error is the first offence in name order or a root on a cycle |
| MoveOrder.DepthOrderMeans | internal/core/state/moved.go:207-215 | a move with more moves ahead of it comes first, and equal ones go by source |
| MoveOrder.NameOrderMeans | internal/core/state/moved.go:137-143 | the moves are checked by source, and then by target |
| MoveOrder.DepthOrderUnique | internal/core/state/moved.go:207-215 | the same moves have one such order |
| MoveOrder.FinalMoveTargets | internal/core/state/moved.go:218-236 | every source is mapped to the end of its chain |
| ComponentNames.RootOfIs | internal/core/state/moved.go:380-394 | the root read off an address is the one component root that the address lies under |
| ComponentNames.BindComponentIdentities | internal/core/state/moved.go:238-277 | every desired root is bound to its physical name, exactly when all desired roots are component roots and no two active roots share a physical name; an error names a root that is none, or two that share |
| MoveResolution.CarryOut | internal/core/state/moved.go:46-106 | a move is passed when not both of its roots are tracked and, if its source is, exactly one of the source and the end of its chain is desired; the state moves exactly when that is the chain's end; each of the four errors comes under its own condition at the first move that cannot be passed; the realized moves are those of the single addresses under a moved source, and the recorded names follow |
| MoveResolution.ResolveMoves | internal/core/state/moved.go:33-114 | the declared moves are ordered, passed or refused along a path of states as above, pruned and bound; it fails to order exactly when they cannot be ordered, and otherwise stops at the move that the error names, under that error's condition, or because the physical names cannot be bound |
| MoveResolution.ResolutionSpans | internal/core/engine/moved.go:91-98 | whatever was declared, the realized moves of a resolution are in chain order and their lineage leads from each address tracked afterwards to the one address it had before |
| MoveResolution.PhysicalNamesKept | internal/core/state/moved.go:81-106 | a component tracked after a resolution has the physical name that the root it came from had before |
| MoveResolution.NamesAreTidy | internal/core/state/moved.go:99-108 | names stay recorded only of tracked roots, and none that equals the name the root would have anyway |
| MoveResolution.RebasingChangesNothing | internal/core/engine/moved.go:41-48 | resolving again with other target digests gives the same moves, names and bindings |
| MoveResolution.ResolvedAgain | internal/core/state/moved.go:46-114 | resolving the same moves against any state with the addresses that a resolution left moves nothing, never stops at a move and keeps the names |
| LeaseLock.LockDirectory.Acquire | internal/core/backend/lock.go:285-306 | a granted token owns the lock, created now, at exactly the moments before its expiry; a lock that anyone owns at the captured time or later is refused and left alone; it is granted exactly when there is no lock, or its expiry, or without one its creation time plus the lifetime asked for, is not after the captured time |
| LeaseLock.LockDirectory.Renew | internal/core/backend/lock.go:308-321 | granted exactly to the owner at the captured time, who then owns the lock until the new expiry; otherwise nothing changes, and nobody else's ownership ever does |
| LeaseLock.LockDirectory.Release | internal/core/backend/lock.go:323-333 | granted exactly to the owner at the captured time; the lock is gone exactly after a grant or when it was missing, and nobody else's ownership changes |
| LeaseLock.Lease.Renew | internal/core/backend/lock.go:127-156 | the lease's own expiry moves exactly when the host granted the renewal and the reply came back |
| LeaseLock.Lease.Release | internal/core/backend/lock.go:158-185 | the flag is set exactly when the reply says released or missing; releasing twice does nothing |
| LeaseLock.TryAcquire | internal/core/backend/lock.go:209-231 | one attempt: none when the command fails, and otherwise whether the lock it finds is free or over at the time the command was built; a granted lock is owned until the expiry that was sent, however late the reply |
| LeaseLock.AcquireLoop | internal/core/backend/lock.go:62-84 | the retry loop ends within ceil(timeout / poll) + 1 attempts, at the first attempt that is granted, fails, meets the deadline or is followed by a cancelled wait, each exactly then; the lease that is returned expires ttl after its command was built, exactly when the lock directory says so |
| LeaseLock.CeilDivIsCeiling | internal/core/backend/lock.go:76-79 | the bound on attempts is the quotient rounded up |
| LeaseProtocol.GuardSurvives | internal/core/backend/lock.go:285-333 | a script that arrives late never takes the lock from a token whose view is unexpired in whole seconds |
| LeaseProtocol.RunInv | internal/core/backend/lock.go:44-185 | every event keeps the invariant that ties clients, commands, replies and the lock directory together |
| LeaseProtocol.MutualExclusion | internal/core/backend/lock.go:44-185 | over every interleaving of delayed commands, lost commands and replies, and crashes, at most one lease that no release has ended is unexpired in whole seconds, whether its holder works, has crashed or has given up, and the lock directory names it |
| LeaseProtocol.OverlapUnderOneSecond | internal/core/backend/lock.go:127-185 | in nanoseconds, two such leases overlap by less than one second: the one that the lock directory does not name is in its last |
| LeaseProtocol.SetFlagIsTrue | internal/core/backend/lock.go:158-185 | a lease whose released flag is set is over |
| LeaseProtocol.ClearFlagsOverlapAfterRelease | internal/core/backend/lock.go:158-185 | of two unexpired leases with clear flags, the release of one has removed the lock |
| LeaseProtocol.ReleasedFlagLags | internal/core/backend/lock.go:158-185 | a run after which two leases are unexpired and both flags are clear |
| LeaseExchange.AcquireExchange | internal/core/backend/lock.go:62-75 | one exchange, however slow: the lock is granted exactly when it was free or over at the moment the command was built, and then the directory and the client name the same expiry, ttl after that moment |
| LeaseExchange.RenewExchange | internal/core/backend/lock.go:127-156 | exactly the owner at the moment the command was built is extended to ttl after that moment, in the directory and in its own view; anyone else changes nothing and stops renewing |
| LeaseExchange.ReleaseExchange | internal/core/backend/lock.go:158-185 | exactly the owner removes the lock, and the flag is set when it did or when there was no lock |
| LeaseExchange.SurroundingsMay | internal/core/backend/lock.go:44-185 | time may pass, commands arrive or get lost, answers stay out and clients crash at any moment |
| WorkerPool.EachIndexOnce | internal/core/engine/engine.go:998-1006 | under every schedule each index is handed out at most once, in order, and only asked-for indices return |
| WorkerPool.AtMostParallel | internal/core/engine/engine.go:980-997 | never more calls are under way than workers were asked for, nor than there are indices |
| WorkerPool.FullyParallel | internal/core/engine/engine.go:980-1006 | the bound is reached: as many calls can be under way as workers were asked for, or as there are indices |
| WorkerPool.SuccessMeansAllSucceeded | internal/core/engine/engine.go:1007-1012 | the result is nil exactly when every index returned nil and the context is alive, or there was nothing to do |
| WorkerPool.FailureIsReported | internal/core/engine/engine.go:986-1011 | the result is a work error exactly when some call failed, and it is an error some call returned |
| WorkerPool.FirstReportWins | internal/core/engine/engine.go:980-1012 | the first error that is reported is the result, whatever happens afterwards |
| WorkerPool.StuckOnlyWithoutWorkers | internal/core/engine/engine.go:971-1012 | a deadlock is reachable exactly with work, no worker and a live context |
| WorkerPool.EngineNeverStuck | internal/core/engine/engine.go:957-969 | with the engine's worker count, which is the override, or else the configured one, or else one, no deadlock is reachable |
| WorkerPool.SchedulesEnd | internal/core/engine/engine.go:971-1012 | every schedule ends within four events an index and three more |
| ShellQuoting.ReadQuoted | internal/core/backend/ssh.go:120-122 | a quoted value is read back as the value, exactly when it holds no NUL |
| ShellQuoting.RemoteCommand | internal/core/backend/ssh.go:72-102 | a blank script and a NUL in an argument are refused, in that order; otherwise the command line is assembled |
| ShellQuoting.RemoteCommandReadsBack | internal/core/backend/ssh.go:95-102 | the remote shell sees exactly sh, -c, the script and, when there are arguments, alpineform and the arguments, just when the script holds no NUL |
| ShellQuoting.CommandsDiffer | internal/core/backend/ssh.go:95-102 | no two different calls are sent as the same command line |
| OpenRCScript.RenderInit | internal/core/merge/openrc.go:121-165 | the script is the text of its declarations, line by line |
| OpenRCScript.InitScriptReadsBack | internal/core/merge/openrc.go:121-165 | a shell reads exactly the service's own settings and, in their five kinds, its dependencies, whatever the values contain |
| OpenRCScript.CommandArgsReadBack | internal/core/merge/openrc.go:128-134 | the argument list survives both levels of quoting |
| Nftables.ValidateTableBody | internal/core/merge/nftables.go:155-253 | the look-ahead loop decides what a one-byte state machine and a judgement of its tokens decide, with the same first error |
| NftablesLexing.VerdictExactly | internal/core/merge/nftables.go:155-253 | a body is accepted exactly when it holds no NUL, closes no more than it opened, names no include or table, no ruleset command at its own level, leaves no comment or string open and matches its braces; otherwise the error is that of the first token that offends, or, if none does, of what is left open |
| NftablesLexing.WordIsOneToken | internal/core/merge/nftables.go:224-229 | a word of letters, digits, underscores and hyphens is one token, exactly when the next byte cannot continue it |
| NftablesLexing.StringIsNothing | internal/core/merge/nftables.go:176-192 | a string ends at its first quotation mark that no backslash takes along, and hides everything in it |
| NftablesLexing.BlockCommentIsNothing | internal/core/merge/nftables.go:168-175 | a block comment ends at its first closing mark, and hides everything in it |
| NftablesLexing.LineCommentIsNothing | internal/core/merge/nftables.go:162-167 | a line comment ends with its line, and hides everything in it |
| NftablesLexing.OtherBytes | internal/core/merge/nftables.go:209-243 | of all other bytes, braces and NUL are tokens of their own, and the rest is passed over |
| NftablesLexing.LowerIs | internal/core/merge/nftables.go:229 | words are compared without regard to the case of ASCII letters |
| NftablesPersistence.RenderedReadsAsTable | internal/core/graph/nftables.go:188-193 | the rendered file reads as one table heading, the body's own tokens and one closing brace, in spite of trimmed newlines and inserted tabs |
| NftablesPersistence.RenderedText | internal/core/graph/nftables.go:188-193 | the file is the notice, the heading of the table, the indented body after a tab, and the closing brace on a line of its own |
| NftablesPersistence.IndentLines | internal/core/graph/nftables.go:189-190 | every line after the first is indented by one tab, and nothing else changes |
| NftablesPersistence.TrimmedExactly | internal/core/graph/nftables.go:189 | all newlines at the end of the body are taken off, and nothing else |
| NftablesPersistence.WrapperHoldsIff | internal/core/graph/nftables.go:188-193 | the file stays inside the wrapper until its last brace exactly for bodies whose braces match without escaping and that leave no comment or string open |
| NftablesPersistence.AcceptedStaysInside | internal/core/merge/nftables.go:155-253 | every accepted body keeps the depth at one or more from the opening brace to the last brace |
| NftablesPersistence.AcceptedHoldsNoDirective | internal/core/merge/nftables.go:224-240 | the file of an accepted body has one table heading, no include or further table, and at the table's own level none of the twelve commands that change or read the ruleset |
| SetNormalForm.NormalFormFacts | internal/core/parser/variable.go:274-288 | a set's items have strictly rising keys, keep every key, and of each key keep the first item |
| SetNormalForm.NormalFormKeys | internal/core/parser/variable.go:274-288 | the keys are the sorted keys of the items, whatever their order and repetition |
| SetNormalForm.DedupeInPlace | internal/core/parser/variable.go:278-287 | the in-place loop keeps, at the front, each item whose key differs from its predecessor's |
| SetNormalForm.SortAndDedupe | internal/core/parser/variable.go:265-289 | sorting and removing repeats give the normal form |
| TypedValues.AcceptedExactly | internal/core/parser/variable.go:238-361 | normalisation succeeds exactly for acceptable values: right kinds throughout, known attributes, and a value, default or optional mark for each |
| TypedValues.OutputConforms | internal/core/parser/variable.go:238-361 | a result conforms to its type, with null allowed anywhere |
| TypedValues.FixedPointsConform | internal/core/parser/variable.go:238-361 | the values left unchanged are exactly the conforming ones |
| TypedValues.NormalizeIdempotent | internal/core/parser/variable.go:238-361 | normalising twice is normalising once |
| TypedValues.SetIgnoresOrder | internal/core/parser/variable.go:265-289 | reordering or repeating a set's items changes neither acceptance nor the key sequence |
| TypedValues.SetKeepsFirst | internal/core/parser/variable.go:265-289 | of the items that share a key, a set keeps the first |
| ValueParts.ResultParts | internal/core/parser/variable.go:238-361 | a result is put together from the normalised parts of the value: items and entries in their places, of each set key the first item, and of each attribute the given value, or else the default, or else null; the marks stay |
| ValueParts.ErrorsAreFaults | internal/core/parser/variable.go:238-361 | an error names the first thing wrong: the place leads to a value of the wrong kind or length, to unknown attributes, or to an attribute without value, default or optional mark, and everything before it is acceptable |
| ValueKeys.SharesKeyExactly | internal/core/parser/value.go:125-131 | for an encoding that tells canonical values apart, two values share a key exactly when they differ in no more than marks and numbers written as the text of their digits |
| ValueKeys.KeysTellApartExactly | internal/core/parser/value.go:168-197 | keys tell the values of a type apart, up to marks, exactly when no part of the type is any |
| ValueKeys.SetLosesOnlyMarks | internal/core/parser/variable.go:274-288 | a set over a type without any keeps every item, up to marks |
| NormalizeValue.NormalizeValueForType | internal/core/parser/variable.go:238-361 | the loops over items, sorted keys and attributes succeed exactly for acceptable values, with the result put together from the parts as above, and otherwise report the first fault with the place it is in; of several unknown attributes any one may be reported |

## Left out

- Configuration parsing and expression evaluation, templates, provider scripts, SSH process execution, and all output.
- Execution.BuildResource: the observed and desired maps, ownership, fingerprints, summaries and facts copied into the state are not modelled, because no decision of the engine reads them.
- Remoting.Remote.Migrate: `MigrateProtectedPrior` may fail but changes no object that a node's own address stands for, because it cleans up an identity recorded for an earlier configuration.
- Execution.ExecuteHost: the marks Protected, Sensitive and Ephemeral of a tracked resource are one mark, their disjunction, which is all the engine asks of them.
- PlanHosting.PlanHost: the fingerprint of a finished plan is not modelled, nor are its summaries.
- Remoting.Remote.Apply: the engine's marker on an nftables table is one bit of what an inspection sees; a successful Apply sets it, a successful Delete removes it with the table, and a failed call may leave either.
- MoveResolution.ResolveMoves: the state comes normalised, and buildMoveTargets and the compilation of nodes under legacy names, which supply the targets, are not modelled.
- MoveLineage.RealizedInChainOrder: chain order and roots apart are required here; MoveResolution.ResolutionSpans proves both of every resolution.
- MovedValidation.ValidateAndSortMoved: the texts of the errors, and the positions inside them, are not modelled beyond the file and line that order the moves.
- MovedChains.CompileMovedSpecs: the source references copied into each compiled move are not modelled.
- LeaseLock.AcquireLoop: the checks of the host name, the timeout's sign and the token before the loop are not modelled.
- LeaseProtocol.MutualExclusion: nothing is claimed when the three scripts interleave inside each other, because they check first and act afterwards.
- OpenRCScript.InitScriptReadsBack: the shell is assumed to execute the assignments it reads; command substitution, parameter expansion and backslashes outside quotation are not part of the reader, which stops at them.
- NftablesPersistence.AcceptedStaysInside: the lexical rules are those of the validator; what nft itself does with the tokens is not modelled.
- NormalizeValue.NormalizeValueForType: the variable's name and the source positions in errors are not modelled.
- TypedValues.NormalizeIdempotent: the encoding of a canonical value as JSON text is a parameter of which nothing is assumed.
- ValueKeys.SharesKeyExactly: that the encoding tells canonical values apart is required here; JSON text does so for values whose strings are valid UTF-8.
- The address builders, dependency selection and summaries of the graph compiler, profile overlays, and redaction: field copying and one-branch facts.
