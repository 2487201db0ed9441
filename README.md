# Pulse startup scheduler, modelled in Dafny

Pulse starts a game's systems in dependency order. Each system is registered
with an `InitializationContextBuilder`. Registration wraps the system in an
`InitializationNode`, which records:

- the dependency types the system declares;
- whether the system is critical;
- the start and complete callbacks.

`Build` resolves every dependency type to the first registered system
assignable to it. It then runs a level-synchronous topological sort: the
whole ready queue becomes one batch per round. It fails on a dependency that
matches nothing and on a cycle.

The resulting `InitializationContext` runs the batches in order. Every node
fires its start callbacks, initialises its system and fires its complete
callbacks. After each batch the context checks for cancellation. Unless
cancellation was requested, it strikes the batch's critical nodes out of its
critical set. When that set empties, it raises "critical systems initialized".

The model has seven modules:

- `Common`: result wrappers, error kinds, the event trace, counting helpers.
- `Levels`: the level structure a dependency graph induces, stated without
  any queue. Layer k is what becomes ready after k rounds. It also holds what
  a complete batch plan is, and what a self-blocking (cyclic) set is.
- `Planner`: the imperative planner over registration indices. It covers
  resolution, the in-degree and adjacency tables, the ready queue drained
  round by round, and the cycle check. Each step is proved against `Levels`.
- `NodeModel`: the node as a class, with the pure functions that specify its
  dependency set and the events it fires.
- `RunModel`: one run of the context as a value (`RunUpTo`, `Run`), and what
  is proved about it.
- `ContextModel`: the context as a class. `InitializationAsync` is proved
  equal to `Run` over the nodes' state when the run begins.
- `BuilderModel`: the builder as a class. `Build` locks every node, plans,
  rebuilds the critical set and hands a context its batches.

System types are an abstract type `T`. The .NET relation "`dep` is assignable
from `t`" is a parameter `assignable(dep, t)`. "Is an `IInitializable`
system" is a parameter `initializable(t)`. Callbacks are opaque ids.

## Model

| member | source | states |
|---|---|---|
| Levels.LayersDisjoint | Runtime/InitializationContextBuilder.cs:71-92 | A node placed in one round is never placed in a later round |
| Levels.DependencyInEarlierLayer | Runtime/InitializationContextBuilder.cs:76-89 | Every dependency of a node in layer k lies in a strictly earlier layer |
| Levels.LayerIsMinimal | Runtime/InitializationContextBuilder.cs:80-87 | A node in layer k > 0 has a dependency in layer k-1, so it could not have been placed earlier: it is enqueued when its last dependency drains |
| Levels.FirstLayer | Runtime/InitializationContextBuilder.cs:69 | The first layer is exactly the nodes with no dependency entries |
| Levels.EmptyLayerIsFinal | Runtime/InitializationContextBuilder.cs:71 | Once a round finds nothing ready, no later round places anything |
| Levels.LeftoverBlocks | Runtime/InitializationContextBuilder.cs:94-97 | When the rounds run out, the nodes never placed form a non-empty set each of whose members waits on another member |
| Levels.BlockedNeverDone | Runtime/InitializationContextBuilder.cs:94-97 | No member of a self-blocking set is ever placed, after any number of rounds |
| Levels.BlockingExcludesPlan | Runtime/InitializationContextBuilder.cs:94-98 | While some set of nodes blocks itself, no complete batch plan exists |
| Levels.PlanPlacesEveryNode | Runtime/InitializationContextBuilder.cs:94-100 | A complete plan places every registered node in some batch |
| Levels.PlanIsDistinct | Runtime/InitializationContextBuilder.cs:76-91 | A complete plan places no node twice, within a batch or across batches |
| Levels.PlanOrdersDependencies | Tests/InitializationContextBuilderTests.cs:76-85 | Every node a batched node depends on sits in a strictly earlier batch |
| Planner.FirstMatch | Runtime/InitializationContextBuilder.cs:49 | Finds the first registered type the dependency is assignable from; none earlier matches, and no match means none at all |
| Planner.ResolveDependencies | Runtime/InitializationContextBuilder.cs:35-61 | Fails exactly when some entry matches nothing, naming the first such entry. Otherwise it yields one adjacency edge per entry to the first match, and each in-degree equals the node's number of entries |
| Planner.ResolveEntries | Runtime/InitializationContextBuilder.cs:47-60 | For one node, each entry adds that node once to its first match's adjacency list; it stops at the first unmatched entry, all earlier entries having matched |
| Planner.ZeroInDegree | Runtime/InitializationContextBuilder.cs:69 | The initial queue holds, without repetition, exactly the nodes of in-degree zero |
| Planner.ReleaseDependents | Runtime/InitializationContextBuilder.cs:80-88 | Each dependent's in-degree drops by its number of edges from the drained node; exactly the dependents that reach zero are enqueued, once each, behind the old queue |
| Planner.DrainBatch | Runtime/InitializationContextBuilder.cs:73-91 | A round dequeues the whole queue as one batch. In-degrees then count only undrained dependencies, and the new queue is exactly the nodes whose count just reached zero |
| Planner.DrainLayers | Runtime/InitializationContextBuilder.cs:71-92 | The rounds emit layers 0, 1, … in order, each non-empty and without repetition, until a layer is empty. A final in-degree is zero exactly for the placed nodes |
| Planner.RoundAdvances | Runtime/InitializationContextBuilder.cs:71-92 | After a round the drained nodes are the first k+1 layers, the queue is layer k+1, and the set of unplaced nodes strictly shrinks |
| Planner.BuildBatches | Runtime/InitializationContextBuilder.cs:30-101 | Fails unresolved exactly when some dependency matches nothing, naming the first offending entry. Otherwise it returns a complete plan of minimal levels, or fails cyclic naming exactly the never-placed nodes, which form a self-blocking set |
| NodeModel.Insert | Runtime/InitializationNode.cs:51 | Inserting into the dependency set adds the type once; a type already present changes nothing |
| NodeModel.FirstRejected | Runtime/InitializationNode.cs:44-49 | Locates the first type that is not an initializable system; every earlier type is one |
| NodeModel.Declare | Runtime/InitializationNode.cs:37-55 | Adding dependencies keeps the set free of repeats and keeps earlier entries in place |
| NodeModel.DeclareOutcome | Runtime/InitializationNode.cs:44-54 | The call fails, naming the type, exactly at the first type that is not an initializable system, and succeeds otherwise |
| NodeModel.DeclareInserts | Runtime/InitializationNode.cs:44-52 | Exactly the types before the first rejected one are added, so a failing call keeps its earlier types |
| NodeModel.DeclareIdempotent | Runtime/InitializationNode.cs:44-52 | Declaring types already present leaves the set unchanged |
| NodeModel.WithoutRemoved | Tests/InitializationContextBuilderTests.cs:169-195 | Removing by type drops exactly the declared types assignable to a removed type, the exact type or one deriving from it, and keeps all others |
| NodeModel.RemovalsAccumulate | Tests/InitializationContextBuilderTests.cs:197-210 | Two successive removals remove what one removal of both lists does |
| NodeModel.RemovalIdempotent | Runtime/IInitializationNodeHandle.cs:12 | Removing the same types twice equals removing them once |
| NodeModel.NodeEvents | Runtime/InitializationNode.cs:80-87 | A node's trace is every start callback in registration order, then the system's initialisation, then every complete callback in registration order |
| NodeModel.NodeEventsAbout | Runtime/InitializationNode.cs:82-84 | Every callback a node fires receives that node's own system type |
| NodeModel.Node.constructor | Runtime/InitializationNode.cs:23-29 | A new node records its system's type; it is not critical or processed, and has no dependencies and no callbacks |
| NodeModel.Node.AddDependencies | Runtime/InitializationNode.cs:37-55 | On a processed node it fails and leaves the set alone; otherwise its new set and outcome are those of `Declare` |
| NodeModel.Node.AddDependency | Runtime/InitializationNode.cs:31-35 | The single-type form, whose type is an initializable system by its generic constraint: it fails once processed and otherwise inserts the type |
| NodeModel.Node.SetCritical | Runtime/InitializationNode.cs:57-66 | Fails and changes nothing once processed; otherwise the node becomes critical, so repeating the call is harmless |
| NodeModel.Node.OnStartInitialize | Runtime/InitializationNode.cs:68-72 | Appends the callback whatever the lock says |
| NodeModel.Node.OnCompleteInitialize | Runtime/InitializationNode.cs:74-78 | Appends the callback whatever the lock says |
| NodeModel.Node.InitializeAsync | Runtime/InitializationNode.cs:80-87 | Fires the node's trace, then clears both lists, so a second call fires no callback, only the system's initialisation |
| NodeModel.Node.SetProcessed | Runtime/InitializationNode.cs:89 | The node is locked afterwards |
| RunModel.BatchEvents | Runtime/InitializationContext.cs:24-28 | Every node of the batch initialises, and a batch never raises the critical event |
| RunModel.BatchEventsBlocks | Runtime/InitializationContext.cs:26-28 | A batch's events are its nodes' traces, one contiguous block per node, in batch order |
| RunModel.NodeBlockInBatch | Runtime/InitializationContext.cs:26-28 | Within a batch's events, each node's whole trace sits unchanged right after the traces of the nodes before it in the batch |
| RunModel.FiredMeansReached | Runtime/InitializationContext.cs:24-32 | Batch m fires exactly when the run has not stopped before reaching it |
| RunModel.NodeFiresInPlace | Tests/InitializationContextBuilderTests.cs:135-166 | In a run, each node of a fired batch has its whole trace at its offset: each start callback with that node's type, then its initialisation, then each complete callback with that node's type |
| RunModel.BlocksInOrder | Runtime/InitializationContext.cs:24-28 | A node's block ends before the block of any later node of its batch or of any later batch begins, so every complete callback of batch m precedes every start callback of batch m+1 |
| RunModel.RemoveCritical | Runtime/InitializationContext.cs:41-60 | A non-critical node changes nothing. A critical node missing from the set is an error. Otherwise exactly that node leaves the set, and the event is due exactly when a non-empty set becomes empty |
| RunModel.Sweep | Runtime/InitializationContext.cs:34-37 | The removal pass only shrinks the critical set and only extends the trace; a stopped run is left as it is |
| RunModel.RunUpTo | Runtime/InitializationContext.cs:22-39 | The critical set never exceeds the initial one, and a run that has not stopped has fired exactly k batches |
| RunModel.CriticalShrinks | Runtime/InitializationContext.cs:34-37 | The critical set only shrinks from batch to batch: after j batches it is within the set after any k <= j |
| RunModel.ReadyFiresOnce | Runtime/InitializationContext.cs:54-59 | The critical event has fired once if a non-empty critical set has been emptied, and never otherwise; so never without critical nodes |
| RunModel.StopIsFinal | Runtime/InitializationContext.cs:29-32 | After a cancellation or a fault no later batch fires and nothing further happens |
| RunModel.CancelStops | Runtime/InitializationContext.cs:29-32 | Cancellation after batch k ends the run with batch k fired in full and none of its critical nodes struck out |
| RunModel.ReadyOnlyAfterCriticals | Tests/InitializationContextBuilderTests.cs:105-132 | Wherever the critical event occurs, every node of the initial critical set has initialised earlier in the trace |
| RunModel.TraceGrows | Runtime/InitializationContext.cs:22-39 | The trace of a run only grows from batch to batch |
| RunModel.FiredInitialized | Runtime/InitializationContext.cs:24-28 | Every system of every batch that fired has initialised |
| RunModel.BatchFollowsEarlierBatches | Runtime/InitializationContext.cs:24-28 | A batch's events follow directly on the trace of the earlier batches |
| RunModel.EarlierBatchesInitialized | Runtime/InitializationContext.cs:24-28 | Before batch k fires, every system of every earlier batch has initialised |
| RunModel.SweepClean | Runtime/InitializationContext.cs:41-59 | When every flagged node of a batch is still in the set, the removal pass does not fault and strikes out exactly those nodes |
| RunModel.PlannedRunUpTo | Runtime/InitializationContext.cs:34-37 | If the critical set is what the batches flag and no node repeats, no prefix of the run faults, and the set left is what the remaining batches flag |
| RunModel.PlannedRunCompletes | Runtime/InitializationContext.cs:22-39 | Such a run never faults; unless cancelled it empties the critical set and raises the event exactly once if there was a critical node |
| ContextModel.Context.constructor | Runtime/InitializationContext.cs:16-20 | The context keeps the batches and its own copy of the critical set |
| ContextModel.Context.RemoveCriticalSystem | Runtime/InitializationContext.cs:41-60 | The new critical set and the result (error, no event, event) are those of `RemoveCritical` |
| ContextModel.Context.FireBatch | Runtime/InitializationContext.cs:26-28 | Runs each node of the batch once; the trace is `BatchEvents`, each node has released its callbacks, and no other state changes |
| ContextModel.Context.StrikeBatch | Runtime/InitializationContext.cs:34-37 | The removal loop, with its early stop at a fault, reaches the state `Sweep` specifies |
| ContextModel.Context.InitializationAsync | Runtime/InitializationContext.cs:22-39 | The trace, the outcome and the remaining critical set are those of `Run`. Nodes of fired batches have released their callbacks; no other node changes |
| ContextModel.Context.Advance | Runtime/InitializationContext.cs:24-37 | One loop iteration takes the state from `RunUpTo` k to `RunUpTo` k+1 |
| ContextModel.Context.RunBatch | Runtime/InitializationContext.cs:24-37 | Fires batch k, appending `BatchEvents`, then stops on cancellation or runs the removal pass `Sweep` |
| BuilderModel.AsWrittenRegistersTypeTwice | Runtime/InitializationContextBuilder.cs:14-15 | The guard as written admits a second node of an already registered type |
| BuilderModel.Register | Tests/InitializationTests.cs:12-24 | Registration refuses a type already registered, naming it, and otherwise adds it; registered types stay distinct |
| BuilderModel.LiftFlagged | Runtime/InitializationContextBuilder.cs:63-66 | Over a complete plan, the nodes the batches flag critical are exactly the registered nodes flagged critical |
| BuilderModel.DependencyRunsFirst | Tests/InitializationContextBuilderTests.cs:76-85 | In a run of a built context, every dependency of a batch's node has initialised before that batch's first event |
| BuilderModel.Builder.constructor | Runtime/InitializationContextBuilder.cs:9-10 | A new builder has no nodes and an empty critical set |
| BuilderModel.Builder.AddSystem | Runtime/InitializationContextBuilder.cs:12-22 | A duplicate type fails, naming it, and changes nothing. Otherwise one fresh node is appended, with its declared dependencies added as `Declare` says; the node is returned unless a dependency type was rejected |
| BuilderModel.Builder.Enrol | Runtime/InitializationContextBuilder.cs:14-15 | Appends one fresh, unlocked node for a new type |
| BuilderModel.Builder.Build | Runtime/InitializationContextBuilder.cs:24-101 | Locks every node and changes nothing else about them. It fails unresolved exactly when a dependency matches nothing, with the critical set holding the critical nodes seen so far. It fails cyclic naming the types of exactly the never-placed nodes. Otherwise the context gets a complete plan and exactly the critical nodes |
| BuilderModel.Builder.Settle | Runtime/InitializationContextBuilder.cs:33-67 | The critical set is cleared and refilled while dependencies resolve, so it holds the critical nodes before a failing node, or all of them |
| BuilderModel.Builder.Lock | Runtime/InitializationNode.cs:89 | Every registered node becomes processed; types and declared dependencies are read off unchanged |
| BuilderModel.Builder.Assemble | Runtime/InitializationContextBuilder.cs:27 | The context's batches are the plan's nodes with no node twice, and its critical set is what those batches flag |
| BuilderModel.Builder.ContextFlagged | Runtime/InitializationContextBuilder.cs:63-66 | The builder's critical set equals the nodes the context's batches flag critical |

## Left out

- Concurrency. `Task.WhenAll` starts a batch's nodes concurrently (Runtime/InitializationContext.cs:26-28). The model runs a batch's nodes one after another, in batch order, so every node's events are contiguous. Interleavings within a batch are not modelled; the order between batches is.
- Failures inside a system's own `InitializeAsync`: not modelled. The system's initialisation is one `Initialized` event. The one exception the context itself throws, a critical node missing from the critical set, ends the run as the status `Faulted`.
- `CancellationToken` is a sequence of booleans: entry k says whether cancellation is observed after batch k.
- `IsAssignableFrom` and the `IInitializable` check are parameters (`assignable`, `initializable`), not the .NET type hierarchy.
- The dependency scan over fields, properties, methods and constructors is given to `AddSystem` as its `declared` argument. Runtime/InitializationUtilities.cs is not part of this model.
- C# events and delegates are opaque callback ids. Firing a callback is an event in the trace.
- Exception messages: only the error kind and the types it names are kept.
- The null check of the node constructor (`ArgumentNullException`) is not modelled: a Dafny value is never null.
- `ContextModel.Context.RemoveCriticalSystem`: the thrown exception becomes the result `None`, and the event becomes the result `Some(true)`.
- `ContextModel.Context.constructor` requires that no node occurs twice across the batches. The source does not demand this, but every context `Build` makes meets it.
- The sources are from mixed revisions:
  - `Build` passes three arguments (Runtime/InitializationContextBuilder.cs:27), but the context constructor takes two (Runtime/InitializationContext.cs:16). The model passes the batches and the critical set.
  - The builder calls `node.GetDependencies()` (Runtime/InitializationContextBuilder.cs:46), but the node exposes `Dependencies` (Runtime/InitializationNode.cs:19). The model reads the node's dependency set.
  - The handle interface declares `RemoveDependency`, `RemoveDependencies` and `SetAsCritical` (Runtime/IInitializationNodeHandle.cs:11-13), but the node does not implement them. Removal is modelled as the pure function `WithoutRemoved`, after the tests; `SetAsCritical` is taken to be `SetCritical`.
  - `SetProcessed` (Runtime/InitializationNode.cs:89) is never called by the builder shown. The model's `Build` calls it on every node first, as the messages at Runtime/InitializationNode.cs:41 and 61 imply. So after a build, adding dependencies or setting criticality fails.
- Hash-set iteration order: the builder's node set is a sequence in registration order, and the node's dependency set is a sequence in insertion order. The first match at Runtime/InitializationContextBuilder.cs:49 is taken in that order.
- The benchmark and fixture files under Tests/ are not part of this model.

## Findings

| source | as written | input that shows it | evidently intended | confidence | as-written member | corrected member |
|---|---|---|---|---|---|---|
| Runtime/InitializationContextBuilder.cs:14-15 | `AddSystem` builds a fresh node and adds it to a set of nodes compared by reference, so the guard always passes | two systems of one type, e.g. two `SimpleSystem` instances, registered in turn | the second registration fails with an error naming the type (Tests/InitializationTests.cs:12-24) | not executed | BuilderModel.AsWrittenRegistersTypeTwice | BuilderModel.Register |
