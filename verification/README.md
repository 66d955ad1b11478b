# Dynamic bearing capacity of an attraction, in Dafny

This project models the fill simulation that estimates how many visitors an attraction can hold
minute by minute (its *dynamic bearing capacity*), together with the venue graph the simulation
runs on, and proves what the simulation and the graph code promise.

**The venue graph.** This part models `dynamicBearing/feature.py`.
- A venue is a set of features: roads (lines) and areas (polygons).
- Each feature has a static bearing capacity `sb` and a dict of the features it touches.
- The model keeps the features in an arena, `Graph.Cells`, a map from id to `Cell`.
- A cell lists its neighbours by id, in the insertion order of the source's dict.
- The geometric intersects-or-touches test is an oracle `touches` on ids.

The graph operations:
- `Connectivity.Arena.CheckConnectivity` links features in both directions.
- `Graph.CheckNestedIsolation` detects an entrance that is walled in with a single partner.
- `Reachability.GetAllConnectedFeatures` is a depth-first walk with an explicit stack.
- `Reachability.PrepareFeatures` keeps what a valid entrance can reach.

**The fill engine.** This part models `dbc/filling.py`. `Filling.FillSet` is a class whose fields are the source's:
- the active list `fns` with its id set `uniqueSet`;
- the completed queue `fq` (a `FillNodes.FillQueue`);
- the clock, the totals and the recorded series `dbs`.

A `FillNode` is a value. Its methods update the fields in place, as the source's do. Each method is proved against a function on the value-level state `FillRules.Sim`:
- `Promote` for `update_FQ`;
- `Fill` / `Feed` for step 5 of `tick`;
- `TickResult` for `tick`;
- `Finish` for the end of `execute`;
- `DbAt` for `calculate_db`;
- `RecordFrom` for `record_db`.

The lemmas beside those functions state the invariants the simulation keeps:
- `FillRules.Inv`: active ids distinct and equal to `unique_set`, every node within its capacity, every queued node complete.
- `FillRules.Eligible`: the set of features the run may still touch. It never grows, and it strictly shrinks whenever a completed node is promoted.

`FillLoop.Pass` states one pass of the minute loop of `execute` on values, and `FillLoop.Run` the whole loop. The eligible set, with the clock's minute, is why the loop ends.

`TIME_STEP_MINUTE` is 1, as in config.py:23. The gateway names of config.py:21 are a parameter.

## Model

| member | source | states |
|---|---|---|
| Graph.CheckNestedIsolation | dynamicBearing/feature.py:36-49 | true exactly when the feature has no neighbour, or exactly one neighbour whose only neighbour is this feature |
| Graph.Intersect | dynamicBearing/feature.py:19-20 | `intersect(a, b)` holds iff `b` is one of `a`'s neighbours |
| Graph.IsEntrance | dynamicBearing/feature.py:75-77 | an area is an entrance iff its name is one of the gateway names; a road never is |
| Graph.IntersectIsSymmetric | dynamicBearing/feature.py:19-20 | on a symmetric adjacency `intersect(a, b)` holds iff `intersect(b, a)` holds |
| Graph.ClosedHoldsReachable | dynamicBearing/feature.py:22-34 | a set of features closed under adjacency contains every feature reachable from one of its members |
| Connectivity.Put | dynamicBearing/feature.py:85-86 | storing a key in a neighbour dict adds exactly that key and never creates a repeat |
| Connectivity.LinkEdges | dynamicBearing/feature.py:85-86 | linking two different, unlinked features adds exactly the edge between them in both directions and keeps the adjacency free of repeats and self edges, and symmetric |
| Connectivity.ConnectEdges | dynamicBearing/feature.py:79-86 | one `check_connectivity(f, fs)` adds exactly the edges between `f` and each candidate `b != f` the oracle says touches it, in both directions, and keeps the adjacency well formed |
| Connectivity.ConnectEachEdges | dynamicBearing/feature.py:109-110 | running `check_connectivity` for each feature of a list, from empty dicts, links two features exactly when they differ, one is in the list, and the oracle holds between them |
| Connectivity.BuiltAdjacency | dynamicBearing/feature.py:109-110 | the adjacency built by `prepare_features` is symmetric, without self edges or repeats, names only features of the venue, and `y` is a neighbour of `x` iff they are different features that touch in either direction |
| Connectivity.Arena.CheckConnectivity | dynamicBearing/feature.py:79-86 | the arena after the call is the one `Connect` describes (whose edges `ConnectEdges` characterises) |
| Connectivity.Arena.BuildConnectivity | dynamicBearing/feature.py:109-110 | the arena after the loop is the one `ConnectEach` describes (whose edges `BuiltAdjacency` characterises) |
| Reachability.Unrecorded | dynamicBearing/feature.py:30-32 | an id is pushed for a feature iff it is a neighbour not yet recorded |
| Reachability.UnrecordedCount | dynamicBearing/feature.py:27-32 | nothing the walk pushes is already recorded, so popping a recorded duplicate makes progress |
| Reachability.PushUnrecorded | dynamicBearing/feature.py:30-32 | the stack grows by the unrecorded neighbours, in neighbour order |
| Reachability.GetAllConnectedFeatures | dynamicBearing/feature.py:22-34 | the result starts with the start feature, has no repeats, holds exactly the features reachable from the start, and is closed under adjacency |
| Reachability.ReachAll | dynamicBearing/feature.py:118-121 | a feature is in the union iff some listed entrance reaches it |
| Reachability.ValidEntrances | dynamicBearing/feature.py:113-116 | a feature is kept iff it is a polygon whose name is a gateway name and it is not nested-isolated |
| Reachability.MergeKeys | dynamicBearing/feature.py:119-121 | the dict keys gain the new ids of a component at the end, in order, without repeats, and the key set becomes the union |
| Reachability.UnrecordedNoDup | dynamicBearing/feature.py:119-121 | appending the unrecorded ids of a list without repeats keeps the keys free of repeats |
| Reachability.PreparedSet | dynamicBearing/feature.py:118-123 | the union over the valid entrances holds exactly what some valid entrance reaches, is closed under adjacency, and is empty iff no feature is a valid entrance |
| Reachability.PrepareFeatures | dynamicBearing/feature.py:112-123 | the result has no repeats, holds exactly the features reachable from a valid entrance, is closed under adjacency, and is empty iff there is no valid entrance |
| FillNodes.NewNode | dbc/filling.py:8-15 | a new node has the feature's id and capacity, nothing filled, no completion time and an empty history |
| FillRules.NewNodeActive | dbc/filling.py:8-15 | a new node of a feature with a non-negative capacity is a well-formed active node with its whole capacity remaining, not a completed one |
| FillNodes.IndexOf | dbc/filling.py:78-82 | the position of the first node with the id; the list's length exactly when no node has it |
| FillNodes.FreshSpec | dbc/filling.py:148-150 | the nodes repeated `add` calls create have distinct ids, exactly the neighbours neither active nor queued |
| FillNodes.NewNodesIds | dbc/filling.py:67-69 | fresh nodes carry exactly the ids they are made for |
| FillNodes.FillQueue.constructor | dbc/filling.py:19-21 | a new queue is empty |
| FillNodes.FillQueue.Add | dbc/filling.py:23-25 | the node is appended at the end of the queue |
| FillNodes.FillQueue.HasNode | dbc/filling.py:27-32 | true iff some queued node has the id handed in; always false when handed a node instead of an id, as at dbc/filling.py:100 |
| FillRules.FirstMinTf | dbc/filling.py:109-120 | a pick is a position of the active list whose node has a completion time |
| FillRules.FirstMinTfSpec | dbc/filling.py:109-120 | there is no pick iff no active node has a completion time; the pick has the least completion time and every node before it a strictly greater one |
| FillRules.FirstMinRemaining | dbc/filling.py:123-134 | there is no pick iff the active list is empty; a pick is a position of the list |
| FillRules.FirstMinRemainingSpec | dbc/filling.py:123-134 | the pick has the least remaining capacity `sb - db` and every node before it a strictly greater one |
| FillRules.Without | dbc/filling.py:83 | `pop(k)`: one node shorter, the nodes before `k` unchanged, the nodes after it shifted down by one |
| FillRules.WithoutIds | dbc/filling.py:76-83 | popping a node keeps the ids distinct and removes exactly its id from the id set |
| FillRules.AppendActive | dbc/filling.py:62-69 | appending one well-formed node with a new id keeps the simulation invariant |
| FillRules.AppendFresh | dbc/filling.py:148-150 | appending fresh nodes for new, distinct feature ids keeps the ids distinct and every node tracked, and adds exactly those ids |
| FillRules.PromoteInv | dbc/filling.py:137-150 | promotion keeps the simulation invariant, so every queued non-entrance node has one more time than rates and ends with its completion time |
| FillRules.PromoteMoves | dbc/filling.py:137-150 | without a completed node nothing changes; otherwise the earliest completed node leaves the active list and closes the queue, each of its neighbours ends active or queued, and a neighbour becomes active only if it was neither |
| FillRules.PromoteShrinks | dbc/filling.py:137-150 | promotion never lets a queued feature back in: the eligible set never grows, and it strictly shrinks when a node is promoted |
| FillRules.FeedNode | dbc/filling.py:158-175 | the fed node records exactly the sample `(t, v)`, takes in `v` times the part of the step it used, stays within `0 <= db <= sb`, and completes at `t + (sb - db) / v` exactly when its remaining capacity fits in the step; the returned time lies in `[0, step]` |
| FillRules.FillStep | dbc/filling.py:159-175 | exactly the node with the least remaining capacity is fed; no other node and not the queue changes, and the invariant holds |
| FillRules.TickBounds | dbc/filling.py:152-175 | a tick keeps the invariant and returns a part of the step; with nothing active after promotion it returns 0 and feeds nothing; unused time is returned only when an active node has completed; the eligible set never grows and shrinks when a node was promoted |
| FillRules.FinishQueue | dbc/filling.py:212-216 | at the end of the horizon at most one node is queued, the one with least remaining capacity, closed at the current time; with nothing active nothing changes; every queued node stays complete |
| FillInit.Capacity | dbc/filling.py:48-49 | the static bearing capacity is never negative when no feature capacity is |
| FillInit.PositiveSum | dbc/filling.py:180-182 | the total passenger flow is never negative, and it is 0 when no minute has positive inflow |
| FillInit.Seeds | dbc/filling.py:93-104 | every seed is a feature of the arena |
| FillInit.SeedsSpec | dbc/filling.py:93-104 | the seeds are distinct and are exactly the zero-capacity neighbours not already active |
| FillInit.SeedsAppend | dbc/filling.py:90-104 | seeding from the neighbours of two entrances is seeding from the first, then from the second with the first's seeds recorded |
| FillInit.CandidatesInArena | dbc/filling.py:90-95 | the ids `_initialize` inspects are exactly the neighbours of the entrances among the features |
| FillInit.EntranceNodesSpec | dbc/filling.py:52-58 | the queued ids are exactly the entrance polygons among the features, each queued with nothing to fill and complete at time 0 |
| FillInit.AppendSeeds | dbc/filling.py:98-104 | appending the seed nodes keeps the simulation invariant |
| FillInit.InitialState | dbc/filling.py:52-104 | the starting state satisfies the invariant; the queue holds exactly the entrances, each with `sb = 0` and `tf = 0`; the active list holds exactly the zero-capacity neighbours of entrances, each once with `tf = 0` |
| Reconstruction.PyIndex | dbc/filling.py:240 | Python indexing succeeds exactly for `-len <= i < len` |
| Reconstruction.FirstAbove | dbc/filling.py:231-234 | every time before the position is at most `t`, and the time at the position, if any, is after `t` |
| Reconstruction.SettledPrefix | dbc/filling.py:224-227 | while the queued nodes are complete by `t`, their capacities are what is counted |
| Reconstruction.AllSettled | dbc/filling.py:223-243 | when every queued node is complete by `t`, the capacity at `t` is their total capacity |
| Reconstruction.Interpolated | dbc/filling.py:229-241 | at the first node not complete by `t`, with its first sample at or before `t`, the bracket satisfies `ts[j] <= t < ts[j+1]`, no exception is raised, and the value is the capacities before it plus its whole segments plus the elapsed share of the bracket's segment |
| Reconstruction.Trunc | dbc/filling.py:252 | Python's `int(x)` truncates toward zero |
| Reconstruction.OutflowBounds | dbc/filling.py:252 | an entry for a minute without positive inflow is a whole number, never negative, and never above a non-negative previous entry |
| Reconstruction.RecordEntries | dbc/filling.py:245-254 | `record_db` only appends; when it does not raise it appends one entry per minute, `calculate_db(t)` under inflow and the outflow rule otherwise |
| Wrappers.Max | dbc/filling.py:252 | Python's `max` of two integers is one of them and at least both |
| Filling.Unfilled | dbc/filling.py:262-265 | a feature is reported iff it is one of the features and no queued node has its id |
| Filling.FeedStep | dbc/filling.py:159-175 | step 5 of `tick` computes what `Feed` describes (see `FeedNode`) |
| Filling.BracketIndex | dbc/filling.py:231-234 | the index the bracketing loop leaves is `Bracket` of the times (see `FirstAbove`) |
| Filling.WholeSegments | dbc/filling.py:237 | the sum of the first `j` whole segments, or `None` when it would index past the recorded rates |
| Filling.PendingDb | dbc/filling.py:229-241 | the contribution of the first incomplete node, `None` exactly where the source raises (see `Interpolated`) |
| Filling.SumCapacity | dbc/filling.py:48-49 | the loop computes the total capacity `Capacity` of the features |
| Filling.FillSet.constructor | dbc/filling.py:36-60 | the new fill set satisfies the invariant, starts in the state `InitialState` characterises, and has `sb` equal to the total capacity |
| Filling.FillSet.QueueEntrances | dbc/filling.py:52-58 | the queue gains the entrance nodes, in feature order |
| Filling.FillSet.Initialize | dbc/filling.py:88-106 | the active list gains one node complete at time 0 per seed, and the invariant holds |
| Filling.FillSet.SeedNeighbours | dbc/filling.py:93-104 | the active list and id set gain exactly the seeds of one entrance's neighbours, in order |
| Filling.FillSet.Add | dbc/filling.py:62-69 | a feature neither active nor queued becomes one fresh node at the end and its id is recorded; otherwise nothing changes |
| Filling.FillSet.Remove | dbc/filling.py:71-85 | an unknown id returns `None` and changes nothing; otherwise exactly the first node with the id is popped and returned and its id forgotten, keeping ids distinct and equal to the id set |
| Filling.FillSet.PickFilledNode | dbc/filling.py:109-120 | the loop returns the pick `FirstMinTf` (characterised by `FirstMinTfSpec`) |
| Filling.FillSet.PickFillingNode | dbc/filling.py:123-134 | the loop returns the pick `FirstMinRemaining` (characterised by `FirstMinRemainingSpec`) |
| Filling.FillSet.AddNeighbours | dbc/filling.py:148-150 | the active list gains a fresh node for each neighbour neither active nor queued, once each, in neighbour order |
| Filling.FillSet.UpdateFQ | dbc/filling.py:137-150 | the new state is the promotion `Promote` of the old one, and the fill set stays valid |
| Filling.FillSet.PromoteAt | dbc/filling.py:141-150 | once the earliest completed node is picked, the new state is the promotion `Promote` of the old one |
| Filling.FillSet.Tick | dbc/filling.py:152-175 | the state and the returned time are `TickResult` of the old state; the invariant holds, the time lies in `[0, step]`, the queue only grows, and the eligible set shrinks when a node was promoted |
| Filling.FillSet.Simulate | dbc/filling.py:188-208 | the loop ends in the state `FillLoop.Run` gives for the old state, clock and a whole step, with the clock at the horizon when it started before it, keeping the invariant; the queue only grows and the eligible set never grows |
| Filling.FillSet.Advance | dbc/filling.py:190-208 | the new state, clock and step are `FillLoop.Pass` of the old ones (the tick under positive inflow, the clock set back by unused time; only the clock moves otherwise); one pass keeps the invariant and the clock within the horizon, and makes progress: a later minute, or fewer eligible features, or a completed node to promote next |
| Filling.FillSet.TickOrWait | dbc/filling.py:190-208 | the body of the loop: the new state, clock and step are exactly `FillLoop.Pass` of the old ones |
| FillLoop.PassTicks | dbc/filling.py:192-202 | under positive inflow a pass takes the state of `tick`; unused time `left` puts the clock `left` before the next minute with step `left`, otherwise the clock moves to the next minute with a whole step |
| FillLoop.PassQuiet | dbc/filling.py:204-208 | without positive inflow a pass leaves the state alone and moves the clock to the next minute with a whole step |
| FillLoop.PassProgress | dbc/filling.py:188-208 | a pass keeps the invariant, only appends to the queue, never grows the eligible set, keeps the step in (0, 1], and moves the clock within the next minute; it stays in the minute only when fewer features are eligible or a completed node newly waits for promotion |
| FillLoop.RunKeeps | dbc/filling.py:188-208 | the whole loop keeps the invariant, only appends to the queue and never lets a feature become eligible again |
| Filling.FillSet.CloseFilling | dbc/filling.py:212-216 | the state becomes `Finish` of the old one at the current time, and every queued node is complete |
| Filling.FillSet.Execute | dbc/filling.py:178-219 | the total flow is the sum of the positive rates; the loop settles in the state `FillLoop.Run` gives; the clock ends at the horizon; the loop keeps the invariant and only appends to the queue; then the closing step and `record_db` run |
| Filling.FillSet.CalculateDb | dbc/filling.py:221-243 | the result is `DbAt` of the queue, `None` exactly where the source raises (its value is given by `AllSettled` and `Interpolated`) |
| Filling.FillSet.RecordDb | dbc/filling.py:245-254 | the series and the success flag are `RecordFrom` of the queue (characterised by `RecordEntries`) |
| Filling.FillSet.GetNotFilledFeatures | dbc/filling.py:256-266 | the features never queued, in feature order (see `Unfilled`) |

## Left out

- Reading the shapefiles (`ogr.Open`, the layers, `Feature.__init__` reading properties and geometry) is I/O over a foreign library. A feature is a `Graph.Cell`.
- `check_intersect` is a geometry call. It is the oracle parameter `touches`.
- `create_instance` looks up a class by name. It is replaced by the `Graph.Kind` datatype.
- Printing and plotting are not modelled: `show_result`, `show_plot`, and the filtered-feature printout of `prepare_features`.
- run.py is not part of this model. It holds the inflow profiles and the driver; an inflow profile is the parameter `vs`.
- config.py contributes only two things: the time step, as the constant `TIME_STEP_MINUTE`, and the gateway names, as the parameter `gateways`.
- dbc/filling.py imports `Feature` from `dbc/feature.py`, which is not part of this model. The fields used are those of the class in dynamicBearing/feature.py.
- Floating point is exact `real` arithmetic.
  - The `float('inf')` sentinels of the two pick loops are `Option` values.
  - Rounding in the clock updates and in the interpolation is not modelled.
- A `FillNode` is a value, not a shared object.
  - At the end of `execute` the closed node is updated both in the active list and in the queue, which is what the aliasing in the source does.
  - Other aliasing of nodes is not modelled.
- The features of a `FillSet` are ids into the arena, so `get_not_filled_features` returns ids, not feature objects.
- Exceptions are results.
  - Where `calculate_db` raises (a missing completion time, an unbound `j`, an index out of range, a division by zero), the result is `None`.
  - `record_db` and `execute` then report failure with `ok = false` and stop appending.
  - Python's negative indexing when `t < ts[0]` is modelled as written.
- Several loops of the source are separate methods here, each proved against its specification:
  - the nested loops of `_initialize`, `update_FQ`, `execute`, `calculate_db` and `prepare_features`;
  - the summing loop of `__init__`.

  `SeedNeighbours` accumulates in local variables and assigns the fields once at the end.
- Filling.FillSet.Execute: requires `duration <= len(vs)`; the source raises `IndexError` at dbc/filling.py:190 otherwise.
- Filling.FillSet.Execute: requires the simulation invariant on entry. A second `execute` on the same object is not covered: after the first, the closed node is both active and queued with a completion time but possibly unfilled, which the invariant excludes.
- Filling.FillSet.Remove: requires the active ids to be distinct and equal to `unique_set`. That is the invariant every caller keeps; without it the source's `pop` can raise.
- Filling.FillSet.constructor: requires every capacity to be non-negative and every neighbour to be a feature of the arena. A negative capacity gives a negative fill time at dbc/filling.py:160, so the unused time of dbc/filling.py:171 exceeds the step, the clock of dbc/filling.py:199 moves back past the minute, and dbc/filling.py:190 then reads `vs` at a negative (from-the-end) index.
- Feature ids are unique. The arena is a map from id to feature.
- Filling.FillSet.Tick: requires `v > 0`, as `execute` guarantees. The division by `v` at dbc/filling.py:160 raises otherwise.
- Filling.FillSet.Add: the contract states the two cases of `add` but not the invariant directly; `FillRules.AppendActive` states that.
