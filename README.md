# Hypergraph coupling engine

This project models the coupling engine of `src-js/coupling-algorithms.ts` in Dafny. The engine decides which directed hyperedges of a small hypergraph must be drawn as one coupled macro-edge. A hyperedge consumes its source nodes and produces its target nodes.

It has four parts:

- **The working graph, `HypergraphForCoupling`.** It is a class with a node list and an edge list. Its structural queries are:
  - leaves: nodes no edge consumes;
  - blocked nodes: every other node;
  - descendants of a node: the reflexive-transitive closure along edges;
  - frontiers: node sets closed under descendants;
  - unblocked nodes: blocked nodes that become leaves once a frontier is removed;
  - productive expiries: frontiers that unblock some node;
  - all frontiers, enumerated by bitmask;
  - minimal productive frontiers: productive frontiers with no strictly smaller productive frontier inside them;
  - expiry edges: edges that touch a frontier.
- **`CoupledEdge`.** It computes the boundary of a group of edges. Its sources are nodes that some edge of the group consumes and none produces. Its targets are nodes that some edge produces and none consumes.
- **The productive-expiries coupling, `couple`.** For every minimal productive frontier of the graph, it emits the group of that frontier's expiry edges. It then recurses on the graph with the frontier removed.
- **The registry `COUPLING_ALGORITHMS`, with the identity coupling and `applyCouplingAlgorithm`.**

Each core file has its own form in the model:

- **Class state and loops are imperative.** `HypergraphForCoupling` and `CoupledEdge` are Dafny classes. Their constructors set the fields, and `RemoveNodes` is the one method that replaces them afterwards; the other graph methods only read them. The descendant worklist, the subset enumeration, the `Set` filling of `CoupledEdge` and the loop of `couple` are `while` loops. Each method is proved against a specification:
  - the graph methods (`RemoveNodes`, `GetDescendants`, `GetUnblockedNodes`, `GetAllFrontiers`, `GetMinimalProductiveFrontiers`, `Couple`) are proved equal to a function of the graph's value, its `Snapshot()`;
  - the `CoupledEdge` constructor and `AddAll` are proved equal to functions of the edge and node sequences they are given;
  - the inner worklist `Worklist` is proved to return a closed set that contains the start node and lies inside every closed set containing it, which `GetDescendants` turns into equality with `Descendants`.
- **Pure queries are functions.** They are functions on a `Graph` value, and their lemmas state what the source promises about them.

The modules, in dependency order:

- `Seqs`: filter, insertion-ordered deduplication (a JavaScript `Set` as a sequence), interleaving.
- `Graphs`: the graph value, the constructor, the structural queries and removal.
- `Reachability`: descendants as the least closed set.
- `Frontiers`: frontiers, unblocking, enumeration and minimality.
- `Hypergraph`: the class.
- `CoupledEdges`: the boundary and its class.
- `Coupling`: `couple`.
- `Algorithms`: the identity coupling and the registry.
- `Fixture`: the example graph used by `src-js/coupling-algorithms.test.ts`.

The registry (src-js/coupling-algorithms.ts:331-342) has two entries, `none` and `productive-expiries`. The tests also call `frontier-expiries` (src-js/coupling-algorithms.test.ts:350, 362, 391, 409, 437, 453, 465, 480), but the registry has no entry for it and the file defines none of its helpers, so the model gives that id the unknown-algorithm outcome. An unknown id makes src-js/coupling-algorithms.ts:350 throw a plain `Error` with the message `Unknown coupling algorithm: <id>`; the model returns that message as a `Failure`.

## Model

| member | source | states |
|---|---|---|
| Graphs.EdgeId | src-js/coupling-algorithms.ts:76 | an edge id is never empty; a non-empty given id is kept |
| Graphs.DecimalRoundTrip | src-js/coupling-algorithms.ts:76 | the digits written after `edge-` read back as the edge's index |
| Graphs.SynthesizedIdsDiffer | src-js/coupling-algorithms.ts:76 | two different indices never synthesize the same `edge-<idx>` id |
| Graphs.InternalEdges | src-js/coupling-algorithms.ts:73-80 | one internal edge per input edge that has both endpoint lists, and every internal edge id is non-empty |
| Graphs.Build | src-js/coupling-algorithms.ts:71-81 | the constructed graph has duplicate-free nodes and non-empty edge ids, and its node set is exactly the ids of the input nodes |
| Graphs.ConstructorKeepsEdgesWithEndpoints | src-js/coupling-algorithms.ts:73-80 | the edges are exactly the inputs that have both endpoint lists, in input order, with those lists. A non-empty id is kept; otherwise the id is `edge-k`, where k counts only the kept edges |
| Graphs.SynthesizedIdsDistinct | src-js/coupling-algorithms.ts:75-76 | two kept edges that both lack a non-empty id get different `edge-k` ids |
| Graphs.Sources | src-js/coupling-algorithms.ts:118-121 | a node is collected iff some edge consumes it |
| Graphs.Leaves | src-js/coupling-algorithms.ts:117-124 | a node is a leaf iff it is a node of the graph and no edge consumes it |
| Graphs.Blocked | src-js/coupling-algorithms.ts:109-112 | a node is blocked iff it is a node of the graph that some edge consumes; as a set, the nodes minus the leaves |
| Graphs.Remove | src-js/coupling-algorithms.ts:96-104 | the node set loses exactly the removed nodes; an edge survives iff it has neither a source nor a target among them |
| Graphs.ExpiryEdges | src-js/coupling-algorithms.ts:240-247 | an edge is an expiry edge iff it is an edge of the graph with a source or a target in the frontier |
| Graphs.IsEmpty | src-js/coupling-algorithms.ts:249-251 | the graph is empty when it has no edges; `Coupling.CouplingIsEmptyIff` relates it to the coupling |
| Graphs.RemoveSplitsEdges | src-js/coupling-algorithms.ts:240-247 | the surviving edges and the expiry edges of the same node set interleave to give all the edges, so their counts add up |
| Graphs.RemoveWellFormed | src-js/coupling-algorithms.ts:96-104 | removal keeps nodes duplicate-free and edge ids non-empty |
| Graphs.RemoveNothing | src-js/coupling-algorithms.ts:96-104 | removing no nodes leaves the graph unchanged |
| Graphs.RemoveTwice | src-js/coupling-algorithms.ts:96-104 | removing A and then B is removing A and B at once |
| Graphs.RemoveBySet | src-js/coupling-algorithms.ts:97 | removal and expiry edges depend only on the set of nodes given, not on order or repetition |
| Reachability.FedBy | src-js/coupling-algorithms.ts:136-145 | the nodes one visit of `current` reaches are exactly the targets of the edges consuming it |
| Reachability.Descendants | src-js/coupling-algorithms.ts:129-149 | the descendants of n are the closure of {n} under the edges; `DescendantsAreLeastClosed` and `LeastClosedIsDescendants` characterise it as the least closed set containing n |
| Reachability.ClosureIsClosed | src-js/coupling-algorithms.ts:133-146 | the closure is closed: an edge consuming a member produces only members |
| Reachability.ClosureIsLeast | src-js/coupling-algorithms.ts:133-146 | the closure of S lies inside every closed set that contains S |
| Reachability.DescendantsAreLeastClosed | src-js/coupling-algorithms.ts:129-149 | a node's descendants contain the node, are closed, lie inside every closed set containing the node, and are otherwise edge targets |
| Reachability.LeastClosedIsDescendants | src-js/coupling-algorithms.ts:129-149 | the least closed set containing a node is its descendant set (the converse of the row above) |
| Frontiers.IsFrontier | src-js/coupling-algorithms.ts:154-167 | every descendant of every listed node is listed; `FrontierIffClosed` shows this is closure of the set |
| Frontiers.FrontierIffClosed | src-js/coupling-algorithms.ts:154-167 | a node list is a frontier iff its set is closed under the edges |
| Frontiers.UnblockedNodes | src-js/coupling-algorithms.ts:172-183 | a node is unblocked iff it is a node outside the frontier, some edge consumes it, and every edge consuming it touches the frontier |
| Frontiers.IsProductiveExpiry | src-js/coupling-algorithms.ts:188-190 | the frontier unblocks at least one node |
| Frontiers.ProductiveRemovesAnEdge | src-js/coupling-algorithms.ts:188-190 | a productive expiry is non-empty, and removing it leaves strictly fewer edges |
| Frontiers.AllFrontiers | src-js/coupling-algorithms.ts:195-214 | the candidate subsets, in mask order, that are frontiers; characterised by `AllFrontiersSound`, `AllFrontiersComplete` and `AllFrontiersEachSetOnce` |
| Frontiers.SubsetsDiffer | src-js/coupling-algorithms.ts:200-206 | over duplicate-free nodes, two different masks below 2^n select different sets of nodes |
| Frontiers.CandidatesEachSetOnce | src-js/coupling-algorithms.ts:199-211 | over duplicate-free nodes, the outer loop's candidates are pairwise different and no two of them hold the same set of nodes |
| Frontiers.SelectMembers | src-js/coupling-algorithms.ts:201-206 | the subset for mask i holds exactly the nodes whose bit is set in i, and has no duplicates when the nodes have none |
| Frontiers.AllFrontiersSound | src-js/coupling-algorithms.ts:195-214 | every listed frontier passes `isFrontier`, is non-empty and duplicate-free, and contains only nodes of the graph |
| Frontiers.AllFrontiersComplete | src-js/coupling-algorithms.ts:195-214 | every non-empty closed set of nodes of the graph is listed as some frontier |
| Frontiers.AllFrontiersEachSetOnce | src-js/coupling-algorithms.ts:195-214 | no frontier is listed twice, not even in another order; with `AllFrontiersComplete`, every non-empty closed set of nodes is listed exactly once |
| Frontiers.MinimalProductiveFrontiers | src-js/coupling-algorithms.ts:219-235 | every minimal productive frontier is a listed frontier and a productive expiry |
| Frontiers.MinimalIff | src-js/coupling-algorithms.ts:219-235 | a list is a minimal productive frontier iff it is a listed, productive frontier and no listed productive frontier is a strict subset of it |
| Frontiers.SmallerSubsetIsStrict | src-js/coupling-algorithms.ts:230-232 | for duplicate-free lists, "shorter and every member included" is strict set inclusion |
| Frontiers.MinimalAmongAllSets | src-js/coupling-algorithms.ts:219-235 | no productive frontier of the graph, in any order, has a set strictly inside a minimal one |
| Hypergraph.BuildInvertsExport | src-js/coupling-algorithms.ts:86-91 | rebuilding a well-formed graph from its exported nodes and edges gives the same graph back |
| Hypergraph.FrontiersBeforeStep | src-js/coupling-algorithms.ts:200-211 | one turn of the enumeration appends the subset for mask i exactly when it is a frontier |
| Hypergraph.HypergraphForCoupling.constructor | src-js/coupling-algorithms.ts:71-81 | the new graph's state is the constructed graph, and it is well formed |
| Hypergraph.HypergraphForCoupling.Clone | src-js/coupling-algorithms.ts:86-91 | the clone is a fresh object with the same, well-formed state |
| Hypergraph.HypergraphForCoupling.RemoveNodes | src-js/coupling-algorithms.ts:96-104 | the new state is the old state with the nodes removed; well-formedness is kept |
| Hypergraph.HypergraphForCoupling.GetDescendants | src-js/coupling-algorithms.ts:129-149 | the worklist returns exactly the descendant set |
| Hypergraph.HypergraphForCoupling.Worklist | src-js/coupling-algorithms.ts:133-146 | the result contains the start node, is closed, and lies inside any closed set containing the start |
| Hypergraph.HypergraphForCoupling.VisitNode | src-js/coupling-algorithms.ts:136-145 | one visit adds exactly the nodes fed by `current` and queues exactly the newly added ones |
| Hypergraph.HypergraphForCoupling.VisitTargets | src-js/coupling-algorithms.ts:138-143 | adding one edge's targets adds all of them and queues only those not already present |
| Hypergraph.HypergraphForCoupling.GetUnblockedNodes | src-js/coupling-algorithms.ts:172-183 | returns the unblocked nodes of the current state |
| Hypergraph.HypergraphForCoupling.GetAllFrontiers | src-js/coupling-algorithms.ts:195-214 | the nested loops return exactly the frontiers among the candidates, in mask order |
| Hypergraph.HypergraphForCoupling.GetMinimalProductiveFrontiers | src-js/coupling-algorithms.ts:219-235 | returns the minimal productive frontiers of the current state |
| CoupledEdges.BoundarySources | src-js/coupling-algorithms.ts:52 | x is a boundary source iff some edge of the group consumes it and none produces it; no duplicates |
| CoupledEdges.BoundaryTargets | src-js/coupling-algorithms.ts:53 | x is a boundary target iff some edge produces it and none consumes it; no duplicates |
| CoupledEdges.BoundaryIsSetDifference | src-js/coupling-algorithms.ts:52-53 | boundary sources are all sources minus all targets and the other way round, so no node is both |
| CoupledEdges.AddAll | src-js/coupling-algorithms.ts:47-50 | adding a list to the set built from a prefix gives the set built from the prefix and the list |
| CoupledEdges.CoupledEdge.constructor | src-js/coupling-algorithms.ts:41-54 | the fields hold the group and its boundary sources and targets |
| Coupling.Coupling | src-js/coupling-algorithms.ts:271-299 | `couple(g)` on a graph value: nothing for an empty graph, otherwise the loop over its minimal productive frontiers; `CouplingVisitsEveryMinimal` and `CouplingOnlyFromMinimal` together state that it is the union, over the minimal productive frontiers S, of S's group and the coupling of the graph without S; `CouplingGroups` and `CouplingIsEmptyIff` add what every group looks like and when the result is empty |
| Coupling.CouplingOver | src-js/coupling-algorithms.ts:279-296 | what the loop has accumulated after visiting a prefix of the frontiers |
| Coupling.CoupleAt | src-js/coupling-algorithms.ts:280-295 | one turn of the loop: the frontier's group if it has expiry edges, then the coupling of the graph without the frontier |
| Coupling.Couple | src-js/coupling-algorithms.ts:271-299 | the loop returns the recursive coupling of the current state |
| Coupling.CoupleFrontier | src-js/coupling-algorithms.ts:280-295 | one frontier contributes its group and then the coupling of the clone without the frontier |
| Coupling.ComputeCouplingProductiveExpiries | src-js/coupling-algorithms.ts:268-302 | returns the coupling of the constructed graph |
| Coupling.ProductiveExpiryHasEdges | src-js/coupling-algorithms.ts:282 | a productive expiry always has expiry edges, so the emptiness test never skips a group |
| Coupling.CouplingVisitsEveryMinimal | src-js/coupling-algorithms.ts:262-265 | for every minimal productive frontier S of a graph with edges, the result holds the group of S's expiry edges and everything the coupling of the graph without S holds |
| Coupling.CouplingOverVisits | src-js/coupling-algorithms.ts:279-296 | after the loop has visited a list of frontiers, it has accumulated, for each of them, its group and the coupling of the graph without it |
| Coupling.CouplingOnlyFromMinimal | src-js/coupling-algorithms.ts:261-266 | every emitted group comes from a graph with edges and is, for some minimal productive frontier S, either S's group or emitted by the coupling of the graph without S |
| Coupling.CouplingOverOnly | src-js/coupling-algorithms.ts:279-296 | everything the loop has accumulated over a list of frontiers is the group or part of the recursive coupling of one of them |
| Coupling.CouplingGroups | src-js/coupling-algorithms.ts:271-299 | every emitted group is tagged `coupled` and has the `CoupledEdge` boundary. Its edges are non-empty and are edges of the graph. They are the expiry edges of a minimal productive frontier of the graph with some nodes removed |
| Coupling.CouplingGroupsAfter | src-js/coupling-algorithms.ts:292-295 | the same holds for the coupling of any graph reached by removing nodes |
| Coupling.CouplingOverGroupsAfter | src-js/coupling-algorithms.ts:279-296 | the same holds for any prefix of the frontiers the loop visits |
| Coupling.CoupleAtAfter | src-js/coupling-algorithms.ts:292-295 | removing a minimal frontier after earlier removals is one combined removal, and it leaves fewer edges, so the recursion terminates |
| Coupling.ExpiryGroupIsCoupled | src-js/coupling-algorithms.ts:282-289 | the group pushed for a minimal productive frontier is a coupled group |
| Coupling.CouplingIsEmptyIff | src-js/coupling-algorithms.ts:271-299 | the coupling is empty iff the graph has no edges or no minimal productive frontier |
| Algorithms.ComputeCouplingIdentity | src-js/coupling-algorithms.ts:308-320 | one group per input edge, tagged `identity`, holding one edge. The edge keeps a non-empty given id and is otherwise named `edge-k` after its raw index k among all input edges. An absent endpoint list becomes empty, and the group's boundary is that edge's endpoints |
| Algorithms.IdentityWrapsConstructorEdges | src-js/coupling-algorithms.ts:308-320 | when every input edge has both endpoint lists, the groups wrap exactly the constructor's edges, in order |
| Algorithms.IdentityNumbersRawIndex | src-js/coupling-algorithms.ts:312 | an unnamed edge is numbered by its raw index here but by its kept index in the constructor, so the two can differ |
| Algorithms.Applied | src-js/coupling-algorithms.ts:347-354 | the lookup fails iff the id is neither `none` nor `productive-expiries`, with the unknown-algorithm message. `none` gives the identity coupling and `productive-expiries` the productive-expiries coupling |
| Algorithms.ApplyCouplingAlgorithm | src-js/coupling-algorithms.ts:347-354 | the dispatcher returns what `Applied` states |
| Algorithms.RegisteredAlgorithms | src-js/coupling-algorithms.ts:331-342 | the registry's keys are exactly `none` and `productive-expiries`, bound to the identity and productive-expiries computations with their display names |
| Algorithms.FrontierExpiriesIsUnknown | src-js/coupling-algorithms.test.ts:453 | applying `frontier-expiries`, which the tests use, fails with the unknown-algorithm error |
| Algorithms.EmptyGraphHasNoGroups | src-js/coupling-algorithms.ts:331-342 | both registered algorithms map an empty graph to no groups |
| Algorithms.LookupAsWritten | src-js/coupling-algorithms.ts:348 | indexing the registry yields `undefined` iff the id is neither an own key nor an inherited `Object.prototype` member |
| Algorithms.ApplyAsWritten | src-js/coupling-algorithms.ts:347-354 | as written, the dispatcher agrees with `Applied` on every registered id and on every id that is not an inherited member |
| Algorithms.InheritedNamePassesGuard | src-js/coupling-algorithms.ts:349-350 | `toString` is not registered, yet passes the guard, and the call then differs from the unknown-algorithm error |
| Fixture.FixtureBuilt | src-js/coupling-algorithms.test.ts:29-43 | the constructor builds the five-node example graph, in order, with its named edges |
| Fixture.FixtureLeaves | src-js/coupling-algorithms.test.ts:46-52 | the leaves of the example are c, d and e |
| Fixture.FixtureBlocked | src-js/coupling-algorithms.test.ts:54-60 | the blocked nodes of the example are a and b, in that order |
| Fixture.DescendantsOfA | src-js/coupling-algorithms.test.ts:66-67 | the descendants of a are a, c and d |
| Fixture.DescendantsOfB | src-js/coupling-algorithms.test.ts:69-70 | the descendants of b are b, c, d and e |
| Fixture.FixtureFrontiers | src-js/coupling-algorithms.test.ts:79-84 | [c,d], [c,d,e], [a,c,d], [d], [c] and [e] are frontiers of the example |
| Fixture.FixtureNonFrontiers | src-js/coupling-algorithms.test.ts:86-87 | [a] and [b] are not frontiers of the example |
| Fixture.UnblockedByCD | src-js/coupling-algorithms.test.ts:108-111 | removing c and d unblocks exactly a, so it is a productive expiry |
| Fixture.UnblockedByCDE | src-js/coupling-algorithms.test.ts:113-115 | removing c, d and e unblocks exactly a and b, so it is a productive expiry |
| Fixture.FixtureExpiryEdges | src-js/coupling-algorithms.test.ts:130-138 | the expiry edges of [c,d] are ac, bc, ad and bd, in order |

## Left out

- **Rendering fields.** The optional `frontier` field of a coupled result, the `originalIndex` of an internal edge and the rendering metadata of nodes and edges are not modelled. The coupling logic never reads them.
- **The frontier-expiries pipeline.** The `frontier-expiries` strategy and its helper functions are not part of this model. `src-js/coupling-algorithms.ts` has no registry entry for that strategy and does not define those helpers.
- **Surrounding code.** Preprocessors, the renderer and all I/O are not part of this model.
- **Node ids and edge inputs.** Node ids are strings, so JavaScript's coercion of other id types is not modelled. An input edge's endpoint list is either present or absent. An empty list counts as present, since an empty array is truthy.
- **Sets as sequences.** A JavaScript `Set` is modelled as its insertion-ordered contents, a duplicate-free sequence, wherever the order is visible in a result. It is modelled as a Dafny `set` where only membership matters (leaves and descendants).
- **Frontiers.Candidates: `Math.pow(2, n)` is the exact 2^n.** Floating point is not modelled; the two agree for every graph the enumeration could finish on.
- **Frontiers.Bit: the bit test is mathematical.** It tests bit j of i. The source's `i & (1 << j)` works on 32-bit integers, so the two agree only while the graph has at most 32 nodes.
- **Coupling.CoupleFrontier builds one `CoupledEdge`.** The source builds two from the same edges and reads `sources` from one and `targets` from the other. Both hold the same values.
- **Frontiers.MinimalProductiveFrontiers does not model the `f1 === f2` shortcut.** Any list compared with itself also fails the length test.
- **Fixture: the example is stated for any five distinct node names.** The names are not fixed to the strings `a`..`e`. Tests that only check non-emptiness and the tests that call the frontier-expiries helpers are not restated.
- **Fixture: the full coupling of the example is not evaluated.** It would enumerate 31 subsets at every level of the recursion.

## Findings

| source | as written | input that shows it | evidently intended | confidence | as-written member | corrected member |
|---|---|---|---|---|---|---|
| src-js/coupling-algorithms.ts:348-350 | the registry is a plain object, and `!algorithm` only rejects `undefined`. An id naming an inherited `Object.prototype` member passes the guard, and `algorithm.compute(...)` then throws a `TypeError` | `applyCouplingAlgorithm("toString", [], [])` | every id that is not a registered algorithm fails with `Unknown coupling algorithm: <id>` | not executed | Algorithms.InheritedNamePassesGuard | Algorithms.ApplyCouplingAlgorithm |
