/** The identity coupling, the registry of coupling algorithms and the
    dispatcher (src-js/coupling-algorithms.ts:304-354). */
module Algorithms {
  import opened Seqs
  import opened Graphs
  import opened Coupling

  // ---------------------------------------------------------------------
  // computeCouplingIdentity
  // ---------------------------------------------------------------------

  /** The group the identity coupling makes of the input edge at index `idx`. */
  function IdentityGroup(e: InputEdge, idx: nat): CoupledEdgeResult {
    var sources, targets := OrEmpty(e.sources), OrEmpty(e.targets);
    CoupledEdgeResult("identity", [Edge(EdgeId(e.id, idx), sources, targets)], sources, targets)
  }

  /** `computeCouplingIdentity(nodes, edges)`: one singleton group per input
      edge, every edge kept (an absent endpoint list becomes empty), and the
      group's boundary is its one edge's endpoints. A non-empty given id is
      kept; otherwise the edge is named after its raw index among all input
      edges. The nodes are not used. */
  function ComputeCouplingIdentity(nodes: seq<InputNode>, edges: seq<InputEdge>): (r: seq<CoupledEdgeResult>)
    ensures |r| == |edges|
    ensures forall k :: 0 <= k < |r| ==>
      && r[k].kind == "identity"
      && |r[k].underlyingEdges| == 1
      && r[k].underlyingEdges[0].id != ""
      && (edges[k].id.Some? && edges[k].id.value != "" ==> r[k].underlyingEdges[0].id == edges[k].id.value)
      && (edges[k].id.None? || edges[k].id.value == "" ==> r[k].underlyingEdges[0].id == "edge-" + NatToString(k))
      && r[k].sources == r[k].underlyingEdges[0].sources == OrEmpty(edges[k].sources)
      && r[k].targets == r[k].underlyingEdges[0].targets == OrEmpty(edges[k].targets)
  {
    seq(|edges|, k requires 0 <= k < |edges| => IdentityGroup(edges[k], k))
  }

  /** When every input edge has both endpoint lists, the identity coupling
      wraps exactly the edges the graph constructor builds, one per group,
      in the same order and with the same ids. */
  lemma IdentityWrapsConstructorEdges(nodes: seq<InputNode>, edges: seq<InputEdge>)
    requires forall e :: e in edges ==> HasEndpoints(e)
    ensures var built := Build(nodes, edges).edges;
      var r := ComputeCouplingIdentity(nodes, edges);
      && |built| == |r|
      && forall k :: 0 <= k < |r| ==> r[k].underlyingEdges == [built[k]]
  {
    FilterKeepsAll(edges, HasEndpoints);
  }

  /** When an edge without endpoints precedes an unnamed one, the two
      numberings part: the identity coupling names the second input edge
      `edge-1` (its raw index), the constructor names it `edge-0` (its index
      among the kept edges), and keeps no group for the first. */
  lemma IdentityNumbersRawIndex()
    ensures var edges := [InputEdge(None, None, Some(["b"])), InputEdge(None, Some(["a"]), Some(["b"]))];
      && ComputeCouplingIdentity([], edges)[1].underlyingEdges == [Edge("edge-1", ["a"], ["b"])]
      && Build([], edges).edges == [Edge("edge-0", ["a"], ["b"])]
  {
    var edges := [InputEdge(None, None, Some(["b"])), InputEdge(None, Some(["a"]), Some(["b"]))];
    assert DigitChar(0) == '0' && DigitChar(1) == '1';
    assert EdgeId(None, 0) == "edge-0" && EdgeId(None, 1) == "edge-1";
    assert Filter(edges[1..], HasEndpoints) == [edges[1]];
    assert Filter(edges, HasEndpoints) == [edges[1]];
    assert ComputeCouplingIdentity([], edges)[1] == IdentityGroup(edges[1], 1);
  }

  // ---------------------------------------------------------------------
  // COUPLING_ALGORITHMS and applyCouplingAlgorithm
  // ---------------------------------------------------------------------

  /** The `compute` function an entry refers to. */
  datatype Strategy = Identity | ProductiveExpiries

  /** `CouplingAlgorithm` */
  datatype CouplingAlgorithm = CouplingAlgorithm(name: string, description: string, compute: Strategy)

  /** `COUPLING_ALGORITHMS`, as its own keys. */
  const CouplingAlgorithms: map<string, CouplingAlgorithm> := map[
    "none" := CouplingAlgorithm("None (Original)", "Show original edges without coupling", Identity),
    "productive-expiries" := CouplingAlgorithm("Productive Expiries", "Maximal coupling based on minimal productive expiries", ProductiveExpiries)
  ]

  /** What `algorithm.compute(nodes, edges)` returns. */
  function Compute(strategy: Strategy, nodes: seq<InputNode>, edges: seq<InputEdge>): seq<CoupledEdgeResult> {
    match strategy
    case Identity => ComputeCouplingIdentity(nodes, edges)
    case ProductiveExpiries => Coupling.Coupling(Build(nodes, edges))
  }

  datatype Result<T> = Success(value: T) | Failure(error: string)

  /** The outcome `applyCouplingAlgorithm` should have: the registered
      algorithm's result, or the unknown-algorithm error. */
  function Applied(algorithmId: string, nodes: seq<InputNode>, edges: seq<InputEdge>): (r: Result<seq<CoupledEdgeResult>>)
    ensures r.Failure? <==> algorithmId != "none" && algorithmId != "productive-expiries"
    ensures r.Failure? ==> r.error == "Unknown coupling algorithm: " + algorithmId
    ensures algorithmId == "none" ==> r == Success(ComputeCouplingIdentity(nodes, edges))
    ensures algorithmId == "productive-expiries" ==> r == Success(Coupling.Coupling(Build(nodes, edges)))
  {
    if algorithmId in CouplingAlgorithms then Success(Compute(CouplingAlgorithms[algorithmId].compute, nodes, edges))
    else Failure("Unknown coupling algorithm: " + algorithmId)
  }

  /** `applyCouplingAlgorithm(algorithmId, nodes, edges)`, looking the id up
      among the registry's own keys only; the thrown `Error` is `Failure`. */
  method ApplyCouplingAlgorithm(algorithmId: string, nodes: seq<InputNode>, edges: seq<InputEdge>)
    returns (r: Result<seq<CoupledEdgeResult>>)
    ensures r == Applied(algorithmId, nodes, edges)
  {
    if algorithmId !in CouplingAlgorithms {
      return Failure("Unknown coupling algorithm: " + algorithmId);
    }
    var algorithm := CouplingAlgorithms[algorithmId];
    match algorithm.compute
    case Identity =>
      r := Success(ComputeCouplingIdentity(nodes, edges));
    case ProductiveExpiries =>
      var groups := ComputeCouplingProductiveExpiries(nodes, edges);
      r := Success(groups);
  }

  /** The registry holds exactly two algorithms: `none`, the identity
      coupling, and `productive-expiries`, with their display names. */
  lemma RegisteredAlgorithms()
    ensures CouplingAlgorithms.Keys == {"none", "productive-expiries"}
    ensures CouplingAlgorithms["none"].name == "None (Original)"
    ensures CouplingAlgorithms["none"].compute == Identity
    ensures CouplingAlgorithms["productive-expiries"].name == "Productive Expiries"
    ensures CouplingAlgorithms["productive-expiries"].compute == ProductiveExpiries
  {
  }

  /** `frontier-expiries` has no registry entry, so applying it fails with
      the unknown-algorithm error even on an empty graph. */
  lemma FrontierExpiriesIsUnknown(nodes: seq<InputNode>, edges: seq<InputEdge>)
    ensures Applied("frontier-expiries", nodes, edges) == Failure("Unknown coupling algorithm: frontier-expiries")
  {
  }

  /** Both registered algorithms map an empty graph to no groups. */
  lemma EmptyGraphHasNoGroups(algorithmId: string)
    requires algorithmId in CouplingAlgorithms
    ensures Applied(algorithmId, [], []) == Success([])
  {
    var g := Build([], []);
    assert g.edges == [];
  }

  // ---------------------------------------------------------------------
  // The lookup as written
  // ---------------------------------------------------------------------

  /** The names a plain JavaScript object inherits from `Object.prototype`;
      indexing `COUPLING_ALGORITHMS` by one of them yields a function or an
      object, never `undefined`. */
  const ObjectPrototypeMembers: set<string> := {
    "constructor", "hasOwnProperty", "isPrototypeOf", "propertyIsEnumerable",
    "toLocaleString", "toString", "valueOf", "__proto__",
    "__defineGetter__", "__defineSetter__", "__lookupGetter__", "__lookupSetter__"
  }

  /** The value of `COUPLING_ALGORITHMS[algorithmId]`. */
  datatype Lookup = Registered(algorithm: CouplingAlgorithm) | Inherited | Undefined

  function LookupAsWritten(algorithmId: string): (v: Lookup)
    ensures v.Undefined? <==> algorithmId !in CouplingAlgorithms && algorithmId !in ObjectPrototypeMembers
  {
    if algorithmId in CouplingAlgorithms then Registered(CouplingAlgorithms[algorithmId])
    else if algorithmId in ObjectPrototypeMembers then Inherited
    else Undefined
  }

  /** What `applyCouplingAlgorithm` does as written: the `!algorithm` guard
      lets an inherited member through, and calling its missing `compute`
      throws a `TypeError` instead of the unknown-algorithm error. */
  function ApplyAsWritten(algorithmId: string, nodes: seq<InputNode>, edges: seq<InputEdge>): (r: Result<seq<CoupledEdgeResult>>)
    ensures algorithmId in CouplingAlgorithms ==> r == Applied(algorithmId, nodes, edges)
    ensures algorithmId !in ObjectPrototypeMembers ==> r == Applied(algorithmId, nodes, edges)
  {
    match LookupAsWritten(algorithmId)
    case Undefined => Failure("Unknown coupling algorithm: " + algorithmId)
    case Inherited => Failure("TypeError: algorithm.compute is not a function")
    case Registered(algorithm) => Success(Compute(algorithm.compute, nodes, edges))
  }

  /** `"toString"` is no registered algorithm, yet the guard lets it pass and
      the call fails with a different error than the unknown-algorithm one. */
  lemma InheritedNamePassesGuard()
    ensures "toString" !in CouplingAlgorithms
    ensures LookupAsWritten("toString") == Inherited
    ensures ApplyAsWritten("toString", [], []) != Applied("toString", [], [])
  {
  }
}
