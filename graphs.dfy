/** The data of `HypergraphForCoupling` (src-js/coupling-algorithms.ts): the
    input records, the internal edge, a graph snapshot, how the constructor
    builds a snapshot from the input, and the structural queries that are
    plain filter/some expressions over the snapshot. */
module Graphs {
  import opened Seqs

  datatype Option<T> = None | Some(value: T)

  /** An input node; the rendering fields (`x`, `y`, `place`, ...) are not modelled. */
  datatype InputNode = InputNode(id: string)

  /** An input edge: `id`, `sources` and `targets` may each be absent. */
  datatype InputEdge = InputEdge(id: Option<string>, sources: Option<seq<string>>, targets: Option<seq<string>>)

  /** `InternalEdge`: an edge once the graph has been built. */
  datatype Edge = Edge(id: string, sources: seq<string>, targets: seq<string>)

  /** The state of one `HypergraphForCoupling`: its node set, kept in the
      insertion order of the JavaScript `Set`, and its edge list. */
  datatype Graph = Graph(nodes: seq<string>, edges: seq<Edge>)

  /** What every graph built by the constructor satisfies: a node occurs
      once, and every edge has a non-empty id. */
  ghost predicate WellFormed(g: Graph) {
    Distinct(g.nodes) && forall e :: e in g.edges ==> e.id != ""
  }

  // ---------------------------------------------------------------------
  // Edge ids: `e.id || \`edge-${idx}\``
  // ---------------------------------------------------------------------

  function DigitChar(d: nat): (c: char)
    requires d < 10
    ensures '0' <= c <= '9'
  {
    "0123456789"[d]
  }

  /** The decimal numeral of `n`, as a template literal prints it. */
  function NatToString(n: nat): (r: string)
    ensures |r| > 0
    ensures forall i :: 0 <= i < |r| ==> '0' <= r[i] <= '9'
    decreases n
  {
    if n < 10 then [DigitChar(n)] else NatToString(n / 10) + [DigitChar(n % 10)]
  }

  /** Reads a numeral back; the inverse of `NatToString`. */
  ghost function DecimalValue(s: string): nat
    decreases |s|
  {
    if s == [] then 0
    else
      var c := s[|s| - 1];
      DecimalValue(s[..|s| - 1]) * 10 + (if '0' <= c <= '9' then c as int - '0' as int else 0)
  }

  lemma {:induction false} DecimalRoundTrip(n: nat)
    ensures DecimalValue(NatToString(n)) == n
    decreases n
  {
    var s := NatToString(n);
    if n < 10 {
      assert s[..0] == [];
      assert DigitChar(n) as int - '0' as int == n;
    } else {
      DecimalRoundTrip(n / 10);
      var d := n % 10;
      assert s[..|s| - 1] == NatToString(n / 10);
      assert DigitChar(d) as int - '0' as int == d;
    }
  }

  /** Two synthesized ids `edge-<j>` and `edge-<k>` differ when `j` and `k` differ. */
  lemma SynthesizedIdsDiffer(j: nat, k: nat)
    requires j != k
    ensures "edge-" + NatToString(j) != "edge-" + NatToString(k)
  {
    if "edge-" + NatToString(j) == "edge-" + NatToString(k) {
      var a, b := "edge-" + NatToString(j), "edge-" + NatToString(k);
      assert a[5..] == NatToString(j) && b[5..] == NatToString(k);
      DecimalRoundTrip(j);
      DecimalRoundTrip(k);
    }
  }

  /** `e.id || \`edge-${idx}\``: an empty or absent id is replaced. */
  function EdgeId(id: Option<string>, idx: nat): (r: string)
    ensures r != ""
    ensures id.Some? && id.value != "" ==> r == id.value
  {
    if id.Some? && id.value != "" then id.value else "edge-" + NatToString(idx)
  }

  /** `e.sources || []` (and likewise for targets). */
  function OrEmpty(xs: Option<seq<string>>): seq<string> {
    if xs.Some? then xs.value else []
  }

  // ---------------------------------------------------------------------
  // Construction
  // ---------------------------------------------------------------------

  /** The constructor's filter `e => e.sources && e.targets` (an array,
      even an empty one, is truthy; only a missing field is not). */
  predicate HasEndpoints(e: InputEdge) {
    e.sources.Some? && e.targets.Some?
  }

  predicate LacksEndpoints(e: InputEdge) {
    !HasEndpoints(e)
  }

  /** `nodes.map(n => n.id)` */
  function NodeIds(nodes: seq<InputNode>): (r: seq<string>)
    ensures |r| == |nodes|
    ensures forall i :: 0 <= i < |nodes| ==> r[i] == nodes[i].id
  {
    seq(|nodes|, i requires 0 <= i < |nodes| => nodes[i].id)
  }

  /** The constructor's `edges.filter(...).map((e, idx) => ...)`: the index
      used for a synthesized id is the position in the filtered list. */
  function InternalEdges(input: seq<InputEdge>): (r: seq<Edge>)
    ensures |r| == |Filter(input, HasEndpoints)|
    ensures forall k :: 0 <= k < |r| ==> r[k].id != ""
  {
    var kept := Filter(input, HasEndpoints);
    seq(|kept|, k requires 0 <= k < |kept| =>
      Edge(EdgeId(kept[k].id, k), OrEmpty(kept[k].sources), OrEmpty(kept[k].targets)))
  }

  /** The snapshot the constructor `new HypergraphForCoupling(nodes, edges)` builds. */
  function Build(nodes: seq<InputNode>, edges: seq<InputEdge>): (g: Graph)
    ensures WellFormed(g)
    ensures Elems(g.nodes) == set n | n in nodes :: n.id
  {
    var ids := NodeIds(nodes);
    assert forall x :: x in ids <==> exists n :: n in nodes && n.id == x by {
      forall x | x in ids ensures exists n :: n in nodes && n.id == x {
        var i :| 0 <= i < |ids| && ids[i] == x;
        assert nodes[i] in nodes;
      }
      forall n | n in nodes ensures n.id in ids {
        var i :| 0 <= i < |nodes| && nodes[i] == n;
        assert ids[i] == n.id;
      }
    }
    Graph(Dedup(ids), InternalEdges(edges))
  }

  /** The constructor keeps exactly the input edges that have both a
      `sources` and a `targets` field, in their order, with their endpoint
      lists unchanged; an absent or empty id becomes `edge-<k>` where `k` is
      the position among the kept edges. */
  lemma ConstructorKeepsEdgesWithEndpoints(input: seq<InputEdge>)
    ensures var kept := Filter(input, HasEndpoints);
            var r := InternalEdges(input);
            && Interleaves(input, kept, Filter(input, LacksEndpoints))
            && |r| == |kept|
            && (forall k :: 0 <= k < |r| ==>
                  && HasEndpoints(kept[k])
                  && r[k].sources == kept[k].sources.value
                  && r[k].targets == kept[k].targets.value
                  && (kept[k].id.Some? && kept[k].id.value != "" ==> r[k].id == kept[k].id.value)
                  && (kept[k].id.None? || kept[k].id.value == "" ==> r[k].id == "edge-" + NatToString(k)))
  {
    FilterSplits(input, HasEndpoints, LacksEndpoints);
    var kept := Filter(input, HasEndpoints);
    assert forall k :: 0 <= k < |kept| ==> HasEndpoints(kept[k]) by {
      forall k | 0 <= k < |kept| ensures HasEndpoints(kept[k]) {
        assert kept[k] in kept;
      }
    }
  }

  /** Two kept edges that both lack a non-empty id get different
      synthesized ids. */
  lemma SynthesizedIdsDistinct(input: seq<InputEdge>)
    ensures var kept, r := Filter(input, HasEndpoints), InternalEdges(input);
      forall j, k ::
        && 0 <= j < k < |r|
        && (kept[j].id.None? || kept[j].id.value == "")
        && (kept[k].id.None? || kept[k].id.value == "")
        ==> r[j].id != r[k].id
  {
    ConstructorKeepsEdgesWithEndpoints(input);
    var kept, r := Filter(input, HasEndpoints), InternalEdges(input);
    forall j, k |
      && 0 <= j < k < |r|
      && (kept[j].id.None? || kept[j].id.value == "")
      && (kept[k].id.None? || kept[k].id.value == "")
      ensures r[j].id != r[k].id
    {
      SynthesizedIdsDiffer(j, k);
    }
  }

  // ---------------------------------------------------------------------
  // Sources, targets, leaves and blocked nodes
  // ---------------------------------------------------------------------

  /** Every source of every edge, in the order the `forEach` loops visit them. */
  function Sources(es: seq<Edge>): (r: seq<string>)
    ensures forall x :: x in r <==> exists e :: e in es && x in e.sources
  {
    if es == [] then []
    else
      var init := es[..|es| - 1];
      assert forall e :: e in es <==> e in init || e == es[|es| - 1];
      Sources(init) + es[|es| - 1].sources
  }

  /** Every target of every edge, in the order the `forEach` loops visit them. */
  function Targets(es: seq<Edge>): (r: seq<string>)
    ensures forall x :: x in r <==> exists e :: e in es && x in e.targets
  {
    if es == [] then []
    else
      var init := es[..|es| - 1];
      assert forall e :: e in es <==> e in init || e == es[|es| - 1];
      Targets(init) + es[|es| - 1].targets
  }

  /** `getLeafNodes()`: the nodes that are a source of no edge. */
  function Leaves(g: Graph): (r: set<string>)
    ensures r <= Elems(g.nodes)
    ensures forall n :: n in r <==> n in g.nodes && forall e :: e in g.edges ==> n !in e.sources
  {
    set n | n in g.nodes && n !in Sources(g.edges)
  }

  /** The callback `x => !excluded.has(x)`. */
  function NotIn(excluded: set<string>): string -> bool {
    x => x !in excluded
  }

  /** `getBlockedNodes()`: the nodes, in order, that are not leaves. */
  function Blocked(g: Graph): (r: seq<string>)
    ensures Elems(r) == Elems(g.nodes) - Leaves(g)
    ensures forall n :: n in r <==> n in g.nodes && exists e :: e in g.edges && n in e.sources
  {
    Filter(g.nodes, NotIn(Leaves(g)))
  }

  // ---------------------------------------------------------------------
  // Removing nodes, expiry edges
  // ---------------------------------------------------------------------

  /** `e.sources.some(s => S.has(s)) || e.targets.some(t => S.has(t))` */
  predicate Touches(e: Edge, S: set<string>) {
    (exists s :: s in e.sources && s in S) || (exists t :: t in e.targets && t in S)
  }

  function TouchesSet(S: set<string>): Edge -> bool {
    e => Touches(e, S)
  }

  function AvoidsSet(S: set<string>): Edge -> bool {
    e => !Touches(e, S)
  }

  /** The snapshot `removeNodes(nodeSet)` leaves: the nodes not in the set,
      and the edges with no source and no target in it. */
  function Remove(g: Graph, nodeSet: seq<string>): (h: Graph)
    ensures Elems(h.nodes) == Elems(g.nodes) - Elems(nodeSet)
    ensures forall e :: e in h.edges <==> e in g.edges && !Touches(e, Elems(nodeSet))
  {
    var S := Elems(nodeSet);
    Graph(Filter(g.nodes, NotIn(S)), Filter(g.edges, AvoidsSet(S)))
  }

  /** `getExpiryEdges(frontier)`: the edges, in order, with a source or a
      target in the frontier. */
  function ExpiryEdges(g: Graph, frontier: seq<string>): (r: seq<Edge>)
    ensures forall e :: e in r <==> e in g.edges && Touches(e, Elems(frontier))
  {
    Filter(g.edges, TouchesSet(Elems(frontier)))
  }

  /** `isEmpty()` */
  predicate IsEmpty(g: Graph) {
    |g.edges| == 0
  }

  /** Removing `S` keeps exactly the old edges, in order, that avoid `S`;
      the expiry edges of `S` are exactly the others, in order: the edge
      list is the order-preserving merge of the two. The node set loses
      exactly `S`, keeps its order, and stays duplicate-free. */
  lemma {:induction false} RemoveSplitsEdges(g: Graph, S: seq<string>)
    ensures Interleaves(g.edges, Remove(g, S).edges, ExpiryEdges(g, S))
    ensures |Remove(g, S).edges| + |ExpiryEdges(g, S)| == |g.edges|
    ensures Distinct(g.nodes) ==> Distinct(Remove(g, S).nodes)
  {
    var X := Elems(S);
    FilterSplits(g.edges, AvoidsSet(X), TouchesSet(X));
    InterleavesLength(g.edges, Remove(g, S).edges, ExpiryEdges(g, S));
    if Distinct(g.nodes) {
      FilterDistinct(g.nodes, NotIn(X));
    }
  }

  lemma {:induction false} InterleavesLength(s: seq<Edge>, a: seq<Edge>, b: seq<Edge>)
    requires Interleaves(s, a, b)
    ensures |a| + |b| == |s|
    decreases |s|
  {
    if s != [] {
      if a != [] && a[0] == s[0] && Interleaves(s[1..], a[1..], b) {
        InterleavesLength(s[1..], a[1..], b);
      } else {
        InterleavesLength(s[1..], a, b[1..]);
      }
    }
  }

  /** Removing nodes keeps a graph well formed. */
  lemma RemoveWellFormed(g: Graph, S: seq<string>)
    requires WellFormed(g)
    ensures WellFormed(Remove(g, S))
  {
    FilterDistinct(g.nodes, NotIn(Elems(S)));
  }

  /** Removing nothing changes nothing. */
  lemma RemoveNothing(g: Graph)
    ensures Remove(g, []) == g
  {
    assert Elems<string>([]) == {};
    FilterKeepsAll(g.nodes, NotIn({}));
    FilterKeepsAll(g.edges, AvoidsSet({}));
  }

  /** Removing `A` and then `B` is removing `A + B` at once. */
  lemma RemoveTwice(g: Graph, A: seq<string>, B: seq<string>)
    ensures Remove(Remove(g, A), B) == Remove(g, A + B)
  {
    var a, b := Elems(A), Elems(B);
    assert Elems(A + B) == a + b;
    FilterFilter(g.nodes, NotIn(a), NotIn(b), NotIn(a + b));
    FilterFilter(g.edges, AvoidsSet(a), AvoidsSet(b), AvoidsSet(a + b));
  }

  /** The result of `removeNodes` depends on the removed nodes only as a set. */
  lemma RemoveBySet(g: Graph, S: seq<string>, T: seq<string>)
    requires Elems(S) == Elems(T)
    ensures Remove(g, S) == Remove(g, T) && ExpiryEdges(g, S) == ExpiryEdges(g, T)
  {
  }
}
