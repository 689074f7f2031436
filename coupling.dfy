/** The productive-expiries coupling (src-js/coupling-algorithms.ts:268-302).
    `couple(g)` walks the minimal productive frontiers of `g`; for each it
    emits one coupled edge made of the frontier's expiry edges, then couples
    what is left once the frontier is removed. `Coupling` is that recursion
    on snapshots; the method `Couple` runs it on the class and is proved to
    return the same groups. */
module Coupling {
  import opened Graphs
  import opened Frontiers
  import opened CoupledEdges
  import opened Hypergraph

  /** `CoupledEdgeResult` without its optional `frontier` field; `kind` is the
      source's `type`. */
  datatype CoupledEdgeResult = CoupledEdgeResult(
    kind: string,
    underlyingEdges: seq<Edge>,
    sources: seq<string>,
    targets: seq<string>)

  /** The result pushed for one frontier: its expiry edges and their boundary. */
  function Group(es: seq<Edge>): CoupledEdgeResult {
    CoupledEdgeResult("coupled", es, BoundarySources(es), BoundaryTargets(es))
  }

  /** Every frontier of `fs` is a productive expiry of `g`. */
  predicate AllProductive(g: Graph, fs: seq<seq<string>>) {
    forall f :: f in fs ==> IsProductiveExpiry(g, f)
  }

  /** `couple(g)` on a snapshot. */
  function Coupling(g: Graph): seq<CoupledEdgeResult>
    decreases |g.edges|, 2, 0
  {
    if IsEmpty(g) then [] else CouplingOver(g, MinimalProductiveFrontiers(g))
  }

  /** What the `for` loop of `couple(g)` has accumulated after visiting the
      frontiers `fs`. */
  function CouplingOver(g: Graph, fs: seq<seq<string>>): seq<CoupledEdgeResult>
    requires AllProductive(g, fs)
    decreases |g.edges|, 1, |fs|
  {
    if fs == [] then [] else CouplingOver(g, fs[..|fs| - 1]) + CoupleAt(g, fs[|fs| - 1])
  }

  /** One turn of that loop, for the frontier `f`: the group of its expiry
      edges when there are any, followed by the coupling of the graph
      without it. */
  function CoupleAt(g: Graph, f: seq<string>): seq<CoupledEdgeResult>
    requires IsProductiveExpiry(g, f)
    decreases |g.edges|, 0, 0
  {
    var expiryEdges := ExpiryEdges(g, f);
    ProductiveRemovesAnEdge(g, f);
    (if |expiryEdges| > 0 then [Group(expiryEdges)] else []) + Coupling(Remove(g, f))
  }

  /** `couple(g)`: the loop accumulates into `result`. */
  method Couple(g: HypergraphForCoupling) returns (result: seq<CoupledEdgeResult>)
    requires g.Valid()
    ensures result == Coupling(g.Snapshot())
    decreases |g.edges|, 1
  {
    if IsEmpty(g.Snapshot()) {
      return [];
    }
    ghost var snap := g.Snapshot();
    result := [];
    var minimalFrontiers := g.GetMinimalProductiveFrontiers();
    var i := 0;
    while i < |minimalFrontiers|
      invariant 0 <= i <= |minimalFrontiers|
      invariant AllProductive(snap, minimalFrontiers[..i])
      invariant result == CouplingOver(snap, minimalFrontiers[..i])
    {
      var frontier := minimalFrontiers[i];
      CouplingOverSnoc(snap, minimalFrontiers, i);
      var groups := CoupleFrontier(g, frontier);
      result := result + groups;
      i := i + 1;
    }
    assert minimalFrontiers[..i] == minimalFrontiers;
  }

  /** Extending the visited prefix by one frontier appends its turn. */
  lemma CouplingOverSnoc(g: Graph, fs: seq<seq<string>>, i: nat)
    requires i < |fs| && AllProductive(g, fs)
    ensures AllProductive(g, fs[..i + 1]) && IsProductiveExpiry(g, fs[i])
    ensures CouplingOver(g, fs[..i + 1]) == CouplingOver(g, fs[..i]) + CoupleAt(g, fs[i])
  {
    assert fs[..i + 1][..i] == fs[..i];
  }

  /** The body of the loop of `couple`: the group for `frontier`, then the
      recursive call on a clone with the frontier removed. */
  method CoupleFrontier(g: HypergraphForCoupling, frontier: seq<string>) returns (groups: seq<CoupledEdgeResult>)
    requires g.Valid() && IsProductiveExpiry(g.Snapshot(), frontier)
    ensures groups == CoupleAt(g.Snapshot(), frontier)
    decreases |g.edges|, 0
  {
    groups := [];
    var expiryEdges := ExpiryEdges(g.Snapshot(), frontier);
    if |expiryEdges| > 0 {
      var coupled := new CoupledEdge(expiryEdges);
      groups := [CoupledEdgeResult("coupled", expiryEdges, coupled.sources, coupled.targets)];
    }
    var remainingGraph := g.Clone();
    remainingGraph.RemoveNodes(frontier);
    ProductiveRemovesAnEdge(g.Snapshot(), frontier);
    var recursiveResult := Couple(remainingGraph);
    groups := groups + recursiveResult;
  }

  /** `computeCouplingProductiveExpiries(nodes, edges)` */
  method ComputeCouplingProductiveExpiries(nodes: seq<InputNode>, edges: seq<InputEdge>)
    returns (result: seq<CoupledEdgeResult>)
    ensures result == Coupling(Build(nodes, edges))
  {
    var graph := new HypergraphForCoupling(nodes, edges);
    result := Couple(graph);
  }

  // ---------------------------------------------------------------------
  // Properties of the coupling
  // ---------------------------------------------------------------------

  /** A productive expiry always expires some edge: its removal drops an
      edge, and the dropped edges are exactly the expiry edges. So the
      `expiryEdges.length > 0` test of `couple` never fails. */
  lemma ProductiveExpiryHasEdges(g: Graph, f: seq<string>)
    requires IsProductiveExpiry(g, f)
    ensures |ExpiryEdges(g, f)| > 0
  {
    ProductiveRemovesAnEdge(g, f);
    RemoveSplitsEdges(g, f);
  }

  /** The edges `es` are the expiry edges of a minimal productive frontier of `g`. */
  ghost predicate MinimalExpiry(g: Graph, es: seq<Edge>) {
    exists f :: f in MinimalProductiveFrontiers(g) && es == ExpiryEdges(g, f)
  }

  /** The edges `es` are the expiry edges of a minimal productive frontier
      of `g` once some nodes have been removed from it. */
  ghost predicate ExpiresTogether(g: Graph, es: seq<Edge>) {
    exists removed: seq<string> :: MinimalExpiry(Remove(g, removed), es)
  }

  /** A group `couple(g)` may emit: its kind is `coupled`, its boundary is
      the `CoupledEdge` boundary of its edges, and its edges are non-empty,
      edges of `g`, and expire together. */
  ghost predicate IsCoupledGroup(g: Graph, c: CoupledEdgeResult) {
    && c == Group(c.underlyingEdges)
    && c.underlyingEdges != []
    && (forall e :: e in c.underlyingEdges ==> e in g.edges)
    && ExpiresTogether(g, c.underlyingEdges)
  }

  /** Every group `couple(g)` emits is a coupled group of `g`. */
  lemma CouplingGroups(g: Graph)
    ensures forall c :: c in Coupling(g) ==> IsCoupledGroup(g, c)
  {
    RemoveNothing(g);
    CouplingGroupsAfter(g, []);
  }

  /** The same for the coupling of what is left of `g0` once `removed` is
      removed: its groups are coupled groups of `g0` itself. */
  lemma {:induction false} CouplingGroupsAfter(g0: Graph, removed: seq<string>)
    ensures forall c :: c in Coupling(Remove(g0, removed)) ==> IsCoupledGroup(g0, c)
    decreases |Remove(g0, removed).edges|, 2, 0
  {
    var g := Remove(g0, removed);
    if !IsEmpty(g) {
      CouplingOverGroupsAfter(g0, removed, MinimalProductiveFrontiers(g));
    }
  }

  lemma {:induction false} CouplingOverGroupsAfter(g0: Graph, removed: seq<string>, fs: seq<seq<string>>)
    requires AllProductive(Remove(g0, removed), fs)
    requires forall f :: f in fs ==> f in MinimalProductiveFrontiers(Remove(g0, removed))
    ensures forall c :: c in CouplingOver(Remove(g0, removed), fs) ==> IsCoupledGroup(g0, c)
    decreases |Remove(g0, removed).edges|, 1, |fs|
  {
    if fs != [] {
      var init := fs[..|fs| - 1];
      assert forall x :: x in init ==> x in fs;
      CouplingOverGroupsAfter(g0, removed, init);
      CoupleAtGroupsAfter(g0, removed, fs[|fs| - 1]);
    }
  }

  lemma {:induction false} CoupleAtGroupsAfter(g0: Graph, removed: seq<string>, f: seq<string>)
    requires f in MinimalProductiveFrontiers(Remove(g0, removed))
    ensures forall c :: c in CoupleAt(Remove(g0, removed), f) ==> IsCoupledGroup(g0, c)
    decreases |Remove(g0, removed).edges|, 0, 0
  {
    CoupleAtAfter(g0, removed, f);
    ExpiryGroupIsCoupled(g0, removed, f);
    CouplingGroupsAfter(g0, removed + f);
  }

  /** Removing a minimal productive frontier after `removed` is removing
      `removed + f` from `g0`, and it leaves fewer edges. */
  lemma CoupleAtAfter(g0: Graph, removed: seq<string>, f: seq<string>)
    requires f in MinimalProductiveFrontiers(Remove(g0, removed))
    ensures |Remove(g0, removed + f).edges| < |Remove(g0, removed).edges|
    ensures var g := Remove(g0, removed);
      var ex := ExpiryEdges(g, f);
      CoupleAt(g, f) == (if |ex| > 0 then [Group(ex)] else []) + Coupling(Remove(g0, removed + f))
  {
    RemoveTwice(g0, removed, f);
    ProductiveRemovesAnEdge(Remove(g0, removed), f);
  }

  /** The group a minimal productive frontier contributes is a coupled group. */
  lemma ExpiryGroupIsCoupled(g0: Graph, removed: seq<string>, f: seq<string>)
    requires f in MinimalProductiveFrontiers(Remove(g0, removed))
    ensures IsCoupledGroup(g0, Group(ExpiryEdges(Remove(g0, removed), f)))
  {
    var g := Remove(g0, removed);
    ProductiveExpiryHasEdges(g, f);
    assert MinimalExpiry(g, ExpiryEdges(g, f));
  }

  /** For every minimal productive frontier `f` of a graph with edges,
      `couple(g)` emits the group of `f`'s expiry edges and everything
      `couple` emits for the graph without `f`. */
  lemma CouplingVisitsEveryMinimal(g: Graph, f: seq<string>)
    requires !IsEmpty(g) && f in MinimalProductiveFrontiers(g)
    ensures Group(ExpiryEdges(g, f)) in Coupling(g)
    ensures forall c :: c in Coupling(Remove(g, f)) ==> c in Coupling(g)
  {
    CouplingOverVisits(g, MinimalProductiveFrontiers(g), f);
  }

  /** The loop, after visiting `fs`, holds the group and the recursive
      coupling of every frontier in `fs`. */
  lemma {:induction false} CouplingOverVisits(g: Graph, fs: seq<seq<string>>, f: seq<string>)
    requires AllProductive(g, fs) && f in fs
    ensures IsProductiveExpiry(g, f)
    ensures Group(ExpiryEdges(g, f)) in CouplingOver(g, fs)
    ensures forall c :: c in Coupling(Remove(g, f)) ==> c in CouplingOver(g, fs)
    decreases |fs|
  {
    var init, last := fs[..|fs| - 1], fs[|fs| - 1];
    var prev := CouplingOver(g, init);
    assert CouplingOver(g, fs) == prev + CoupleAt(g, last);
    if f == last {
      ProductiveExpiryHasEdges(g, f);
      assert Group(ExpiryEdges(g, f)) in CoupleAt(g, f);
    } else {
      assert f in init by {
        var i :| 0 <= i < |fs| && fs[i] == f;
        assert i < |fs| - 1 && init[i] == f;
      }
      assert AllProductive(g, init) by {
        forall x | x in init ensures IsProductiveExpiry(g, x) {
          assert x in fs;
        }
      }
      CouplingOverVisits(g, init, f);
    }
  }

  /** Conversely, everything `couple(g)` emits is the group of some minimal
      productive frontier `f` of `g`, or something the coupling of `g`
      without `f` emits. */
  lemma CouplingOnlyFromMinimal(g: Graph, c: CoupledEdgeResult)
    requires c in Coupling(g)
    ensures !IsEmpty(g)
    ensures exists f :: f in MinimalProductiveFrontiers(g) && (c == Group(ExpiryEdges(g, f)) || c in Coupling(Remove(g, f)))
  {
    CouplingOverOnly(g, MinimalProductiveFrontiers(g), c);
  }

  /** What the loop has accumulated after visiting `fs` comes from the
      group or the recursive coupling of one of those frontiers. */
  lemma {:induction false} CouplingOverOnly(g: Graph, fs: seq<seq<string>>, c: CoupledEdgeResult)
    requires AllProductive(g, fs) && c in CouplingOver(g, fs)
    ensures exists f :: f in fs && IsProductiveExpiry(g, f) && (c == Group(ExpiryEdges(g, f)) || c in Coupling(Remove(g, f)))
    decreases |fs|
  {
    assert fs != [];
    var init, last := fs[..|fs| - 1], fs[|fs| - 1];
    assert AllProductive(g, init) by {
      forall x | x in init ensures IsProductiveExpiry(g, x) {
        assert x in fs;
      }
    }
    assert CouplingOver(g, fs) == CouplingOver(g, init) + CoupleAt(g, last);
    if c in CouplingOver(g, init) {
      CouplingOverOnly(g, init, c);
      var f :| f in init && IsProductiveExpiry(g, f) && (c == Group(ExpiryEdges(g, f)) || c in Coupling(Remove(g, f)));
      assert f in fs;
    } else {
      assert c in CoupleAt(g, last);
      assert last in fs;
    }
  }

  /** `couple(g)` returns nothing exactly when `g` has no edges or no
      minimal productive frontier; otherwise it emits at least one group. */
  lemma CouplingIsEmptyIff(g: Graph)
    ensures Coupling(g) == [] <==> IsEmpty(g) || MinimalProductiveFrontiers(g) == []
  {
    var fs := MinimalProductiveFrontiers(g);
    if !IsEmpty(g) && fs != [] {
      var f := fs[|fs| - 1];
      ProductiveExpiryHasEdges(g, f);
      assert Group(ExpiryEdges(g, f)) in CoupleAt(g, f);
    }
  }
}
