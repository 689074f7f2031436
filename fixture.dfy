/** The example graph of src-js/coupling-algorithms.test.ts:29-43 (nodes
    `a`..`e`; `a` feeds `c` and `d`, `b` feeds `c`, `d` and `e`) and the
    values the queries of `HypergraphForCoupling` take on it. */
module Fixture {
  import opened Seqs
  import opened Graphs
  import opened Reachability
  import opened Frontiers

  /** Five pairwise distinct node names, in the roles of `a`..`e`. */
  predicate Distinct5(a: string, b: string, c: string, d: string, e: string) {
    a != b && a != c && a != d && a != e && b != c && b != d && b != e && c != d && c != e && d != e
  }

  /** The fixture's input nodes. */
  function TestNodes(a: string, b: string, c: string, d: string, e: string): seq<InputNode> {
    [InputNode(a), InputNode(b), InputNode(c), InputNode(d), InputNode(e)]
  }

  /** The fixture's input edges `ac`, `bc`, `ad`, `bd`, `be`. */
  function TestEdges(a: string, b: string, c: string, d: string, e: string): seq<InputEdge> {
    [InputEdge(Some("ac"), Some([a]), Some([c])),
     InputEdge(Some("bc"), Some([b]), Some([c])),
     InputEdge(Some("ad"), Some([a]), Some([d])),
     InputEdge(Some("bd"), Some([b]), Some([d])),
     InputEdge(Some("be"), Some([b]), Some([e]))]
  }

  /** The graph the constructor is expected to build from them. */
  function G(a: string, b: string, c: string, d: string, e: string): Graph {
    Graph([a, b, c, d, e],
          [Edge("ac", [a], [c]), Edge("bc", [b], [c]), Edge("ad", [a], [d]),
           Edge("bd", [b], [d]), Edge("be", [b], [e])])
  }

  /** The constructor keeps the five nodes and the five edges as given. */
  lemma FixtureBuilt(a: string, b: string, c: string, d: string, e: string)
    requires Distinct5(a, b, c, d, e)
    ensures Build(TestNodes(a, b, c, d, e), TestEdges(a, b, c, d, e)) == G(a, b, c, d, e)
  {
    var g := G(a, b, c, d, e);
    assert Dedup(NodeIds(TestNodes(a, b, c, d, e))) == g.nodes by {
      assert NodeIds(TestNodes(a, b, c, d, e)) == g.nodes;
      DedupOfDistinct(g.nodes);
    }
    FixtureEdgesBuilt(a, b, c, d, e);
  }

  /** Every fixture edge has a name and both endpoint lists, so each is
      kept under its own name. */
  lemma FixtureEdgesBuilt(a: string, b: string, c: string, d: string, e: string)
    ensures InternalEdges(TestEdges(a, b, c, d, e)) == G(a, b, c, d, e).edges
  {
    var ins, es := TestEdges(a, b, c, d, e), G(a, b, c, d, e).edges;
    FixtureEdgesNamed(a, b, c, d, e);
    NamedEdgesKept(ins);
    var r := InternalEdges(ins);
    assert |r| == |es|;
    assert forall k :: 0 <= k < |r| ==> r[k] == es[k];
  }

  /** Each fixture edge is complete, and the built edge is its named copy. */
  lemma FixtureEdgesNamed(a: string, b: string, c: string, d: string, e: string)
    ensures var ins, es := TestEdges(a, b, c, d, e), G(a, b, c, d, e).edges;
      && |ins| == |es| == 5
      && forall k :: 0 <= k < 5 ==>
        && HasEndpoints(ins[k]) && ins[k].id.Some? && |ins[k].id.value| > 0
        && es[k] == Edge(ins[k].id.value, ins[k].sources.value, ins[k].targets.value)
  {
    var ins, es := TestEdges(a, b, c, d, e), G(a, b, c, d, e).edges;
    forall k | 0 <= k < 5
      ensures HasEndpoints(ins[k]) && ins[k].id.Some? && |ins[k].id.value| > 0
      ensures es[k] == Edge(ins[k].id.value, ins[k].sources.value, ins[k].targets.value)
    {
      if k == 0 {} else if k == 1 {} else if k == 2 {} else if k == 3 {}
    }
  }

  /** Input edges that all have a non-empty id and both endpoint lists are
      kept, in order, under their own ids. */
  lemma NamedEdgesKept(ins: seq<InputEdge>)
    requires forall k :: 0 <= k < |ins| ==> HasEndpoints(ins[k]) && ins[k].id.Some? && |ins[k].id.value| > 0
    ensures |InternalEdges(ins)| == |ins|
    ensures forall k :: 0 <= k < |ins| ==>
      InternalEdges(ins)[k] == Edge(ins[k].id.value, ins[k].sources.value, ins[k].targets.value)
  {
    KeepsAllByIndex(ins, HasEndpoints);
  }

  /** A node that is the source of no edge, edge by edge, is a leaf. */
  lemma LeafByIndex(g: Graph, x: string)
    requires x in g.nodes
    requires forall k :: 0 <= k < |g.edges| ==> x !in g.edges[k].sources
    ensures x in Leaves(g)
  {
    forall y | y in g.edges ensures x !in y.sources {
      var k :| 0 <= k < |g.edges| && g.edges[k] == y;
    }
  }

  /** `c`, `d` and `e` feed nothing. */
  lemma SinksAreLeaves(a: string, b: string, c: string, d: string, e: string)
    requires Distinct5(a, b, c, d, e)
    ensures c in Leaves(G(a, b, c, d, e)) && d in Leaves(G(a, b, c, d, e)) && e in Leaves(G(a, b, c, d, e))
  {
    LeafByIndex(G(a, b, c, d, e), c);
    LeafByIndex(G(a, b, c, d, e), d);
    LeafByIndex(G(a, b, c, d, e), e);
  }

  /** The leaves are `c`, `d`, `e`. */
  lemma FixtureLeaves(a: string, b: string, c: string, d: string, e: string)
    requires Distinct5(a, b, c, d, e)
    ensures Leaves(G(a, b, c, d, e)) == {c, d, e}
  {
    var g := G(a, b, c, d, e);
    SinksAreLeaves(a, b, c, d, e);
    var L := Leaves(g);
    assert a !in L by { assert a in g.edges[0].sources; }
    assert b !in L by { assert b in g.edges[1].sources; }
    forall x | x in L ensures x in {c, d, e} {
      assert x in g.nodes;
    }
  }

  /** The blocked nodes are `a`, `b`, in order. */
  lemma FixtureBlocked(a: string, b: string, c: string, d: string, e: string)
    requires Distinct5(a, b, c, d, e)
    ensures Blocked(G(a, b, c, d, e)) == [a, b]
  {
    var ns := G(a, b, c, d, e).nodes;
    var p := NotIn({c, d, e});
    BlockedHead(a, b, c, d, e);
    BlockedTail(a, b, c, d, e);
    FilterAt(ns, 2, p);
    FixtureLeaves(a, b, c, d, e);
  }

  /** `a` and `b` pass the filter `getBlockedNodes` applies. */
  lemma BlockedHead(a: string, b: string, c: string, d: string, e: string)
    requires Distinct5(a, b, c, d, e)
    ensures Filter(G(a, b, c, d, e).nodes[..2], NotIn({c, d, e})) == [a, b]
  {
    var ns := G(a, b, c, d, e).nodes;
    assert ns[..2] == [a, b];
    KeepsAllByIndex(ns[..2], NotIn({c, d, e}));
  }

  /** `c`, `d` and `e` do not. */
  lemma BlockedTail(a: string, b: string, c: string, d: string, e: string)
    ensures Filter(G(a, b, c, d, e).nodes[2..], NotIn({c, d, e})) == []
  {
    var ns := G(a, b, c, d, e).nodes;
    assert ns[2..] == [c, d, e];
    FilterNone(ns[2..], NotIn({c, d, e}));
  }

  /** A set that holds, edge by edge, the targets of every edge firing
      from it is closed. */
  lemma ClosedByIndex(es: seq<Edge>, S: set<string>)
    requires forall k :: 0 <= k < |es| && FiresFrom(es[k], S) ==> Elems(es[k].targets) <= S
    ensures Closed(es, S)
  {
    forall y, t | y in es && FiresFrom(y, S) && t in y.targets ensures t in S {
      var k :| 0 <= k < |es| && es[k] == y;
    }
  }

  /** A closed set holding a source of edge `k` holds all its targets. */
  lemma ClosedHoldsTargets(es: seq<Edge>, C: set<string>, k: nat, s: string)
    requires Closed(es, C) && k < |es| && s in es[k].sources && s in C
    ensures Elems(es[k].targets) <= C
  {
    assert FiresFrom(es[k], C);
  }

  /** `getDescendants(a)` is `{a, c, d}`: the least closed set holding `a`. */
  lemma DescendantsOfA(a: string, b: string, c: string, d: string, e: string)
    requires Distinct5(a, b, c, d, e)
    ensures Descendants(G(a, b, c, d, e).edges, a) == {a, c, d}
  {
    var es := G(a, b, c, d, e).edges;
    ClosedByIndex(es, {a, c, d});
    forall C | a in C && Closed(es, C) ensures {a, c, d} <= C {
      ClosedHoldsTargets(es, C, 0, a);
      ClosedHoldsTargets(es, C, 2, a);
    }
    LeastClosedIsDescendants(es, a, {a, c, d});
  }

  /** `getDescendants(b)` is `{b, c, d, e}`. */
  lemma DescendantsOfB(a: string, b: string, c: string, d: string, e: string)
    requires Distinct5(a, b, c, d, e)
    ensures Descendants(G(a, b, c, d, e).edges, b) == {b, c, d, e}
  {
    var es := G(a, b, c, d, e).edges;
    ClosedByIndex(es, {b, c, d, e});
    forall C | b in C && Closed(es, C) ensures {b, c, d, e} <= C {
      ClosedHoldsTargets(es, C, 1, b);
      ClosedHoldsTargets(es, C, 3, b);
      ClosedHoldsTargets(es, C, 4, b);
    }
    LeastClosedIsDescendants(es, b, {b, c, d, e});
  }

  /** The sets the test expects to be frontiers: each is closed. */
  lemma FixtureFrontiers(a: string, b: string, c: string, d: string, e: string)
    requires Distinct5(a, b, c, d, e)
    ensures var g := G(a, b, c, d, e);
      IsFrontier(g, [c, d]) && IsFrontier(g, [c, d, e]) && IsFrontier(g, [a, c, d])
      && IsFrontier(g, [c]) && IsFrontier(g, [d]) && IsFrontier(g, [e])
  {
    var g := G(a, b, c, d, e);
    SinkSetIsFrontier(a, b, c, d, e, [c, d]);
    SinkSetIsFrontier(a, b, c, d, e, [c, d, e]);
    SinkSetIsFrontier(a, b, c, d, e, [c]);
    SinkSetIsFrontier(a, b, c, d, e, [d]);
    SinkSetIsFrontier(a, b, c, d, e, [e]);
    ClosedByIndex(g.edges, Elems([a, c, d]));
    FrontierIffClosed(g, [a, c, d]);
  }

  /** A set of nodes none of which is `a` or `b` fires no edge, so it is
      closed and a frontier. */
  lemma SinkSetIsFrontier(a: string, b: string, c: string, d: string, e: string, f: seq<string>)
    requires Distinct5(a, b, c, d, e)
    requires a !in f && b !in f
    ensures IsFrontier(G(a, b, c, d, e), f)
  {
    var g := G(a, b, c, d, e);
    ClosedByIndex(g.edges, Elems(f));
    FrontierIffClosed(g, f);
  }

  /** `a` alone and `b` alone are no frontiers: each feeds `c`. */
  lemma FixtureNonFrontiers(a: string, b: string, c: string, d: string, e: string)
    requires Distinct5(a, b, c, d, e)
    ensures !IsFrontier(G(a, b, c, d, e), [a]) && !IsFrontier(G(a, b, c, d, e), [b])
  {
    var g := G(a, b, c, d, e);
    FrontierIffClosed(g, [a]);
    NotClosedByIndex(g.edges, Elems([a]), 0, a, c);
    FrontierIffClosed(g, [b]);
    NotClosedByIndex(g.edges, Elems([b]), 1, b, c);
  }

  /** An edge firing from `S` with a target outside `S` leaves `S` open. */
  lemma NotClosedByIndex(es: seq<Edge>, S: set<string>, k: nat, s: string, t: string)
    requires k < |es| && s in es[k].sources && s in S && t in es[k].targets && t !in S
    ensures !Closed(es, S)
  {
    assert es[k] in es && FiresFrom(es[k], S);
  }

  /** A blocked node all of whose edges, edge by edge, touch the frontier
      is unblocked by it. */
  lemma UnblockedByIndex(g: Graph, frontier: seq<string>, n: string, k0: nat)
    requires n in g.nodes && n !in frontier
    requires k0 < |g.edges| && n in g.edges[k0].sources
    requires forall k :: 0 <= k < |g.edges| && n in g.edges[k].sources ==> Touches(g.edges[k], Elems(frontier))
    ensures n in UnblockedNodes(g, frontier)
  {
    assert g.edges[k0] in g.edges;
    forall y | y in g.edges && n in y.sources ensures Touches(y, Elems(frontier)) {
      var k :| 0 <= k < |g.edges| && g.edges[k] == y;
    }
  }

  /** With two blocked nodes, the unblocked ones are those of the two
      that the characterization admits, in the same order. */
  lemma UnblockedOfPair(g: Graph, frontier: seq<string>, x: string, y: string)
    requires Blocked(g) == [x, y] && x != y
    ensures var r := UnblockedNodes(g, frontier);
      r == (if x in r then [x] else []) + (if y in r then [y] else [])
  {
    FilterPair(x, y, Unblocks(Elems(frontier), Leaves(Remove(g, frontier))));
  }

  /** Expiring `c, d` expires both edges of `a`. */
  lemma CDUnblocksA(a: string, b: string, c: string, d: string, e: string)
    requires Distinct5(a, b, c, d, e)
    ensures a in UnblockedNodes(G(a, b, c, d, e), [c, d])
  {
    var g := G(a, b, c, d, e);
    var S := Elems([c, d]);
    assert c in S && d in S;
    assert Touches(g.edges[0], S) by { assert c in g.edges[0].targets; }
    assert Touches(g.edges[2], S) by { assert d in g.edges[2].targets; }
    UnblockedByIndex(g, [c, d], a, 0);
  }

  /** Expiring `c, d` leaves the edge `be`, so `b` stays blocked. */
  lemma CDKeepsBBlocked(a: string, b: string, c: string, d: string, e: string)
    requires Distinct5(a, b, c, d, e)
    ensures b !in UnblockedNodes(G(a, b, c, d, e), [c, d])
  {
    var g := G(a, b, c, d, e);
    var S := Elems([c, d]);
    assert b !in S && e !in S;
    assert g.edges[4].sources == [b] && g.edges[4].targets == [e];
    assert !Touches(g.edges[4], S);
    assert g.edges[4] in g.edges && b in g.edges[4].sources;
  }

  /** Expiring `c, d` unblocks `a` but not `b`, which still feeds `e`. */
  lemma UnblockedByCD(a: string, b: string, c: string, d: string, e: string)
    requires Distinct5(a, b, c, d, e)
    ensures UnblockedNodes(G(a, b, c, d, e), [c, d]) == [a]
    ensures IsProductiveExpiry(G(a, b, c, d, e), [c, d])
  {
    CDUnblocksA(a, b, c, d, e);
    CDKeepsBBlocked(a, b, c, d, e);
    FixtureBlocked(a, b, c, d, e);
    UnblockedOfPair(G(a, b, c, d, e), [c, d], a, b);
  }

  /** Expiring `c, d, e` expires every edge: each has its target in it. */
  lemma CDETouchesAll(a: string, b: string, c: string, d: string, e: string)
    requires Distinct5(a, b, c, d, e)
    ensures forall k :: 0 <= k < 5 ==> Touches(G(a, b, c, d, e).edges[k], Elems([c, d, e]))
  {
    var es := G(a, b, c, d, e).edges;
    var S := Elems([c, d, e]);
    assert c in S && d in S && e in S;
    forall k | 0 <= k < 5 ensures Touches(es[k], S) {
      assert es[k].targets[0] in S;
    }
  }

  /** Hence `a` is unblocked ... */
  lemma CDEUnblocksA(a: string, b: string, c: string, d: string, e: string)
    requires Distinct5(a, b, c, d, e)
    ensures a in UnblockedNodes(G(a, b, c, d, e), [c, d, e])
  {
    CDETouchesAll(a, b, c, d, e);
    UnblockedByIndex(G(a, b, c, d, e), [c, d, e], a, 0);
  }

  /** ... and so is `b`. */
  lemma CDEUnblocksB(a: string, b: string, c: string, d: string, e: string)
    requires Distinct5(a, b, c, d, e)
    ensures b in UnblockedNodes(G(a, b, c, d, e), [c, d, e])
  {
    CDETouchesAll(a, b, c, d, e);
    UnblockedByIndex(G(a, b, c, d, e), [c, d, e], b, 1);
  }

  /** Expiring `c, d, e` unblocks both `a` and `b`. */
  lemma UnblockedByCDE(a: string, b: string, c: string, d: string, e: string)
    requires Distinct5(a, b, c, d, e)
    ensures UnblockedNodes(G(a, b, c, d, e), [c, d, e]) == [a, b]
    ensures IsProductiveExpiry(G(a, b, c, d, e), [c, d, e])
  {
    CDEUnblocksA(a, b, c, d, e);
    CDEUnblocksB(a, b, c, d, e);
    FixtureBlocked(a, b, c, d, e);
    UnblockedOfPair(G(a, b, c, d, e), [c, d, e], a, b);
  }

  /** `getExpiryEdges([c, d])` is every edge but `be`, in order. */
  lemma FixtureExpiryEdges(a: string, b: string, c: string, d: string, e: string)
    requires Distinct5(a, b, c, d, e)
    ensures var g := G(a, b, c, d, e); ExpiryEdges(g, [c, d]) == g.edges[..4]
  {
    var es := G(a, b, c, d, e).edges;
    var S := Elems([c, d]);
    assert c in S && d in S && b !in S && e !in S;
    assert Touches(es[0], S) && Touches(es[1], S) by { assert c in es[0].targets && c in es[1].targets; }
    assert Touches(es[2], S) && Touches(es[3], S) by { assert d in es[2].targets && d in es[3].targets; }
    assert !Touches(es[4], S);
    var p := TouchesSet(S);
    FilterKeepsAll(es[..4], p);
    assert Filter([es[4]], p) == [];
    assert es == es[..4] + [es[4]];
    FilterAppend(es[..4], [es[4]], p);
  }
}
