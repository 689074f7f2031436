/** The class `HypergraphForCoupling` (src-js/coupling-algorithms.ts:67-252):
    the node set and the edge list are fields that `removeNodes` reassigns in
    place. The members that loop or work on a clone are methods here, each
    proved equal to the function on snapshots that specifies it; the
    filter/some queries are the functions of `Graphs` and `Frontiers`
    applied to `Snapshot()`. */
module Hypergraph {
  import opened Seqs
  import opened Graphs
  import opened Reachability
  import opened Frontiers

  /** `Array.from(this.nodes).map(id => ({ id }))` */
  function ExportNodes(nodes: seq<string>): (r: seq<InputNode>)
    ensures |r| == |nodes|
    ensures forall i :: 0 <= i < |nodes| ==> r[i].id == nodes[i]
  {
    seq(|nodes|, i requires 0 <= i < |nodes| => InputNode(nodes[i]))
  }

  /** `this.edges.map(e => ({...e}))`: every copy carries all three fields. */
  function ExportEdges(edges: seq<Edge>): (r: seq<InputEdge>)
    ensures |r| == |edges|
    ensures forall i :: 0 <= i < |edges| ==>
      r[i] == InputEdge(Some(edges[i].id), Some(edges[i].sources), Some(edges[i].targets))
  {
    seq(|edges|, i requires 0 <= i < |edges| =>
      InputEdge(Some(edges[i].id), Some(edges[i].sources), Some(edges[i].targets)))
  }

  /** Rebuilding a well-formed snapshot from its exported nodes and edges
      gives the snapshot back: the node ids are already distinct, every
      edge keeps its endpoints, and no id is empty, so none is replaced. */
  lemma BuildInvertsExport(g: Graph)
    requires WellFormed(g)
    ensures Build(ExportNodes(g.nodes), ExportEdges(g.edges)) == g
  {
    var ns, es := ExportNodes(g.nodes), ExportEdges(g.edges);
    assert NodeIds(ns) == g.nodes;
    DedupOfDistinct(g.nodes);
    assert forall x :: x in es ==> HasEndpoints(x);
    FilterKeepsAll(es, HasEndpoints);
    var r := InternalEdges(es);
    forall k | 0 <= k < |r| ensures r[k] == g.edges[k] {
      assert g.edges[k] in g.edges;
    }
  }

  /** The frontiers the outer loop of `getAllFrontiers()` has collected
      before it reaches bitmask `i`. */
  function FrontiersBefore(g: Graph, i: nat): seq<seq<string>>
    requires 1 <= i <= Pow2(|g.nodes|)
  {
    Filter(Candidates(g.nodes)[..i - 1], IsFrontierOf(g))
  }

  /** One turn of the outer loop: the subset of bitmask `i` is appended
      exactly when it is a frontier. */
  lemma FrontiersBeforeStep(g: Graph, i: nat)
    requires 1 <= i < Pow2(|g.nodes|)
    ensures var subset := Select(g.nodes, i, |g.nodes|);
      FrontiersBefore(g, i + 1) == FrontiersBefore(g, i) + (if IsFrontier(g, subset) then [subset] else [])
  {
    var cands := Candidates(g.nodes);
    assert cands[..i] == cands[..i - 1] + [cands[i - 1]];
    FilterAppend(cands[..i - 1], [cands[i - 1]], IsFrontierOf(g));
  }

  /** A closed set holding `x` holds every target `x` feeds. */
  lemma FedStaysBelow(es: seq<Edge>, D: set<string>, x: string)
    requires x in D && Closed(es, D)
    ensures FedBy(es, x) <= D
  {
    forall t | t in FedBy(es, x) ensures t in D {
      var e :| e in es && x in e.sources && t in e.targets;
      assert FiresFrom(e, D);
    }
  }

  /** Visiting one more edge adds its targets when it fires from `x`. */
  lemma FedByStep(es: seq<Edge>, i: nat, x: string)
    requires i < |es|
    ensures FedBy(es[..i + 1], x) == FedBy(es[..i], x) + (if x in es[i].sources then Elems(es[i].targets) else {})
  {
    assert es[..i + 1][..i] == es[..i];
  }

  /** The worklist invariant survives one visit: every node on the list is
      in the set, and every node of the set that is off the list has had
      the targets it feeds added. */
  lemma VisitKeepsWorklist(es: seq<Edge>, current: string,
                           d0: set<string>, t0: seq<string>, d1: set<string>, t1: seq<string>)
    requires forall x :: x in t0 + [current] ==> x in d0
    requires forall x :: x in d0 && x !in t0 + [current] ==> FedBy(es, x) <= d0
    requires d1 == d0 + FedBy(es, current)
    requires forall x :: x in t1 <==> x in t0 || x in d1 - d0
    ensures forall x :: x in t1 ==> x in d1
    ensures forall x :: x in d1 && x !in t1 ==> FedBy(es, x) <= d1
  {
    forall x | x in d1 && x !in t1 ensures FedBy(es, x) <= d1 {
      if x != current {
        assert x !in t0 + [current];
      }
    }
  }

  /** Once every node of `S` has had the targets it feeds added, `S` is closed. */
  lemma ExpandedIsClosed(es: seq<Edge>, S: set<string>)
    requires forall x :: x in S ==> FedBy(es, x) <= S
    ensures Closed(es, S)
  {
    forall e, t | e in es && FiresFrom(e, S) && t in e.targets ensures t in S {
      var s :| s in e.sources && s in S;
      assert t in FedBy(es, s);
    }
  }

  class HypergraphForCoupling {
    var nodes: seq<string>
    var edges: seq<Edge>

    /** The current state, as a value. */
    function Snapshot(): Graph
      reads this
    {
      Graph(nodes, edges)
    }

    ghost predicate Valid()
      reads this
    {
      WellFormed(Snapshot())
    }

    /** `new HypergraphForCoupling(nodes, edges)` */
    constructor (inputNodes: seq<InputNode>, inputEdges: seq<InputEdge>)
      ensures Snapshot() == Build(inputNodes, inputEdges)
      ensures Valid()
    {
      nodes := Dedup(NodeIds(inputNodes));
      edges := InternalEdges(inputEdges);
    }

    /** `clone()`: a fresh graph with the same nodes and edges, built by the constructor. */
    method Clone() returns (c: HypergraphForCoupling)
      requires Valid()
      ensures fresh(c)
      ensures c.Snapshot() == Snapshot()
      ensures c.Valid()
    {
      var ns := ExportNodes(nodes);
      var es := ExportEdges(edges);
      BuildInvertsExport(Snapshot());
      c := new HypergraphForCoupling(ns, es);
    }

    /** `removeNodes(nodeSet)`: both fields are replaced, nothing else changes. */
    method RemoveNodes(nodeSet: seq<string>)
      modifies this
      ensures Snapshot() == Remove(old(Snapshot()), nodeSet)
      ensures old(Valid()) ==> Valid()
    {
      ghost var before := Snapshot();
      var nodesToRemove := Elems(nodeSet);
      nodes := Filter(nodes, NotIn(nodesToRemove));
      edges := Filter(edges, AvoidsSet(nodesToRemove));
      if WellFormed(before) {
        RemoveWellFormed(before, nodeSet);
      }
    }

    /** `getDescendants(nodeId)`: the worklist loop computes the closure. */
    method GetDescendants(nodeId: string) returns (descendants: set<string>)
      ensures descendants == Descendants(edges, nodeId)
    {
      ClosureGrows(edges, {nodeId});
      ClosureIsClosed(edges, {nodeId});
      descendants := Worklist(nodeId, Descendants(edges, nodeId));
      ClosureIsLeast(edges, {nodeId}, descendants);
    }

    /** The loop of `getDescendants`, run inside any closed set `D` that
        holds the start node: it ends with a closed set between the two. */
    method Worklist(nodeId: string, ghost D: set<string>) returns (descendants: set<string>)
      requires nodeId in D && Closed(edges, D)
      ensures nodeId in descendants && descendants <= D
      ensures Closed(edges, descendants)
    {
      descendants := {nodeId};
      var toVisit := [nodeId];
      while |toVisit| > 0
        invariant nodeId in descendants && descendants <= D
        invariant forall x :: x in toVisit ==> x in descendants
        invariant forall x :: x in descendants && x !in toVisit ==> FedBy(edges, x) <= descendants
        decreases |D - descendants|, |toVisit|
      {
        ghost var before := toVisit;
        var current := toVisit[|toVisit| - 1];
        toVisit := toVisit[..|toVisit| - 1];
        ghost var d0, t0 := descendants, toVisit;
        assert t0 + [current] == before;
        FedStaysBelow(edges, D, current);
        descendants, toVisit := VisitNode(current, descendants, toVisit);
        VisitKeepsWorklist(edges, current, d0, t0, descendants, toVisit);
        if descendants != d0 {
          ProperSubsetCardinality(D - descendants, D - d0);
        }
      }
      ExpandedIsClosed(edges, descendants);
    }

    /** One turn of the worklist loop after `current` is popped: the
        `forEach` over the edges adds every target fed by `current`, and
        pushes exactly the ones that were new. */
    method VisitNode(current: string, d: set<string>, tv: seq<string>)
      returns (descendants: set<string>, toVisit: seq<string>)
      ensures descendants == d + FedBy(edges, current)
      ensures forall x :: x in toVisit <==> x in tv || x in descendants - d
      ensures descendants == d ==> toVisit == tv
    {
      descendants, toVisit := d, tv;
      var i := 0;
      while i < |edges|
        invariant 0 <= i <= |edges|
        invariant descendants == d + FedBy(edges[..i], current)
        invariant forall x :: x in toVisit <==> x in tv || x in descendants - d
        invariant descendants == d ==> toVisit == tv
      {
        var e := edges[i];
        FedByStep(edges, i, current);
        if current in e.sources {
          descendants, toVisit := VisitTargets(e.targets, descendants, toVisit, d, tv);
        }
        i := i + 1;
      }
      assert edges[..i] == edges;
    }

    /** `e.targets.forEach(...)`: each target not yet in the set is added
        and pushed. */
    static method VisitTargets(targets: seq<string>, d1: set<string>, t1: seq<string>,
                               ghost d: set<string>, ghost tv: seq<string>)
      returns (descendants: set<string>, toVisit: seq<string>)
      requires d <= d1
      requires forall x :: x in t1 <==> x in tv || x in d1 - d
      requires d1 == d ==> t1 == tv
      ensures descendants == d1 + Elems(targets)
      ensures forall x :: x in toVisit <==> x in tv || x in descendants - d
      ensures descendants == d ==> toVisit == tv
    {
      descendants, toVisit := d1, t1;
      var j := 0;
      while j < |targets|
        invariant 0 <= j <= |targets|
        invariant descendants == d1 + Elems(targets[..j])
        invariant forall x :: x in toVisit <==> x in tv || x in descendants - d
        invariant descendants == d ==> toVisit == tv
      {
        var t := targets[j];
        assert targets[..j + 1] == targets[..j] + [t];
        if t !in descendants {
          descendants := descendants + {t};
          toVisit := toVisit + [t];
        }
        j := j + 1;
      }
      assert targets[..j] == targets;
    }

    /** `getUnblockedNodes(frontier)`: works on a clone, so the receiver is
        left as it was (the method modifies nothing). */
    method GetUnblockedNodes(frontier: seq<string>) returns (r: seq<string>)
      requires Valid()
      ensures r == UnblockedNodes(Snapshot(), frontier)
    {
      var frontierSet := Elems(frontier);
      var graph := Clone();
      graph.RemoveNodes(frontier);
      var originalBlocked := Blocked(Snapshot());
      var newLeaves := Leaves(graph.Snapshot());
      r := Filter(originalBlocked, Unblocks(frontierSet, newLeaves));
    }

    /** `getAllFrontiers()`: the outer loop runs over the bitmasks
        `1 .. 2^n - 1`, the inner loop collects the nodes whose bit is set. */
    method GetAllFrontiers() returns (frontiers: seq<seq<string>>)
      ensures frontiers == AllFrontiers(Snapshot())
    {
      var ns := nodes;
      frontiers := [];
      var numSubsets := Pow2(|ns|);
      var i := 1;
      while i < numSubsets
        invariant 1 <= i <= numSubsets
        invariant frontiers == FrontiersBefore(Snapshot(), i)
      {
        var subset := [];
        var j := 0;
        while j < |ns|
          invariant 0 <= j <= |ns|
          invariant subset == Select(ns, i, j)
        {
          if Bit(i, j) {
            subset := subset + [ns[j]];
          }
          j := j + 1;
        }
        FrontiersBeforeStep(Snapshot(), i);
        if IsFrontier(Snapshot(), subset) {
          frontiers := frontiers + [subset];
        }
        i := i + 1;
      }
      assert Candidates(ns)[..i - 1] == Candidates(ns);
    }

    /** `getMinimalProductiveFrontiers()`: the enumerated frontiers, filtered
        to the productive ones and then to those with no smaller productive
        subset. (The source's `f1 === f2` shortcut is subsumed by the length
        test, which already rejects `f2 == f1`.) */
    method GetMinimalProductiveFrontiers() returns (r: seq<seq<string>>)
      ensures r == MinimalProductiveFrontiers(Snapshot())
    {
      var allFrontiers := GetAllFrontiers();
      var productiveFrontiers := Filter(allFrontiers, IsProductiveIn(Snapshot()));
      r := Filter(productiveFrontiers, NoSmallerIn(productiveFrontiers));
    }
  }
}
