/** The reflexive-transitive descendant closure behind `getDescendants`
    (src-js/coupling-algorithms.ts:129-149), defined as a fixpoint over sets:
    start from a set of nodes and keep adding every target of every edge one
    of whose sources is already in the set, until nothing changes. */
module Reachability {
  import opened Seqs
  import opened Graphs

  /** Some source of `e` lies in `S` (`e.sources.includes(current)` for a current node of `S`). */
  predicate FiresFrom(e: Edge, S: set<string>) {
    exists s :: s in e.sources && s in S
  }

  /** A set is closed when it holds every target of every edge that fires from it. */
  ghost predicate Closed(es: seq<Edge>, S: set<string>) {
    forall e, t :: e in es && FiresFrom(e, S) && t in e.targets ==> t in S
  }

  /** Every node that can appear in a closure besides its start: the edge targets. */
  function TargetSet(es: seq<Edge>): set<string> {
    Elems(Targets(es))
  }

  /** The targets reached from `S` in one step. */
  function Successors(es: seq<Edge>, S: set<string>): (r: set<string>)
    ensures r <= TargetSet(es)
    ensures forall e, t :: e in es && FiresFrom(e, S) && t in e.targets ==> t in r
  {
    set e, t | e in es && FiresFrom(e, S) && t in e.targets :: t
  }

  /** The targets of the edges that have `x` among their sources: what the
      worklist of `getDescendants` adds when it visits `x`. */
  function FedBy(es: seq<Edge>, x: string): (r: set<string>)
    ensures forall t :: t in r <==> exists e :: e in es && x in e.sources && t in e.targets
  {
    if es == [] then {}
    else
      var init, last := es[..|es| - 1], es[|es| - 1];
      assert forall e :: e in es <==> e in init || e == last;
      FedBy(init, x) + (if x in last.sources then Elems(last.targets) else {})
  }

  /** The least closed superset of `S`, reached by adding successors until a fixpoint. */
  function ClosureFrom(es: seq<Edge>, S: set<string>): (r: set<string>)
    decreases |TargetSet(es) - S|
  {
    var next := S + Successors(es, S);
    if next == S then S
    else
      StepShrinks(es, S);
      ClosureFrom(es, next)
  }

  /** A step that adds a node brings the closure nearer its bound. */
  lemma StepShrinks(es: seq<Edge>, S: set<string>)
    requires S + Successors(es, S) != S
    ensures |TargetSet(es) - (S + Successors(es, S))| < |TargetSet(es) - S|
  {
    var U, next := TargetSet(es), S + Successors(es, S);
    assert U - next < U - S by {
      assert !(next <= S);
      var x :| x in next && x !in S;
      assert x in U - S;
    }
    ProperSubsetCardinality(U - next, U - S);
  }

  /** `getDescendants(n)`: `n` and every node reachable from it along edges. */
  function Descendants(es: seq<Edge>, n: string): set<string> {
    ClosureFrom(es, {n})
  }

  lemma {:induction false} ClosureGrows(es: seq<Edge>, S: set<string>)
    ensures S <= ClosureFrom(es, S) <= S + TargetSet(es)
    decreases |TargetSet(es) - S|
  {
    var next := S + Successors(es, S);
    if next != S {
      StepShrinks(es, S);
      ClosureGrows(es, next);
    }
  }

  lemma {:induction false} ClosureIsClosed(es: seq<Edge>, S: set<string>)
    ensures Closed(es, ClosureFrom(es, S))
    decreases |TargetSet(es) - S|
  {
    var next := S + Successors(es, S);
    if next != S {
      StepShrinks(es, S);
      ClosureIsClosed(es, next);
    }
  }

  lemma {:induction false} ClosureIsLeast(es: seq<Edge>, S: set<string>, C: set<string>)
    requires S <= C && Closed(es, C)
    ensures ClosureFrom(es, S) <= C
    decreases |TargetSet(es) - S|
  {
    var next := S + Successors(es, S);
    if next != S {
      StepShrinks(es, S);
      forall t | t in Successors(es, S) ensures t in C {
        var e :| e in es && FiresFrom(e, S) && t in e.targets;
        assert FiresFrom(e, C);
      }
      ClosureIsLeast(es, next, C);
    }
  }

  /** `getDescendants(n)` is the least closed set that contains `n`: it holds
      `n`, it is closed under the edges, and every closed set holding `n`
      includes it. Apart from `n` it holds edge targets only. */
  lemma DescendantsAreLeastClosed(es: seq<Edge>, n: string)
    ensures n in Descendants(es, n)
    ensures Closed(es, Descendants(es, n))
    ensures forall C :: n in C && Closed(es, C) ==> Descendants(es, n) <= C
    ensures Descendants(es, n) <= {n} + TargetSet(es)
  {
    ClosureGrows(es, {n});
    ClosureIsClosed(es, {n});
    forall C | n in C && Closed(es, C) ensures Descendants(es, n) <= C {
      ClosureIsLeast(es, {n}, C);
    }
  }

  /** The least closed set holding `n` is unique: any set with the three
      properties is `Descendants(es, n)`. */
  lemma LeastClosedIsDescendants(es: seq<Edge>, n: string, D: set<string>)
    requires n in D && Closed(es, D)
    requires forall C :: n in C && Closed(es, C) ==> D <= C
    ensures D == Descendants(es, n)
  {
    DescendantsAreLeastClosed(es, n);
  }
}
