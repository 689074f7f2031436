/** `CoupledEdge` (src-js/coupling-algorithms.ts:36-55): the boundary of a
    group of edges. Its sources are the nodes that some edge of the group
    consumes and no edge of the group produces; its targets are the nodes
    some edge produces and none consumes. */
module CoupledEdges {
  import opened Seqs
  import opened Graphs

  /** `Array.from(allSources).filter(s => !allTargets.has(s))`: the group's
      sources that are no edge's target, in order of first appearance. */
  function BoundarySources(es: seq<Edge>): (r: seq<string>)
    ensures forall x :: x in r <==>
      (exists e :: e in es && x in e.sources) && !(exists e :: e in es && x in e.targets)
    ensures Distinct(r)
  {
    var r := Filter(Dedup(Sources(es)), NotIn(Elems(Targets(es))));
    FilterDistinct(Dedup(Sources(es)), NotIn(Elems(Targets(es))));
    r
  }

  /** `Array.from(allTargets).filter(t => !allSources.has(t))`: the group's
      targets that are no edge's source, in order of first appearance. */
  function BoundaryTargets(es: seq<Edge>): (r: seq<string>)
    ensures forall x :: x in r <==>
      (exists e :: e in es && x in e.targets) && !(exists e :: e in es && x in e.sources)
    ensures Distinct(r)
  {
    var r := Filter(Dedup(Targets(es)), NotIn(Elems(Sources(es))));
    FilterDistinct(Dedup(Targets(es)), NotIn(Elems(Sources(es))));
    r
  }

  /** The boundary as sets: sources are all sources minus all targets,
      targets are all targets minus all sources, so no node is both. */
  lemma BoundaryIsSetDifference(es: seq<Edge>)
    ensures Elems(BoundarySources(es)) == Elems(Sources(es)) - Elems(Targets(es))
    ensures Elems(BoundaryTargets(es)) == Elems(Targets(es)) - Elems(Sources(es))
    ensures Elems(BoundarySources(es)) !! Elems(BoundaryTargets(es))
  {
  }

  /** Adding to a JavaScript `Set` kept as its insertion-ordered contents. */
  lemma DedupSnoc(s: seq<string>, x: string)
    ensures Dedup(s + [x]) == if x in Dedup(s) then Dedup(s) else Dedup(s) + [x]
  {
    assert (s + [x])[..|s|] == s;
  }

  lemma SourcesSnoc(es: seq<Edge>, i: nat)
    requires i < |es|
    ensures Sources(es[..i + 1]) == Sources(es[..i]) + es[i].sources
    ensures Targets(es[..i + 1]) == Targets(es[..i]) + es[i].targets
  {
    assert es[..i + 1][..i] == es[..i];
  }

  /** One `set.add(xs[j])` extends the set built from `prefix + xs[..j]`. */
  lemma AddStep(prefix: seq<string>, xs: seq<string>, j: nat)
    requires j < |xs|
    ensures var d := Dedup(prefix + xs[..j]);
      Dedup(prefix + xs[..j + 1]) == if xs[j] in d then d else d + [xs[j]]
  {
    assert prefix + xs[..j + 1] == (prefix + xs[..j]) + [xs[j]];
    DedupSnoc(prefix + xs[..j], xs[j]);
  }

  /** `xs.forEach(x => set.add(x))` on a `Set` whose insertion-ordered
      contents are `acc`, the set built from `prefix`. */
  method AddAll(ghost prefix: seq<string>, acc: seq<string>, xs: seq<string>) returns (r: seq<string>)
    requires acc == Dedup(prefix)
    ensures r == Dedup(prefix + xs)
  {
    r := acc;
    assert prefix + xs[..0] == prefix;
    var j := 0;
    while j < |xs|
      invariant 0 <= j <= |xs|
      invariant r == Dedup(prefix + xs[..j])
    {
      var x := xs[j];
      AddStep(prefix, xs, j);
      if x !in r {
        r := r + [x];
      }
      j := j + 1;
    }
    assert xs[..j] == xs;
  }

  class CoupledEdge {
    var underlyingEdges: seq<Edge>
    var sources: seq<string>
    var targets: seq<string>

    /** `new CoupledEdge(underlyingEdges)`: the `forEach` loops fill the two
        sets, which then filter each other. */
    constructor (underlyingEdges: seq<Edge>)
      ensures this.underlyingEdges == underlyingEdges
      ensures sources == BoundarySources(underlyingEdges)
      ensures targets == BoundaryTargets(underlyingEdges)
    {
      this.underlyingEdges := underlyingEdges;
      var es := underlyingEdges;
      var allSources: seq<string> := [];
      var allTargets: seq<string> := [];
      var i := 0;
      while i < |es|
        invariant 0 <= i <= |es|
        invariant allSources == Dedup(Sources(es[..i]))
        invariant allTargets == Dedup(Targets(es[..i]))
      {
        var edge := es[i];
        SourcesSnoc(es, i);
        allSources := AddAll(Sources(es[..i]), allSources, edge.sources);
        allTargets := AddAll(Targets(es[..i]), allTargets, edge.targets);
        i := i + 1;
      }
      assert es[..i] == es;
      assert Elems(allTargets) == Elems(Targets(es));
      assert Elems(allSources) == Elems(Sources(es));
      sources := Filter(allSources, NotIn(Elems(allTargets)));
      targets := Filter(allTargets, NotIn(Elems(allSources)));
    }
  }
}
