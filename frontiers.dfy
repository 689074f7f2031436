/** Frontiers and productive expiries of a snapshot
    (src-js/coupling-algorithms.ts:151-235): the frontier test, the nodes a
    frontier unblocks, the enumeration of every frontier over bitmask
    subsets of the node list, and the minimal productive frontiers. */
module Frontiers {
  import opened Seqs
  import opened Graphs
  import opened Reachability

  // ---------------------------------------------------------------------
  // isFrontier
  // ---------------------------------------------------------------------

  /** `isFrontier(nodeSet)`: every node of the set has all its descendants in the set. */
  predicate IsFrontier(g: Graph, nodeSet: seq<string>) {
    forall n :: n in nodeSet ==> Descendants(g.edges, n) <= Elems(nodeSet)
  }

  /** A set is a frontier exactly when it is closed under the edges: it
      holds every target of every edge one of whose sources it holds. */
  lemma FrontierIffClosed(g: Graph, nodeSet: seq<string>)
    ensures IsFrontier(g, nodeSet) <==> Closed(g.edges, Elems(nodeSet))
  {
    var S := Elems(nodeSet);
    if IsFrontier(g, nodeSet) {
      forall e, t | e in g.edges && FiresFrom(e, S) && t in e.targets ensures t in S {
        var s :| s in e.sources && s in S;
        DescendantsAreLeastClosed(g.edges, s);
        assert FiresFrom(e, Descendants(g.edges, s));
      }
    }
    if Closed(g.edges, S) {
      forall n | n in nodeSet ensures Descendants(g.edges, n) <= S {
        DescendantsAreLeastClosed(g.edges, n);
      }
    }
  }

  // ---------------------------------------------------------------------
  // getUnblockedNodes, isProductiveExpiry
  // ---------------------------------------------------------------------

  /** The callback `n => !frontierSet.has(n) && newLeaves.has(n)`. */
  function Unblocks(frontierSet: set<string>, newLeaves: set<string>): string -> bool {
    n => n !in frontierSet && n in newLeaves
  }

  /** `getUnblockedNodes(frontier)`: the blocked nodes of `g`, in order, that
      are outside the frontier and are leaves once it is removed. */
  function UnblockedNodes(g: Graph, frontier: seq<string>): (r: seq<string>)
    ensures forall n :: n in r <==>
      && n in g.nodes
      && n !in frontier
      && (exists e :: e in g.edges && n in e.sources)
      && (forall e :: e in g.edges && n in e.sources ==> Touches(e, Elems(frontier)))
  {
    var after := Remove(g, frontier);
    var r := Filter(Blocked(g), Unblocks(Elems(frontier), Leaves(after)));
    assert forall n :: n in r <==> n in Blocked(g) && n !in frontier && n in Leaves(after);
    r
  }

  /** `isProductiveExpiry(frontier)` */
  predicate IsProductiveExpiry(g: Graph, frontier: seq<string>) {
    |UnblockedNodes(g, frontier)| > 0
  }

  /** A productive expiry is never empty, and it removes at least one edge:
      an unblocked node was the source of some edge, which the removal drops. */
  lemma ProductiveRemovesAnEdge(g: Graph, frontier: seq<string>)
    requires IsProductiveExpiry(g, frontier)
    ensures frontier != []
    ensures |Remove(g, frontier).edges| < |g.edges|
  {
    var n := UnblockedNodes(g, frontier)[0];
    assert n in UnblockedNodes(g, frontier);
    var e :| e in g.edges && n in e.sources;
    assert Touches(e, Elems(frontier));
    FilterDrops(g.edges, AvoidsSet(Elems(frontier)), e);
  }

  // ---------------------------------------------------------------------
  // getAllFrontiers: bitmask enumeration
  // ---------------------------------------------------------------------

  /** `Math.pow(2, n)`, as a natural number. */
  function Pow2(n: nat): (r: nat)
    ensures r >= 1
  {
    if n == 0 then 1 else 2 * Pow2(n - 1)
  }

  /** `i & (1 << j)` is non-zero: bit `j` of `i` is set. */
  predicate Bit(i: nat, j: nat) {
    if j == 0 then i % 2 == 1 else Bit(i / 2, j - 1)
  }

  /** The inner loop's `subset` after `k` steps: the first `k` nodes whose bit is set in `i`. */
  function Select(nodes: seq<string>, i: nat, k: nat): seq<string>
    requires k <= |nodes|
  {
    if k == 0 then [] else Select(nodes, i, k - 1) + (if Bit(i, k - 1) then [nodes[k - 1]] else [])
  }

  /** The subset of the node list that the bitmask `i` selects. */
  function Subset(nodes: seq<string>, i: nat): seq<string> {
    Select(nodes, i, |nodes|)
  }

  /** The subsets for `i = 1 .. 2^n - 1`, in the order the outer loop visits them. */
  function Candidates(nodes: seq<string>): (r: seq<seq<string>>)
    ensures |r| == Pow2(|nodes|) - 1
    ensures forall m :: 0 <= m < |r| ==> r[m] == Subset(nodes, m + 1)
  {
    seq(Pow2(|nodes|) - 1, m requires 0 <= m < Pow2(|nodes|) - 1 => Subset(nodes, m + 1))
  }

  /** The callback `subset => this.isFrontier(subset)`. */
  function IsFrontierOf(g: Graph): seq<string> -> bool {
    s => IsFrontier(g, s)
  }

  /** `getAllFrontiers()` */
  function AllFrontiers(g: Graph): seq<seq<string>> {
    Filter(Candidates(g.nodes), IsFrontierOf(g))
  }

  lemma {:induction false} SelectMembers(nodes: seq<string>, i: nat, k: nat)
    requires k <= |nodes|
    ensures forall x :: x in Select(nodes, i, k) <==> exists j :: 0 <= j < k && Bit(i, j) && nodes[j] == x
    ensures Distinct(nodes) ==> Distinct(Select(nodes, i, k))
  {
    if k > 0 {
      SelectMembers(nodes, i, k - 1);
      var prev := Select(nodes, i, k - 1);
      if Distinct(nodes) && Bit(i, k - 1) {
        assert nodes[k - 1] !in prev;
        var r := prev + [nodes[k - 1]];
        forall a, b | 0 <= a < b < |r| ensures r[a] != r[b] {
          if b == |r| - 1 {
            assert r[a] in prev;
          }
        }
      }
    }
  }

  lemma {:induction false} SomeBitSet(m: nat, n: nat)
    requires 1 <= m < Pow2(n)
    ensures exists j :: 0 <= j < n && Bit(m, j)
  {
    if m % 2 == 1 {
      assert Bit(m, 0);
    } else {
      SomeBitSet(m / 2, n - 1);
      var j :| 0 <= j < n - 1 && Bit(m / 2, j);
      assert Bit(m, j + 1);
    }
  }

  /** Every frontier `getAllFrontiers()` returns is a non-empty,
      duplicate-free subset of the nodes that passes `isFrontier`. */
  lemma AllFrontiersSound(g: Graph)
    requires Distinct(g.nodes)
    ensures forall f :: f in AllFrontiers(g) ==>
      && IsFrontier(g, f)
      && f != []
      && Elems(f) <= Elems(g.nodes)
      && Distinct(f)
  {
    var cands := Candidates(g.nodes);
    forall f | f in AllFrontiers(g)
      ensures IsFrontier(g, f) && f != [] && Elems(f) <= Elems(g.nodes) && Distinct(f)
    {
      var m :| 0 <= m < |cands| && cands[m] == f;
      SelectMembers(g.nodes, m + 1, |g.nodes|);
      SomeBitSet(m + 1, |g.nodes|);
      var j :| 0 <= j < |g.nodes| && Bit(m + 1, j);
      assert g.nodes[j] in f;
    }
  }

  /** The bitmask that selects exactly the nodes in `T`. */
  function MaskOf(nodes: seq<string>, T: set<string>): nat {
    if nodes == [] then 0 else (if nodes[0] in T then 1 else 0) + 2 * MaskOf(nodes[1..], T)
  }

  lemma {:induction false} MaskOfSelects(nodes: seq<string>, T: set<string>)
    ensures MaskOf(nodes, T) < Pow2(|nodes|)
    ensures forall j :: 0 <= j < |nodes| ==> (Bit(MaskOf(nodes, T), j) <==> nodes[j] in T)
  {
    if nodes != [] {
      var rest := nodes[1..];
      MaskOfSelects(rest, T);
      var m := MaskOf(nodes, T);
      assert m / 2 == MaskOf(rest, T);
      forall j | 0 <= j < |nodes| ensures Bit(m, j) <==> nodes[j] in T {
        if j > 0 {
          assert nodes[j] == rest[j - 1];
        }
      }
    }
  }

  lemma {:induction false} NoBitOfZero(j: nat)
    ensures !Bit(0, j)
  {
    if j > 0 {
      NoBitOfZero(j - 1);
    }
  }

  /** Every non-empty set of nodes closed under the edges is enumerated by
      `getAllFrontiers()`. */
  lemma AllFrontiersComplete(g: Graph, T: set<string>)
    requires T != {} && T <= Elems(g.nodes) && Closed(g.edges, T)
    ensures exists f :: f in AllFrontiers(g) && Elems(f) == T
  {
    var nodes := g.nodes;
    var m := MaskOf(nodes, T);
    MaskOfSelects(nodes, T);
    SelectMembers(nodes, m, |nodes|);
    var f := Subset(nodes, m);
    assert Elems(f) == T by {
      forall x | x in T ensures x in f {
        var j :| 0 <= j < |nodes| && nodes[j] == x;
        assert Bit(m, j);
      }
    }
    assert m >= 1 by {
      var x :| x in T;
      var j :| 0 <= j < |nodes| && nodes[j] == x;
      assert Bit(m, j);
      if m == 0 {
        NoBitOfZero(j);
      }
    }
    var cands := Candidates(nodes);
    assert cands[m - 1] == f;
    FrontierIffClosed(g, f);
    assert f in AllFrontiers(g);
  }

  /** Two different masks below `2^n` differ in some bit below `n`. */
  lemma {:induction false} MasksDiffer(i1: nat, i2: nat, n: nat)
    requires i1 < Pow2(n) && i2 < Pow2(n) && i1 != i2
    ensures exists j :: 0 <= j < n && Bit(i1, j) != Bit(i2, j)
  {
    if n == 0 {
      assert false;
    } else if i1 % 2 != i2 % 2 {
      assert Bit(i1, 0) != Bit(i2, 0);
    } else {
      MasksDiffer(i1 / 2, i2 / 2, n - 1);
      var j :| 0 <= j < n - 1 && Bit(i1 / 2, j) != Bit(i2 / 2, j);
      assert Bit(i1, j + 1) != Bit(i2, j + 1);
    }
  }

  /** Over duplicate-free nodes, node `j` is in the subset for mask `i`
      exactly when bit `j` of `i` is set. */
  lemma SelectedIffBit(nodes: seq<string>, i: nat, j: nat)
    requires Distinct(nodes) && j < |nodes|
    ensures nodes[j] in Subset(nodes, i) <==> Bit(i, j)
  {
    SelectMembers(nodes, i, |nodes|);
    if nodes[j] in Subset(nodes, i) {
      var j' :| 0 <= j' < |nodes| && Bit(i, j') && nodes[j'] == nodes[j];
      assert j' == j;
    }
  }

  /** Over duplicate-free nodes, different masks select different sets. */
  lemma SubsetsDiffer(nodes: seq<string>, i1: nat, i2: nat)
    requires Distinct(nodes)
    requires i1 < Pow2(|nodes|) && i2 < Pow2(|nodes|) && i1 != i2
    ensures Elems(Subset(nodes, i1)) != Elems(Subset(nodes, i2))
  {
    MasksDiffer(i1, i2, |nodes|);
    var j :| 0 <= j < |nodes| && Bit(i1, j) != Bit(i2, j);
    SelectedIffBit(nodes, i1, j);
    SelectedIffBit(nodes, i2, j);
    assert (nodes[j] in Elems(Subset(nodes, i1))) != (nodes[j] in Elems(Subset(nodes, i2)));
  }

  /** No set of nodes is listed twice in `fs`, not even in another order. */
  ghost predicate EachSetOnce(fs: seq<seq<string>>) {
    && Distinct(fs)
    && forall f1, f2 :: f1 in fs && f2 in fs && Elems(f1) == Elems(f2) ==> f1 == f2
  }

  /** The outer loop visits every non-empty subset of duplicate-free nodes
      exactly once. */
  lemma CandidatesEachSetOnce(nodes: seq<string>)
    requires Distinct(nodes)
    ensures EachSetOnce(Candidates(nodes))
  {
    var cands := Candidates(nodes);
    forall i, j | 0 <= i < |cands| && 0 <= j < |cands| && i != j
      ensures Elems(cands[i]) != Elems(cands[j])
    {
      SubsetsDiffer(nodes, i + 1, j + 1);
    }
    forall f1, f2 | f1 in cands && f2 in cands && Elems(f1) == Elems(f2)
      ensures f1 == f2
    {
      var i :| 0 <= i < |cands| && cands[i] == f1;
      var j :| 0 <= j < |cands| && cands[j] == f2;
    }
  }

  /** `getAllFrontiers()` lists no frontier twice; with `AllFrontiersComplete`,
      every non-empty closed set of nodes is listed exactly once. */
  lemma AllFrontiersEachSetOnce(g: Graph)
    requires Distinct(g.nodes)
    ensures EachSetOnce(AllFrontiers(g))
  {
    var cands := Candidates(g.nodes);
    CandidatesEachSetOnce(g.nodes);
    FilterDistinct(cands, IsFrontierOf(g));
  }

  // ---------------------------------------------------------------------
  // getMinimalProductiveFrontiers
  // ---------------------------------------------------------------------

  /** The callback `f => this.isProductiveExpiry(f)`. */
  function IsProductiveIn(g: Graph): seq<string> -> bool {
    f => IsProductiveExpiry(g, f)
  }

  function ProductiveFrontiers(g: Graph): seq<seq<string>> {
    Filter(AllFrontiers(g), IsProductiveIn(g))
  }

  /** The `some` test: a productive frontier shorter than `f1` all of whose nodes are in `f1`. */
  predicate HasSmallerSubset(productive: seq<seq<string>>, f1: seq<string>) {
    exists f2 :: f2 in productive && |f2| < |f1| && forall x :: x in f2 ==> x in f1
  }

  function NoSmallerIn(productive: seq<seq<string>>): seq<string> -> bool {
    f1 => !HasSmallerSubset(productive, f1)
  }

  /** `getMinimalProductiveFrontiers()` */
  function MinimalProductiveFrontiers(g: Graph): (r: seq<seq<string>>)
    ensures forall f :: f in r ==> f in AllFrontiers(g) && IsProductiveExpiry(g, f)
  {
    var productive := ProductiveFrontiers(g);
    Filter(productive, NoSmallerIn(productive))
  }

  /** A frontier is kept by `getMinimalProductiveFrontiers()` exactly when it
      is an enumerated productive frontier and no enumerated productive
      frontier is a strict subset of it (the length-and-`every` test of the
      source is strict inclusion, since frontiers are duplicate-free). */
  lemma MinimalIff(g: Graph, f: seq<string>)
    requires Distinct(g.nodes)
    ensures f in MinimalProductiveFrontiers(g) <==>
      && f in AllFrontiers(g)
      && IsProductiveExpiry(g, f)
      && forall t :: t in AllFrontiers(g) && IsProductiveExpiry(g, t) ==> !(Elems(t) < Elems(f))
  {
    AllFrontiersSound(g);
    var productive := ProductiveFrontiers(g);
    assert forall t :: t in productive <==> t in AllFrontiers(g) && IsProductiveExpiry(g, t);
    if f in productive {
      assert Distinct(f);
      if HasSmallerSubset(productive, f) {
        var t :| t in productive && |t| < |f| && forall x :: x in t ==> x in f;
        SmallerSubsetIsStrict(t, f);
      } else {
        forall t | t in productive ensures !(Elems(t) < Elems(f)) {
          SmallerSubsetIsStrict(t, f);
        }
      }
    }
  }

  /** For duplicate-free sequences, "shorter, and every element of `t` is in
      `f`" is strict inclusion of their sets. */
  lemma SmallerSubsetIsStrict(t: seq<string>, f: seq<string>)
    requires Distinct(t) && Distinct(f)
    ensures (|t| < |f| && forall x :: x in t ==> x in f) <==> Elems(t) < Elems(f)
  {
    DistinctCardinality(t);
    DistinctCardinality(f);
    if Elems(t) < Elems(f) {
      ProperSubsetCardinality(Elems(t), Elems(f));
      forall x | x in t ensures x in f {
        assert x in Elems(t);
      }
    }
    if |t| < |f| && forall x :: x in t ==> x in f {
      assert Elems(t) <= Elems(f);
      assert Elems(t) != Elems(f);
    }
  }

  /** A minimal productive frontier has no productive frontier strictly
      below it among ALL sets of nodes, not only among the enumerated ones. */
  lemma MinimalAmongAllSets(g: Graph, f: seq<string>, t: seq<string>)
    requires Distinct(g.nodes)
    requires f in MinimalProductiveFrontiers(g)
    requires Elems(t) <= Elems(g.nodes) && IsFrontier(g, t) && IsProductiveExpiry(g, t)
    ensures !(Elems(t) < Elems(f))
  {
    ProductiveRemovesAnEdge(g, t);
    assert t[0] in Elems(t);
    FrontierIffClosed(g, t);
    AllFrontiersComplete(g, Elems(t));
    var t' :| t' in AllFrontiers(g) && Elems(t') == Elems(t);
    RemoveBySet(g, t, t');
    assert UnblockedNodes(g, t') == UnblockedNodes(g, t);
    MinimalIff(g, f);
  }
}
