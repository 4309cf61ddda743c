/** Extraction (the end of `fit`): the non-root nodes holding at least
    `min_points` points, deepest first, as lists of original indices. */
module Extraction {
  import opened Indices
  import opened ClusterTree
  import opened Resolution

  /** The tree after overlap resolution, processing nodes deepest first. */
  function Resolve(g: seq<Node>): (r: seq<Node>)
    requires WellFormed(g)
    ensures SameShape(r, g) && WellFormed(r)
  {
    DeepestFirstSpec(g);
    ResolveAll(g, DeepestFirst(g))
  }

  /** The processing order of resolution names only non-root nodes. */
  lemma DeepestFirstNonRoot(g: seq<Node>)
    requires WellFormed(g)
    ensures NonRootOrder(g, DeepestFirst(g))
  {
    DeepestFirstSpec(g);
  }

  /** Resolution keeps every point index below `n`. */
  lemma ResolvedInRange(g: seq<Node>, n: nat)
    requires WellFormed(g)
    requires forall i :: 0 <= i < |g| ==> InRange(g[i].points, n)
    ensures forall i :: 0 <= i < |g| ==> InRange(Resolve(g)[i].points, n)
  {
    DeepestFirstSpec(g);
    var r := Resolve(g);
    ResolveShrinks(g, DeepestFirst(g));
    forall i | 0 <= i < |g| ensures InRange(r[i].points, n) {
      forall j | 0 <= j < |r[i].points| ensures r[i].points[j] < n {
        assert r[i].points[j] in g[i].points;
      }
    }
  }

  /** The entries of `order` whose node holds at least `minPoints` points,
      in their order in `order`. */
  function Survivors(nodes: seq<Node>, order: seq<nat>, minPoints: nat): (s: seq<nat>)
    requires forall k :: 0 <= k < |order| ==> order[k] < |nodes|
    ensures forall k :: 0 <= k < |s| ==> s[k] < |nodes|
    ensures forall i :: i in s <==> i in order && i < |nodes| && |nodes[i].points| >= minPoints
    decreases |order|
  {
    if order == [] then []
    else
      var rest := Survivors(nodes, order[1..], minPoints);
      assert forall i :: i in order <==> i == order[0] || i in order[1..];
      (if |nodes[order[0]].points| >= minPoints then [order[0]] else []) + rest
  }

  /** Keeping some entries of a list keeps it free of repetitions. */
  lemma {:induction false} SurvivorsNoDup(nodes: seq<Node>, order: seq<nat>, minPoints: nat)
    requires forall k :: 0 <= k < |order| ==> order[k] < |nodes|
    requires NoDup(order)
    ensures NoDup(Survivors(nodes, order, minPoints))
    decreases |order|
  {
    if order != [] {
      var tail := order[1..];
      assert NoDup(tail);
      SurvivorsNoDup(nodes, tail, minPoints);
      var rest := Survivors(nodes, tail, minPoints);
      var head := if |nodes[order[0]].points| >= minPoints then [order[0]] else [];
      assert order[0] !in tail;
      NoDupConcat(head, rest);
    }
  }

  lemma PrependNonIncreasing(nodes: seq<Node>, x: nat, rest: seq<nat>)
    requires x < |nodes|
    requires forall k :: 0 <= k < |rest| ==> rest[k] < |nodes| && nodes[rest[k]].depth <= nodes[x].depth
    requires DepthNonIncreasing(nodes, rest)
    ensures DepthNonIncreasing(nodes, [x] + rest)
  {
    var all := [x] + rest;
    forall a, b | 0 <= a < b < |all| ensures nodes[all[a]].depth >= nodes[all[b]].depth {
      assert all[b] == rest[b - 1];
      if a > 0 {
        assert all[a] == rest[a - 1];
      }
    }
  }

  /** Keeping some entries of a list keeps its depths non-increasing. */
  lemma {:induction false} SurvivorsNonIncreasing(nodes: seq<Node>, order: seq<nat>, minPoints: nat)
    requires forall k :: 0 <= k < |order| ==> order[k] < |nodes|
    requires DepthNonIncreasing(nodes, order)
    ensures DepthNonIncreasing(nodes, Survivors(nodes, order, minPoints))
    decreases |order|
  {
    if order != [] {
      var tail := order[1..];
      assert DepthNonIncreasing(nodes, tail);
      SurvivorsNonIncreasing(nodes, tail, minPoints);
      var rest := Survivors(nodes, tail, minPoints);
      if |nodes[order[0]].points| >= minPoints {
        forall k | 0 <= k < |rest| ensures nodes[rest[k]].depth <= nodes[order[0]].depth {
          assert rest[k] in rest;
          var m :| 0 <= m < |tail| && tail[m] == rest[k];
          assert order[m + 1] == rest[k];
        }
        PrependNonIncreasing(nodes, order[0], rest);
      }
    }
  }

  /** The extracted clusters: the points of the surviving nodes, deepest first. */
  function Clusters(nodes: seq<Node>, minPoints: nat): (r: seq<seq<nat>>)
    requires WellFormed(nodes)
    ensures forall k :: 0 <= k < |r| ==> |r[k]| >= minPoints
  {
    var s := Survivors(nodes, DeepestFirst(nodes), minPoints);
    assert forall k :: 0 <= k < |s| ==> s[k] in s;
    seq(|s|, k requires 0 <= k < |s| => nodes[s[k]].points)
  }

  /** What extraction returns: one cluster per non-root node with at least
      `minPoints` points and for no other node, each node once, ordered by
      non-increasing depth. The root is never among them. */
  lemma ExtractionSpec(nodes: seq<Node>, minPoints: nat)
    requires WellFormed(nodes)
    ensures var s := Survivors(nodes, DeepestFirst(nodes), minPoints);
      var r := Clusters(nodes, minPoints);
      && |r| == |s|
      && (forall k :: 0 <= k < |s| ==> 0 < s[k] < |nodes| && r[k] == nodes[s[k]].points)
      && (forall k :: 0 <= k < |r| ==> |r[k]| >= minPoints)
      && (forall i :: 0 < i < |nodes| ==> (i in s <==> |nodes[i].points| >= minPoints))
      && NoDup(s)
      && DepthNonIncreasing(nodes, s)
  {
    DeepestFirstSpec(nodes);
    var order := DeepestFirst(nodes);
    var s := Survivors(nodes, order, minPoints);
    var r := Clusters(nodes, minPoints);
    SurvivorsNoDup(nodes, order, minPoints);
    SurvivorsNonIncreasing(nodes, order, minPoints);
    forall k | 0 <= k < |s| ensures 0 < s[k] < |nodes| && |nodes[s[k]].points| >= minPoints {
      assert s[k] in s;
    }
    assert |r| == |s|;
    forall k | 0 <= k < |r| ensures r[k] == nodes[s[k]].points && |r[k]| >= minPoints {
    }
  }

  /** After resolution no two nodes of a grown tree share a point. */
  lemma ResolvedPairwiseDisjoint(g: seq<Node>, n: nat)
    requires Grown(g, n)
    ensures forall i, j :: 0 <= i < |g| && 0 <= j < |g| && i != j ==>
      Disjoint(Resolve(g)[i].points, Resolve(g)[j].points)
  {
    DeepestFirstSpec(g);
    var order := DeepestFirst(g);
    var r := Resolve(g);
    ResolveShrinks(g, order);
    ResolveDisjointFromDescendants(g, order);
    forall i, j | 0 <= i < j < |g| ensures Disjoint(r[i].points, r[j].points) && Disjoint(r[j].points, r[i].points) {
      if i > 0 && !IsAncestor(g, i, j) {
        assert Disjoint(g[i].points, g[j].points);
        assert SubsetOf(r[i].points, g[i].points) && SubsetOf(r[j].points, g[j].points);
      }
    }
  }

  /** The clusters returned for a grown tree are pairwise disjoint: no point
      index is reported in two clusters. */
  lemma ClustersDisjoint(g: seq<Node>, n: nat, minPoints: nat)
    requires Grown(g, n)
    ensures var r := Clusters(Resolve(g), minPoints);
      forall a, b :: 0 <= a < |r| && 0 <= b < |r| && a != b ==> Disjoint(r[a], r[b])
  {
    var final := Resolve(g);
    ResolvedPairwiseDisjoint(g, n);
    ExtractionSpec(final, minPoints);
  }

  /** After resolution a node of a grown tree holds at most `n` points. */
  lemma ResolvedAtMost(g: seq<Node>, n: nat, i: nat)
    requires Grown(g, n) && i < |g|
    ensures |Resolve(g)[i].points| <= n
  {
    DeepestFirstSpec(g);
    ResolveShrinks(g, DeepestFirst(g));
    var pts := Resolve(g)[i].points;
    assert SubsetOf(pts, g[i].points) && NoDup(pts);
    forall k | 0 <= k < |pts| ensures pts[k] < n {
      assert pts[k] in g[i].points;
    }
    NoDupBound(pts, n);
  }

  /** With fewer points than `minPoints` in all, nothing is returned. */
  lemma TooFewPoints(g: seq<Node>, n: nat, minPoints: nat)
    requires Grown(g, n) && n < minPoints
    ensures Clusters(Resolve(g), minPoints) == []
  {
    var final := Resolve(g);
    var s := Survivors(final, DeepestFirst(final), minPoints);
    if |s| > 0 {
      assert s[0] in s;
      ResolvedAtMost(g, n, s[0]);
    }
  }

  /** What `fit` returns for a grown tree: each cluster holds at least
      `minPoints` points and no point index is reported in two clusters. */
  lemma FittedClusters(g: seq<Node>, n: nat, minPoints: nat)
    requires Grown(g, n)
    ensures var r := Clusters(Resolve(g), minPoints);
      && (forall k :: 0 <= k < |r| ==> |r[k]| >= minPoints)
      && (forall a, b :: 0 <= a < |r| && 0 <= b < |r| && a != b ==> Disjoint(r[a], r[b]))
  {
    ClustersDisjoint(g, n, minPoints);
  }
}
