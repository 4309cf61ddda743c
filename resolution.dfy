/** Overlap resolution (`remove_child_cluster_points_from_parents`): every
    node's points are subtracted from the points of each of its ancestors,
    so that afterwards no node shares a point with any of its descendants. */
module Resolution {
  import opened Indices
  import opened ClusterTree

  /** `nd` with the indices `pts` taken out of its points. */
  function Stripped(nd: Node, pts: seq<nat>): Node
  {
    nd.(points := Without(nd.points, pts))
  }

  lemma ShapeWellFormed(a: seq<Node>, b: seq<Node>)
    requires WellFormed(b) && SameShape(a, b)
    ensures WellFormed(a)
  {
  }

  /** Takes `pts` out of node `a` and out of every ancestor of `a`, walking
      parents up to the root. */
  function StripChain(nodes: seq<Node>, a: nat, pts: seq<nat>): (r: seq<Node>)
    requires WellFormed(nodes) && a < |nodes|
    ensures SameShape(r, nodes) && WellFormed(r)
    decreases a
  {
    var s := nodes[a := Stripped(nodes[a], pts)];
    assert SameShape(s, nodes);
    if a == 0 then s else StripChain(s, nodes[a].parent, pts)
  }

  /** One step of the walk: strip `a`, then carry on from its parent. */
  lemma StripChainStep(nodes: seq<Node>, a: nat, pts: seq<nat>)
    requires WellFormed(nodes) && 0 < a < |nodes|
    ensures var s := nodes[a := Stripped(nodes[a], pts)];
      && nodes[a].parent < a && SameShape(s, nodes) && WellFormed(s)
      && StripChain(nodes, a, pts) == StripChain(s, nodes[a].parent, pts)
  {
    ShapeWellFormed(nodes[a := Stripped(nodes[a], pts)], nodes);
  }

  /** The walk strips exactly `a` and its ancestors. */
  lemma {:induction false} StripChainSpec(nodes: seq<Node>, a: nat, pts: seq<nat>)
    requires WellFormed(nodes) && a < |nodes|
    ensures forall j :: 0 <= j < |nodes| ==>
      StripChain(nodes, a, pts)[j] ==
        if j == a || IsAncestor(nodes, j, a) then Stripped(nodes[j], pts) else nodes[j]
    decreases a
  {
    var s := nodes[a := Stripped(nodes[a], pts)];
    if a > 0 {
      var p := nodes[a].parent;
      StripChainSpec(s, p, pts);
      forall j | 0 <= j < |nodes|
        ensures StripChain(nodes, a, pts)[j] ==
          if j == a || IsAncestor(nodes, j, a) then Stripped(nodes[j], pts) else nodes[j]
      {
        AncestorShape(s, nodes, j, p);
        if IsAncestor(nodes, a, p) {
          AncestorBelow(nodes, a, p);
        }
      }
    }
  }

  /** One step of the outer loop: node `c`'s points leave all its ancestors. */
  function Strip(nodes: seq<Node>, c: nat): (r: seq<Node>)
    requires WellFormed(nodes) && 0 < c < |nodes|
    ensures SameShape(r, nodes) && WellFormed(r)
  {
    StripChain(nodes, nodes[c].parent, nodes[c].points)
  }

  lemma StripSpec(nodes: seq<Node>, c: nat)
    requires WellFormed(nodes) && 0 < c < |nodes|
    ensures forall j :: 0 <= j < |nodes| ==>
      Strip(nodes, c)[j] ==
        if IsAncestor(nodes, j, c) then Stripped(nodes[j], nodes[c].points) else nodes[j]
  {
    StripChainSpec(nodes, nodes[c].parent, nodes[c].points);
  }

  lemma StripAt(nodes: seq<Node>, c: nat, j: nat)
    requires WellFormed(nodes) && 0 < c < |nodes| && j < |nodes|
    ensures Strip(nodes, c)[j] ==
      if IsAncestor(nodes, j, c) then Stripped(nodes[j], nodes[c].points) else nodes[j]
  {
    StripSpec(nodes, c);
  }

  /** Every entry of `order` names a non-root node. */
  predicate NonRootOrder(nodes: seq<Node>, order: seq<nat>)
  {
    forall k :: 0 <= k < |order| ==> 0 < order[k] < |nodes|
  }

  /** The outer loop run over `order`: the nodes named are processed one
      after the other, each stripping its current points from its ancestors. */
  function ResolveAll(nodes: seq<Node>, order: seq<nat>): (r: seq<Node>)
    requires WellFormed(nodes) && NonRootOrder(nodes, order)
    ensures SameShape(r, nodes) && WellFormed(r)
    decreases |order|
  {
    if order == [] then nodes
    else
      var prev := ResolveAll(nodes, order[..|order| - 1]);
      Strip(prev, order[|order| - 1])
  }

  /** Processing one more entry of the order is one more `Strip`. */
  lemma ResolveAllStep(nodes: seq<Node>, order: seq<nat>, k: nat)
    requires WellFormed(nodes) && NonRootOrder(nodes, order) && k < |order|
    ensures 0 < order[k] < |nodes|
    ensures ResolveAll(nodes, order[..k + 1]) == Strip(ResolveAll(nodes, order[..k]), order[k])
  {
    assert order[..k + 1][..k] == order[..k];
  }

  /** Resolution only ever removes points. */
  lemma {:induction false} ResolveShrinks(g: seq<Node>, order: seq<nat>)
    requires WellFormed(g) && NonRootOrder(g, order)
    ensures forall i :: 0 <= i < |g| ==> SubsetOf(ResolveAll(g, order)[i].points, g[i].points)
    ensures forall i :: 0 <= i < |g| && NoDup(g[i].points) ==> NoDup(ResolveAll(g, order)[i].points)
    ensures g[0].points == [] ==> ResolveAll(g, order)[0].points == []
    decreases |order|
  {
    if order != [] {
      var init := order[..|order| - 1];
      var c := order[|order| - 1];
      ResolveShrinks(g, init);
      var prev := ResolveAll(g, init);
      StripSpec(prev, c);
      forall i | 0 <= i < |g| && NoDup(prev[i].points)
        ensures NoDup(ResolveAll(g, order)[i].points)
      {
        WithoutNoDup(prev[i].points, prev[c].points);
      }
    }
    if g[0].points == [] {
      assert SubsetOf(ResolveAll(g, order)[0].points, []);
    }
  }

  /** Once a node has been processed, none of its ancestors shares a point
      with it, and that stays so: every node named in `order` ends disjoint
      from all its ancestors, whatever the order. */
  lemma {:induction false} ResolveSeparates(g: seq<Node>, order: seq<nat>)
    requires WellFormed(g) && NonRootOrder(g, order)
    ensures forall i, j :: 0 <= i < |g| && 0 <= j < |g| && j in order && IsAncestor(g, i, j) ==>
      Disjoint(ResolveAll(g, order)[i].points, ResolveAll(g, order)[j].points)
    decreases |order|
  {
    if order != [] {
      var init := order[..|order| - 1];
      var c := order[|order| - 1];
      ResolveSeparates(g, init);
      var prev := ResolveAll(g, init);
      var r := ResolveAll(g, order);
      StripSpec(prev, c);
      forall i, j | 0 <= i < |g| && 0 <= j < |g| && j in order && IsAncestor(g, i, j)
        ensures Disjoint(r[i].points, r[j].points)
      {
        AncestorShape(prev, g, i, j);
        if j == c {
          if IsAncestor(prev, c, c) {
            AncestorBelow(prev, c, c);
          }
        } else {
          assert j in init;
          AncestorShape(prev, g, j, c);
          if IsAncestor(prev, j, c) {
            AncestorBelow(prev, j, c);
          }
        }
      }
    }
  }

  /** `j` is `i` or one of its descendants. */
  predicate InSubtree(g: seq<Node>, i: nat, j: nat)
  {
    j == i || IsAncestor(g, i, j)
  }

  /** Some node of the subtree of `i` (shape taken from `g`) holds `x` in `r`. */
  predicate HeldBelow(g: seq<Node>, r: seq<Node>, i: nat, x: nat)
  {
    exists j :: 0 <= j < |g| && j < |r| && InSubtree(g, i, j) && x in r[j].points
  }

  /** A point a node held before resolution is afterwards held by that node
      or by one of its descendants: points only ever move down the tree. */
  lemma {:induction false} ResolveKeeps(g: seq<Node>, order: seq<nat>)
    requires WellFormed(g) && NonRootOrder(g, order)
    ensures forall i, x :: 0 <= i < |g| && x in g[i].points ==> HeldBelow(g, ResolveAll(g, order), i, x)
    decreases |order|
  {
    var r := ResolveAll(g, order);
    if order != [] {
      var init := order[..|order| - 1];
      var c := order[|order| - 1];
      ResolveKeeps(g, init);
      var prev := ResolveAll(g, init);
      forall i, x | 0 <= i < |g| && x in g[i].points ensures HeldBelow(g, r, i, x) {
        assert HeldBelow(g, prev, i, x);
        var j :| 0 <= j < |g| && InSubtree(g, i, j) && x in prev[j].points;
        KeepStep(g, prev, c, i, j, x);
      }
    } else {
      forall i, x | 0 <= i < |g| && x in g[i].points ensures HeldBelow(g, r, i, x) {
        assert InSubtree(g, i, i) && x in r[i].points;
      }
    }
  }

  lemma KeepStep(g: seq<Node>, prev: seq<Node>, c: nat, i: nat, j: nat, x: nat)
    requires WellFormed(g) && SameShape(prev, g) && 0 < c < |g|
    requires i < |g| && j < |g| && InSubtree(g, i, j) && x in prev[j].points
    ensures WellFormed(prev) && HeldBelow(g, Strip(prev, c), i, x)
  {
    ShapeWellFormed(prev, g);
    var r := Strip(prev, c);
    StripAt(prev, c, j);
    if x !in r[j].points {
      AncestorShape(prev, g, j, c);
      StripAt(prev, c, c);
      AncestorShape(prev, g, c, c);
      if IsAncestor(g, c, c) {
        AncestorBelow(g, c, c);
      }
      assert r[c] == prev[c];
      if j != i {
        AncestorTrans(g, i, j, c);
      }
      assert InSubtree(g, i, c);
    }
  }

  /** A node with no children is never stripped. */
  lemma {:induction false} ResolveLeaf(g: seq<Node>, order: seq<nat>, i: nat)
    requires WellFormed(g) && NonRootOrder(g, order) && i < |g| && IsLeaf(g, i)
    ensures ResolveAll(g, order)[i] == g[i]
    decreases |order|
  {
    if order != [] {
      var init := order[..|order| - 1];
      var c := order[|order| - 1];
      ResolveLeaf(g, init, i);
      var prev := ResolveAll(g, init);
      StripSpec(prev, c);
      AncestorShape(prev, g, i, c);
      LeafNoDescendant(g, i, c);
    }
  }

  /** Every point any node holds. */
  function AllPoints(nodes: seq<Node>): set<nat>
  {
    set i, x | 0 <= i < |nodes| && x in nodes[i].points :: x
  }

  /** With every non-root node processed, no node shares a point with any
      of its descendants. */
  lemma ResolveDisjointFromDescendants(g: seq<Node>, order: seq<nat>)
    requires WellFormed(g) && NonRootOrder(g, order)
    requires forall j :: 0 < j < |g| ==> j in order
    ensures forall i, j :: 0 <= i < |g| && 0 <= j < |g| && IsAncestor(g, i, j) ==>
      Disjoint(ResolveAll(g, order)[i].points, ResolveAll(g, order)[j].points)
  {
    ResolveSeparates(g, order);
    forall i, j | 0 <= i < |g| && 0 <= j < |g| && IsAncestor(g, i, j)
      ensures j in order
    {
      AncestorBelow(g, i, j);
    }
  }

  lemma KeepsAllForward(g: seq<Node>, order: seq<nat>)
    requires WellFormed(g) && NonRootOrder(g, order)
    ensures AllPoints(g) <= AllPoints(ResolveAll(g, order))
  {
    var r := ResolveAll(g, order);
    ResolveKeeps(g, order);
    forall x | x in AllPoints(g) ensures x in AllPoints(r) {
      var i :| 0 <= i < |g| && x in g[i].points;
      assert HeldBelow(g, r, i, x);
      var j :| 0 <= j < |g| && j < |r| && InSubtree(g, i, j) && x in r[j].points;
    }
  }

  lemma KeepsAllBackward(g: seq<Node>, order: seq<nat>)
    requires WellFormed(g) && NonRootOrder(g, order)
    ensures AllPoints(ResolveAll(g, order)) <= AllPoints(g)
  {
    var r := ResolveAll(g, order);
    ResolveShrinks(g, order);
    forall x | x in AllPoints(r) ensures x in AllPoints(g) {
      var i :| 0 <= i < |r| && x in r[i].points;
      assert SubsetOf(r[i].points, g[i].points);
    }
  }

  /** No point is lost: the points all nodes hold together are the same
      before and after. */
  lemma ResolveKeepsAll(g: seq<Node>, order: seq<nat>)
    requires WellFormed(g) && NonRootOrder(g, order)
    ensures AllPoints(ResolveAll(g, order)) == AllPoints(g)
  {
    KeepsAllForward(g, order);
    KeepsAllBackward(g, order);
  }

  /** A point that no descendant of a node held (one that every deeper run
      called noise) stays with that node. */
  lemma ResolveKeepsNoise(g: seq<Node>, order: seq<nat>, i: nat, x: nat)
    requires WellFormed(g) && NonRootOrder(g, order) && i < |g| && x in g[i].points
    requires forall j :: 0 <= j < |g| && IsAncestor(g, i, j) ==> x !in g[j].points
    ensures x in ResolveAll(g, order)[i].points
  {
    var r := ResolveAll(g, order);
    ResolveShrinks(g, order);
    ResolveKeeps(g, order);
    assert HeldBelow(g, r, i, x);
    var j :| 0 <= j < |g| && j < |r| && InSubtree(g, i, j) && x in r[j].points;
    assert SubsetOf(r[j].points, g[j].points);
  }
}
