/** The cluster tree (anytree's `Node` objects of the original) as an arena:
    a sequence of nodes addressed by position, each naming its parent by
    position. Position 0 is the root; a node's parent always sits at a
    smaller position, so walking parents always ends at the root. */
module ClusterTree {
  import opened Indices
  import opened Primitive

  /** A cluster found at `depth` by one primitive run on its parent's points;
      `name` is the cluster number that run gave it. */
  datatype Node = Node(name: int, parent: nat, depth: nat, points: seq<nat>)

  /** The root's name (the empty string in the original). */
  const RootName: int := -1

  /** The root: an anchor holding no points. */
  const Root: Node := Node(RootName, 0, 0, [])

  /** Parents sit at smaller positions and depths count the steps to the root. */
  predicate WellFormed(nodes: seq<Node>)
  {
    && |nodes| > 0
    && nodes[0].parent == 0 && nodes[0].depth == 0
    && forall i {:trigger nodes[i].parent} :: 0 < i < |nodes| ==>
         nodes[i].parent < i && nodes[i].depth == nodes[nodes[i].parent].depth + 1
  }

  /** Two arenas with the same tree, whatever points the nodes hold. */
  predicate SameShape(a: seq<Node>, b: seq<Node>)
  {
    && |a| == |b|
    && forall i :: 0 <= i < |a| ==>
         a[i].name == b[i].name && a[i].parent == b[i].parent && a[i].depth == b[i].depth
  }

  /** `a` is a strict ancestor of `i` (`a` lies on the parent walk from `i`). */
  predicate IsAncestor(nodes: seq<Node>, a: nat, i: nat)
    decreases i
  {
    && 0 < i < |nodes|
    && nodes[i].parent < i
    && (nodes[i].parent == a || IsAncestor(nodes, a, nodes[i].parent))
  }

  /** `p` has no children (yet). */
  predicate IsLeaf(nodes: seq<Node>, p: nat)
  {
    forall j :: 0 < j < |nodes| ==> nodes[j].parent != p
  }

  lemma {:induction false} AncestorBelow(nodes: seq<Node>, a: nat, i: nat)
    requires IsAncestor(nodes, a, i)
    ensures a < i
    decreases i
  {
    if nodes[i].parent != a {
      AncestorBelow(nodes, a, nodes[i].parent);
    }
  }

  /** Ancestry is transitive. */
  lemma {:induction false} AncestorTrans(nodes: seq<Node>, a: nat, b: nat, c: nat)
    requires IsAncestor(nodes, a, b) && IsAncestor(nodes, b, c)
    ensures IsAncestor(nodes, a, c)
    decreases c
  {
    if nodes[c].parent != b {
      AncestorTrans(nodes, a, b, nodes[c].parent);
    }
  }

  /** Ancestry depends only on the shape of the tree, not on the points. */
  lemma {:induction false} AncestorShape(n1: seq<Node>, n2: seq<Node>, a: nat, i: nat)
    requires SameShape(n1, n2)
    ensures IsAncestor(n1, a, i) == IsAncestor(n2, a, i)
    decreases i
  {
    if 0 < i < |n1| && n1[i].parent < i {
      AncestorShape(n1, n2, a, n1[i].parent);
    }
  }

  /** Appending nodes does not change the ancestry of the nodes already there. */
  lemma {:induction false} AncestorAppend(nodes: seq<Node>, extra: seq<Node>, a: nat, i: nat)
    requires i < |nodes|
    ensures IsAncestor(nodes + extra, a, i) == IsAncestor(nodes, a, i)
    decreases i
  {
    if 0 < i && nodes[i].parent < i {
      AncestorAppend(nodes, extra, a, nodes[i].parent);
    }
  }

  /** A leaf is nobody's ancestor. */
  lemma {:induction false} LeafNoDescendant(nodes: seq<Node>, p: nat, i: nat)
    requires IsLeaf(nodes, p)
    ensures !IsAncestor(nodes, p, i)
    decreases i
  {
    if 0 < i < |nodes| && nodes[i].parent < i {
      LeafNoDescendant(nodes, p, nodes[i].parent);
    }
  }

  /** An ancestor is strictly shallower. */
  lemma {:induction false} AncestorShallower(nodes: seq<Node>, a: nat, i: nat)
    requires WellFormed(nodes) && IsAncestor(nodes, a, i)
    ensures a < |nodes| && nodes[a].depth < nodes[i].depth
    decreases i
  {
    if nodes[i].parent != a {
      AncestorShallower(nodes, a, nodes[i].parent);
    }
  }

  /** The children one primitive run attaches under `parent` (at `depth`):
      one per cluster number 0 .. max(labels), each owning the original
      indices labelled with its number. */
  function Children(idx: seq<nat>, labels: seq<int>, parent: nat, depth: nat): (kids: seq<Node>)
    requires |idx| > 0 && ProperLabels(labels, |idx|)
    ensures |kids| == NumClusters(labels)
  {
    seq(NumClusters(labels), c => Node(c, parent, depth + 1, Select(idx, labels, c)))
  }

  /** Every child of a run hangs under the run's parent, one level down. */
  lemma ChildrenShape(idx: seq<nat>, labels: seq<int>, parent: nat, depth: nat)
    requires |idx| > 0 && ProperLabels(labels, |idx|)
    ensures forall c :: 0 <= c < |Children(idx, labels, parent, depth)| ==>
      Children(idx, labels, parent, depth)[c].parent == parent &&
      Children(idx, labels, parent, depth)[c].depth == depth + 1
  {
  }

  lemma ChildrenOwnPoints(idx: seq<nat>, labels: seq<int>, parent: nat, depth: nat)
    requires |idx| > 0 && ProperLabels(labels, |idx|) && NoDup(idx)
    ensures var kids := Children(idx, labels, parent, depth);
      forall c :: 0 <= c < |kids| ==>
        |kids[c].points| > 0 && SubsetOf(kids[c].points, idx) && NoDup(kids[c].points)
  {
    var kids := Children(idx, labels, parent, depth);
    forall c | 0 <= c < |kids|
      ensures |kids[c].points| > 0 && SubsetOf(kids[c].points, idx) && NoDup(kids[c].points)
    {
      SelectNoDup(idx, labels, c);
      assert c in labels;
      var k :| 0 <= k < |labels| && labels[k] == c;
      assert idx[k] in kids[c].points;
    }
  }

  lemma ChildrenApart(idx: seq<nat>, labels: seq<int>, parent: nat, depth: nat)
    requires |idx| > 0 && ProperLabels(labels, |idx|) && NoDup(idx)
    ensures var kids := Children(idx, labels, parent, depth);
      forall c, d :: 0 <= c < d < |kids| ==> Disjoint(kids[c].points, kids[d].points)
  {
    var kids := Children(idx, labels, parent, depth);
    forall c, d | 0 <= c < d < |kids| ensures Disjoint(kids[c].points, kids[d].points) {
      SelectDisjoint(idx, labels, c, d);
    }
  }

  lemma ChildrenNoise(idx: seq<nat>, labels: seq<int>, parent: nat, depth: nat)
    requires |idx| > 0 && ProperLabels(labels, |idx|) && NoDup(idx)
    ensures var kids := Children(idx, labels, parent, depth);
      forall k :: 0 <= k < |idx| ==>
        (labels[k] == Noise <==> forall c :: 0 <= c < |kids| ==> idx[k] !in kids[c].points)
  {
    var kids := Children(idx, labels, parent, depth);
    forall k | 0 <= k < |idx|
      ensures labels[k] == Noise <==> forall c :: 0 <= c < |kids| ==> idx[k] !in kids[c].points
    {
      if labels[k] == Noise {
        forall c | 0 <= c < |kids| ensures idx[k] !in kids[c].points {
          assert forall k' :: 0 <= k' < |idx| && idx[k'] == idx[k] ==> k' == k;
        }
      } else {
        assert idx[k] in kids[labels[k]].points;
      }
    }
  }

  /** One level of growth partitions the non-noise points of the run among
      the new children: each child sits one level below its parent, owns a
      non-empty part of the input, siblings share nothing, every point with
      a cluster label lands in the child of that label and a noise point in
      no child at all. */
  lemma ChildrenPartition(idx: seq<nat>, labels: seq<int>, parent: nat, depth: nat)
    requires |idx| > 0 && ProperLabels(labels, |idx|) && NoDup(idx)
    ensures var kids := Children(idx, labels, parent, depth);
      && (forall c :: 0 <= c < |kids| ==>
            kids[c].name == c && kids[c].parent == parent && kids[c].depth == depth + 1)
      && (forall c :: 0 <= c < |kids| ==>
            |kids[c].points| > 0 && SubsetOf(kids[c].points, idx) && NoDup(kids[c].points))
      && (forall c, d :: 0 <= c < d < |kids| ==> Disjoint(kids[c].points, kids[d].points))
      && (forall k :: 0 <= k < |idx| && labels[k] != Noise ==>
            0 <= labels[k] < |kids| && idx[k] in kids[labels[k]].points)
      && (forall k :: 0 <= k < |idx| ==>
            (labels[k] == Noise <==> forall c :: 0 <= c < |kids| ==> idx[k] !in kids[c].points))
  {
    ChildrenOwnPoints(idx, labels, parent, depth);
    ChildrenApart(idx, labels, parent, depth);
    ChildrenNoise(idx, labels, parent, depth);
  }

  /** The tree as the driver builds it, before overlap resolution: the root
      holds nothing, every other node holds a non-empty list of distinct
      indices below `n`, a child's points come from its parent's, and two
      nodes share a point only if one descends from the other. */
  predicate Grown(nodes: seq<Node>, n: nat)
  {
    && WellFormed(nodes)
    && nodes[0].points == []
    && (forall i :: 0 <= i < |nodes| ==> NoDup(nodes[i].points) && InRange(nodes[i].points, n))
    && (forall i :: 0 < i < |nodes| ==> |nodes[i].points| > 0)
    && (forall i {:trigger nodes[i].parent} :: 0 < i < |nodes| && nodes[i].parent != 0 ==>
          SubsetOf(nodes[i].points, nodes[nodes[i].parent].points))
    && (forall i, j {:trigger IsAncestor(nodes, i, j)} :: 0 < i < j < |nodes| ==>
          IsAncestor(nodes, i, j) || Disjoint(nodes[i].points, nodes[j].points))
  }

  /** The points a run under `p` clusters: all `n` points under the root,
      a node's own points otherwise. */
  function RunInput(nodes: seq<Node>, p: nat, n: nat): (idx: seq<nat>)
    requires p < |nodes|
  {
    if p == 0 then Range(n) else nodes[p].points
  }

  /** Attaching the children of any run keeps the arena well formed and
      every point index below `n`. */
  lemma AppendChildrenInRange(nodes: seq<Node>, n: nat, p: nat, idx: seq<nat>, labels: seq<int>)
    requires WellFormed(nodes) && p < |nodes|
    requires forall i :: 0 <= i < |nodes| ==> InRange(nodes[i].points, n)
    requires |idx| > 0 && ProperLabels(labels, |idx|) && InRange(idx, n)
    ensures var next := nodes + Children(idx, labels, p, nodes[p].depth);
      && WellFormed(next)
      && forall i :: 0 <= i < |next| ==> InRange(next[i].points, n)
  {
    var kids := Children(idx, labels, p, nodes[p].depth);
    var next := nodes + kids;
    forall i | |nodes| <= i < |next|
      ensures next[i].parent < i && next[i].depth == next[next[i].parent].depth + 1
      ensures InRange(next[i].points, n)
    {
      var kid := kids[i - |nodes|];
      assert next[i] == kid;
      forall k | 0 <= k < |kid.points| ensures kid.points[k] < n {
        assert kid.points[k] in kid.points;
      }
    }
  }

  /** What ChildrenPartition gives about a batch of new children of `p`. */
  predicate ChildrenOf(kids: seq<Node>, p: nat, depth: nat, idx: seq<nat>)
  {
    && (forall c :: 0 <= c < |kids| ==>
          && kids[c].parent == p && kids[c].depth == depth + 1
          && |kids[c].points| > 0 && SubsetOf(kids[c].points, idx) && NoDup(kids[c].points))
    && (forall c, d :: 0 <= c < d < |kids| ==> Disjoint(kids[c].points, kids[d].points))
  }

  lemma AppendWellFormed(nodes: seq<Node>, p: nat, kids: seq<Node>, idx: seq<nat>)
    requires WellFormed(nodes) && p < |nodes| && ChildrenOf(kids, p, nodes[p].depth, idx)
    ensures WellFormed(nodes + kids)
  {
    var next := nodes + kids;
    forall i | 0 < i < |next|
      ensures next[i].parent < i && next[i].depth == next[next[i].parent].depth + 1
    {
      if i >= |nodes| {
        assert next[i] == kids[i - |nodes|];
      }
    }
  }

  lemma AppendPoints(nodes: seq<Node>, n: nat, p: nat, kids: seq<Node>, idx: seq<nat>)
    requires Grown(nodes, n) && p < |nodes| && ChildrenOf(kids, p, nodes[p].depth, idx)
    requires InRange(idx, n) && (p != 0 ==> idx == nodes[p].points)
    ensures var next := nodes + kids;
      && (forall i :: 0 <= i < |next| ==> NoDup(next[i].points) && InRange(next[i].points, n))
      && (forall i :: 0 < i < |next| ==> |next[i].points| > 0)
      && (forall i :: 0 < i < |next| && next[i].parent != 0 ==>
            SubsetOf(next[i].points, next[next[i].parent].points))
  {
    var next := nodes + kids;
    forall i | |nodes| <= i < |next|
      ensures NoDup(next[i].points) && InRange(next[i].points, n) && |next[i].points| > 0
      ensures next[i].parent != 0 ==> SubsetOf(next[i].points, next[next[i].parent].points)
    {
      var kid := kids[i - |nodes|];
      assert next[i] == kid;
      forall k | 0 <= k < |kid.points| ensures kid.points[k] < n {
        assert kid.points[k] in idx;
      }
    }
  }

  lemma AppendRelated(nodes: seq<Node>, n: nat, p: nat, kids: seq<Node>, idx: seq<nat>)
    requires Grown(nodes, n) && p < |nodes| && IsLeaf(nodes, p)
    requires p == 0 ==> |nodes| == 1
    requires ChildrenOf(kids, p, nodes[p].depth, idx)
    requires p != 0 ==> idx == nodes[p].points
    ensures var next := nodes + kids;
      forall i, j :: 0 < i < j < |next| ==>
        IsAncestor(next, i, j) || Disjoint(next[i].points, next[j].points)
  {
    var next := nodes + kids;
    forall i, j | 0 < i < j < |next|
      ensures IsAncestor(next, i, j) || Disjoint(next[i].points, next[j].points)
    {
      if j < |nodes| {
        AncestorAppend(nodes, kids, i, j);
      } else if i >= |nodes| {
        assert next[i] == kids[i - |nodes|] && next[j] == kids[j - |nodes|];
      } else {
        var kid := kids[j - |nodes|];
        assert next[j] == kid && next[i] == nodes[i];
        AncestorAppend(nodes, kids, i, p);
        if i != p && !IsAncestor(nodes, i, p) {
          if i < p {
            assert Disjoint(nodes[i].points, nodes[p].points);
          } else {
            LeafNoDescendant(nodes, p, i);
            assert Disjoint(nodes[p].points, nodes[i].points);
          }
          assert SubsetOf(kid.points, nodes[p].points);
        }
      }
    }
  }

  /** One growth step under a leaf (or under the bare root) keeps the
      construction invariant. */
  lemma GrowKeepsGrown(nodes: seq<Node>, n: nat, p: nat, labels: seq<int>)
    requires Grown(nodes, n) && p < |nodes| && IsLeaf(nodes, p)
    requires p == 0 ==> |nodes| == 1 && n > 0
    requires ProperLabels(labels, |RunInput(nodes, p, n)|)
    ensures |RunInput(nodes, p, n)| > 0
    ensures Grown(nodes + Children(RunInput(nodes, p, n), labels, p, nodes[p].depth), n)
  {
    var idx := RunInput(nodes, p, n);
    assert NoDup(idx) && InRange(idx, n);
    var kids := Children(idx, labels, p, nodes[p].depth);
    ChildrenPartition(idx, labels, p, nodes[p].depth);
    assert ChildrenOf(kids, p, nodes[p].depth, idx);
    AppendWellFormed(nodes, p, kids, idx);
    AppendPoints(nodes, n, p, kids, idx);
    AppendRelated(nodes, n, p, kids, idx);
  }

  /** The non-root nodes at depth `d`, in arena order (the comprehension
      `[node for node in descendants if node.depth == depth]`). */
  function AtDepth(nodes: seq<Node>, d: nat): (r: seq<nat>)
    ensures forall i :: i in r <==> 0 < i < |nodes| && nodes[i].depth == d
    ensures forall a, b :: 0 <= a < b < |r| ==> r[a] < r[b]
    decreases |nodes|
  {
    if |nodes| <= 1 then []
    else
      var init := nodes[..|nodes| - 1];
      assert forall i :: 0 <= i < |init| ==> init[i] == nodes[i];
      var rest := AtDepth(init, d);
      assert forall a :: 0 <= a < |rest| ==> rest[a] in rest;
      rest + (if nodes[|nodes| - 1].depth == d then [|nodes| - 1] else [])
  }

  /** How many non-root nodes are shallower than `d`. */
  function CountShallower(nodes: seq<Node>, d: nat): nat
    decreases |nodes|
  {
    if |nodes| <= 1 then 0
    else CountShallower(nodes[..|nodes| - 1], d) + (if nodes[|nodes| - 1].depth < d then 1 else 0)
  }

  /** Raising the depth bound by one adds exactly the nodes of that level. */
  lemma {:induction false} CountNextLevel(nodes: seq<Node>, d: nat)
    ensures CountShallower(nodes, d + 1) == CountShallower(nodes, d) + |AtDepth(nodes, d)|
    decreases |nodes|
  {
    if |nodes| > 1 {
      CountNextLevel(nodes[..|nodes| - 1], d);
    }
  }

  /** Appending nodes no shallower than `d` leaves the count below `d` alone. */
  lemma {:induction false} CountAppendDeep(nodes: seq<Node>, extra: seq<Node>, d: nat)
    requires |nodes| > 0
    requires forall k :: 0 <= k < |extra| ==> extra[k].depth >= d
    ensures CountShallower(nodes + extra, d) == CountShallower(nodes, d)
    decreases |extra|
  {
    if |extra| > 0 {
      var init := extra[..|extra| - 1];
      var all := nodes + extra;
      assert all[..|all| - 1] == nodes + init;
      assert all[|all| - 1] == extra[|extra| - 1];
      assert CountShallower(all, d) == CountShallower(nodes + init, d);
      CountAppendDeep(nodes, init, d);
    } else {
      assert nodes + extra == nodes;
    }
  }

  /** When every non-root node is shallower than `d`, all of them are counted. */
  lemma {:induction false} CountAll(nodes: seq<Node>, d: nat)
    requires |nodes| > 0
    requires forall i :: 0 < i < |nodes| ==> nodes[i].depth < d
    ensures CountShallower(nodes, d) == |nodes| - 1
    decreases |nodes|
  {
    if |nodes| > 1 {
      CountAll(nodes[..|nodes| - 1], d);
    }
  }

  /** When no non-root node is shallower than `d`, none is counted. */
  lemma {:induction false} CountNone(nodes: seq<Node>, d: nat)
    requires forall i :: 0 < i < |nodes| ==> nodes[i].depth >= d
    ensures CountShallower(nodes, d) == 0
    decreases |nodes|
  {
    if |nodes| > 1 {
      CountNone(nodes[..|nodes| - 1], d);
    }
  }

  /** The largest depth in the arena. */
  function MaxDepth(nodes: seq<Node>): (m: nat)
    ensures forall i :: 0 <= i < |nodes| ==> nodes[i].depth <= m
    decreases |nodes|
  {
    if |nodes| == 0 then 0
    else
      var init := nodes[..|nodes| - 1];
      assert forall i :: 0 <= i < |init| ==> init[i] == nodes[i];
      var m := MaxDepth(init);
      if nodes[|nodes| - 1].depth > m then nodes[|nodes| - 1].depth else m
  }

  /** The bound `MaxDepth` is reached: some node sits at that depth. */
  lemma {:induction false} MaxDepthReached(nodes: seq<Node>)
    requires |nodes| > 0
    ensures exists i :: 0 <= i < |nodes| && nodes[i].depth == MaxDepth(nodes)
    decreases |nodes|
  {
    var last := |nodes| - 1;
    var init := nodes[..last];
    if |init| > 0 && nodes[last].depth <= MaxDepth(init) {
      MaxDepthReached(init);
      var i :| 0 <= i < |init| && init[i].depth == MaxDepth(init);
      assert nodes[i] == init[i];
      assert nodes[i].depth == MaxDepth(nodes);
    } else {
      assert nodes[last].depth == MaxDepth(nodes);
    }
  }

  /** The non-root nodes of depths `d`, `d - 1`, ..., 1, level by level. */
  function Levels(nodes: seq<Node>, d: nat): seq<nat>
    decreases d
  {
    if d == 0 then [] else AtDepth(nodes, d) + Levels(nodes, d - 1)
  }

  /** All non-root nodes, deepest first (Python's
      `sorted(descendants, key=lambda x: -x.depth)`). */
  function DeepestFirst(nodes: seq<Node>): (order: seq<nat>)
    ensures forall k :: 0 <= k < |order| ==> order[k] < |nodes|
  {
    LevelsOrdered(nodes, MaxDepth(nodes));
    Levels(nodes, MaxDepth(nodes))
  }

  predicate DepthNonIncreasing(nodes: seq<Node>, order: seq<nat>)
    requires forall k :: 0 <= k < |order| ==> order[k] < |nodes|
  {
    forall a, b :: 0 <= a < b < |order| ==> nodes[order[a]].depth >= nodes[order[b]].depth
  }

  lemma {:induction false} LevelsMembers(nodes: seq<Node>, d: nat)
    ensures forall i :: i in Levels(nodes, d) <==> 0 < i < |nodes| && 1 <= nodes[i].depth <= d
    decreases d
  {
    if d > 0 {
      var e := d - 1;
      LevelsMembers(nodes, e);
      var level, rest := AtDepth(nodes, e + 1), Levels(nodes, e);
      assert Levels(nodes, d) == level + rest;
      forall i ensures i in level + rest <==> 0 < i < |nodes| && 1 <= nodes[i].depth <= e + 1 {
        assert i in level + rest <==> i in level || i in rest;
      }
    }
  }

  lemma AtDepthNoDup(nodes: seq<Node>, d: nat)
    ensures NoDup(AtDepth(nodes, d))
  {
    var level := AtDepth(nodes, d);
    forall a, b | 0 <= a < b < |level| ensures level[a] != level[b] {
      assert level[a] < level[b];
    }
  }

  /** A level shares no node with the shallower levels. */
  lemma LevelApart(nodes: seq<Node>, e: nat)
    ensures Disjoint(AtDepth(nodes, e + 1), Levels(nodes, e))
  {
    LevelsMembers(nodes, e);
  }

  lemma {:induction false} LevelsNoDup(nodes: seq<Node>, d: nat)
    ensures NoDup(Levels(nodes, d))
    decreases d
  {
    if d > 0 {
      var e := d - 1;
      LevelsNoDup(nodes, e);
      AtDepthNoDup(nodes, e + 1);
      LevelApart(nodes, e);
      NoDupConcat(AtDepth(nodes, e + 1), Levels(nodes, e));
      assert Levels(nodes, d) == AtDepth(nodes, e + 1) + Levels(nodes, e);
    }
  }

  lemma {:induction false} LevelsOrdered(nodes: seq<Node>, d: nat)
    ensures forall k :: 0 <= k < |Levels(nodes, d)| ==> Levels(nodes, d)[k] < |nodes|
    ensures DepthNonIncreasing(nodes, Levels(nodes, d))
    decreases d
  {
    if d > 0 {
      LevelsOrdered(nodes, d - 1);
      var level := AtDepth(nodes, d);
      var rest := Levels(nodes, d - 1);
      forall k | 0 <= k < |level| ensures level[k] < |nodes| && nodes[level[k]].depth == d {
        assert level[k] in level;
      }
      forall k | 0 <= k < |rest| ensures nodes[rest[k]].depth < d {
        LevelsMembers(nodes, d - 1);
        assert rest[k] in rest;
      }
      ConcatNonIncreasing(nodes, level, rest, d);
    }
  }

  lemma ConcatNonIncreasing(nodes: seq<Node>, upper: seq<nat>, lower: seq<nat>, d: nat)
    requires forall k :: 0 <= k < |upper| ==> upper[k] < |nodes| && nodes[upper[k]].depth == d
    requires forall k :: 0 <= k < |lower| ==> lower[k] < |nodes| && nodes[lower[k]].depth < d
    requires DepthNonIncreasing(nodes, lower)
    ensures forall k :: 0 <= k < |upper + lower| ==> (upper + lower)[k] < |nodes|
    ensures DepthNonIncreasing(nodes, upper + lower)
  {
    var all := upper + lower;
    forall a, b | 0 <= a < b < |all| ensures nodes[all[a]].depth >= nodes[all[b]].depth {
      if b < |upper| {
        assert all[a] == upper[a] && all[b] == upper[b];
      } else if a >= |upper| {
        assert all[a] == lower[a - |upper|] && all[b] == lower[b - |upper|];
      } else {
        assert all[a] == upper[a] && all[b] == lower[b - |upper|];
      }
    }
  }

  /** The deepest-first order lists every non-root node exactly once, with
      depths never increasing along the list. */
  lemma DeepestFirstSpec(nodes: seq<Node>)
    requires WellFormed(nodes)
    ensures forall i :: i in DeepestFirst(nodes) <==> 0 < i < |nodes|
    ensures NoDup(DeepestFirst(nodes))
    ensures forall k :: 0 <= k < |DeepestFirst(nodes)| ==> 0 < DeepestFirst(nodes)[k] < |nodes|
    ensures DepthNonIncreasing(nodes, DeepestFirst(nodes))
  {
    LevelsMembers(nodes, MaxDepth(nodes));
    LevelsNoDup(nodes, MaxDepth(nodes));
    LevelsOrdered(nodes, MaxDepth(nodes));
    assert forall k :: 0 <= k < |DeepestFirst(nodes)| ==> DeepestFirst(nodes)[k] in DeepestFirst(nodes);
  }
}
