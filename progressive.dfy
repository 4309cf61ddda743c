/** The `VariousDBSCAN` object: construction, one primitive run under a
    node, overlap resolution over the whole tree, and `fit`, which grows the
    tree level by level with a shrinking radius and then extracts the
    clusters. */
module Progressive {
  import opened Wrappers
  import opened Indices
  import opened Primitive
  import opened ClusterTree
  import opened Resolution
  import opened Extraction

  /** Why construction can fail. */
  datatype Error = InvalidParameter

  /** One invocation of the primitive: the original indices it clustered,
      the radius it used and the node that received the clusters. */
  datatype Call = Call(subset: seq<nat>, eps: real, parent: nat)

  /** The radius after `d` applications of `update` to `eps`. */
  function Schedule(update: real -> real, eps: real, d: nat): (r: real)
    ensures Shrinking(update) && 0.0 < eps ==> 0.0 < r <= eps
    ensures Shrinking(update) && 0.0 < eps && d > 0 ==> r < eps
  {
    if d == 0 then eps else update(Schedule(update, eps, d - 1))
  }

  /** An update that maps every positive radius to a smaller positive
      one, as the original asks of its update function. */
  ghost predicate Shrinking(update: real -> real)
  {
    forall x :: 0.0 < x ==> 0.0 < update(x) < x
  }

  /** The default radius update, halving. */
  function Halve(x: real): (r: real)
    ensures 0.0 < x ==> 0.0 < r < x
    ensures r + r == x
  {
    x / 2.0
  }

  /** The deepest level `fit` can reach: the first run always happens, so
      this is `max(1, maxDepth)`. */
  function DepthCap(maxDepth: nat): nat
  {
    if maxDepth == 0 then 1 else maxDepth
  }

  /** Every node of `added` sits at depth `d` under a node of `level`. */
  predicate HangsBelow(added: seq<Node>, level: seq<nat>, d: nat)
  {
    forall a :: 0 <= a < |added| ==> added[a].depth == d && added[a].parent in level
  }

  /** `runs` holds one run per entry of `level`, in order, each on that
      node's points in `before` at radius `eps`. */
  predicate LevelRuns(before: seq<Node>, runs: seq<Call>, level: seq<nat>, eps: real)
  {
    && |runs| == |level|
    && forall m :: 0 <= m < |level| ==>
         level[m] < |before| && runs[m] == Call(before[level[m]].points, eps, level[m])
  }

  lemma HangsBelowStep(added: seq<Node>, kids: seq<Node>, level: seq<nat>, j: nat, d: nat)
    requires j < |level| && HangsBelow(added, level[..j], d)
    requires forall c :: 0 <= c < |kids| ==> kids[c].depth == d && kids[c].parent == level[j]
    ensures HangsBelow(added + kids, level[..j + 1], d)
  {
    PrefixStep(level, j);
  }

  lemma LevelRunsStep(before: seq<Node>, runs: seq<Call>, level: seq<nat>, j: nat, eps: real)
    requires j < |level| && level[j] < |before| && LevelRuns(before, runs, level[..j], eps)
    ensures LevelRuns(before, runs + [Call(before[level[j]].points, eps, level[j])], level[..j + 1], eps)
  {
  }

  /** While one level is re-clustered in increasing order, the next node
      of the level has no children yet. */
  lemma NextIsLeaf(before: seq<Node>, added: seq<Node>, level: seq<nat>, j: nat, d: nat)
    requires WellFormed(before) && j < |level|
    requires forall i :: 0 < i < |before| ==> before[i].depth <= d
    requires level == AtDepth(before, d)
    requires HangsBelow(added, level[..j], d + 1)
    ensures 0 < level[j] < |before| && before[level[j]].depth == d
    ensures IsLeaf(before + added, level[j])
  {
    assert level[j] in level;
    var all := before + added;
    forall i | 0 < i < |all| ensures all[i].parent != level[j] {
      if i < |before| {
        assert all[i] == before[i];
      } else {
        assert all[i] == added[i - |before|];
        assert level[j] !in level[..j] by {
          forall m | 0 <= m < j ensures level[m] < level[j] {}
        }
      }
    }
  }

  class VariousDbscan {
    const distance: Matrix
    const epsilon: real
    const minPoints: nat
    const n: nat
    const update: real -> real
    /** The density primitive, fixed for the object's lifetime. */
    const dbscan: Dbscan

    /** The cluster tree; position 0 is the root. */
    var nodes: seq<Node>
    var clusters: Option<seq<seq<nat>>>
    var dbscanPerformed: nat

    /** Every primitive run so far, in order. */
    ghost var calls: seq<Call>
    /** The tree as it stood before overlap resolution. */
    ghost var grown: seq<Node>

    ghost predicate Valid()
      reads this`nodes, this`calls, this`dbscanPerformed
    {
      && minPoints > 0 && IsSquare(distance) && n == |distance|
      && WellFormed(nodes)
      && (forall i :: 0 <= i < |nodes| ==> InRange(nodes[i].points, n))
      && |calls| == dbscanPerformed
    }

    /** The labelling the primitive returns on the points `subset` at radius `eps`. */
    function LabelsOf(subset: seq<nat>, eps: real): (labels: seq<int>)
      requires IsSquare(distance) && InRange(subset, |distance|)
      ensures ProperLabels(labels, |subset|)
    {
      dbscan(Submatrix(distance, subset), eps, minPoints)
    }

    /** The tree that the runs `log` build when replayed from a bare root,
        each run attaching its clusters under its parent; `None` when some
        run names a parent the runs before it have not built, or clusters
        no points, so that a log replays only if every run in it took effect. */
    ghost function Replay(log: seq<Call>): (r: Option<seq<Node>>)
      requires IsSquare(distance) && n == |distance|
      ensures r.Some? ==> |r.value| > 0
      decreases |log|
    {
      if log == [] then Some([Root])
      else
        match Replay(log[..|log| - 1])
        case None => None
        case Some(prev) =>
          var c := log[|log| - 1];
          if c.parent < |prev| && |c.subset| > 0 && InRange(c.subset, n) then
            Some(prev + Children(c.subset, LabelsOf(c.subset, c.eps), c.parent, prev[c.parent].depth))
          else None
    }

    /** A log that replays took effect run by run: each run found its
        parent among the nodes the runs before it built. */
    lemma {:induction false} ReplayApplies(log: seq<Call>, k: nat)
      requires IsSquare(distance) && n == |distance|
      requires Replay(log).Some? && k < |log|
      ensures Replay(log[..k]).Some? && log[k].parent < |Replay(log[..k]).value|
      ensures |log[k].subset| > 0 && InRange(log[k].subset, n)
      decreases |log|
    {
      var init := log[..|log| - 1];
      if k == |log| - 1 {
        assert log[..k] == init;
      } else {
        ReplayApplies(init, k);
        assert init[..k] == log[..k];
      }
    }

    /** A logged re-clustering of non-root node `c.parent` of `g` on that
        node's own points, at the radius scheduled for that node's depth. */
    ghost predicate Recluster(c: Call, g: seq<Node>)
    {
      && 0 < c.parent < |g|
      && c.subset == g[c.parent].points
      && c.eps == Schedule(update, epsilon, g[c.parent].depth)
    }

    /** Replaying one more run attaches that run's clusters. */
    lemma ReplayStep(log: seq<Call>, c: Call)
      requires IsSquare(distance) && n == |distance|
      requires Replay(log).Some? && c.parent < |Replay(log).value| && |c.subset| > 0 && InRange(c.subset, n)
      ensures var prev := Replay(log).value;
        Replay(log + [c]) == Some(prev + Children(c.subset, LabelsOf(c.subset, c.eps), c.parent, prev[c.parent].depth))
    {
      assert (log + [c])[..|log|] == log;
    }

    constructor (distance: Matrix, epsilon: real, minPoints: nat, update: real -> real, dbscan: Dbscan)
      requires minPoints > 0 && IsSquare(distance)
      ensures Valid()
      ensures this.distance == distance && this.epsilon == epsilon && this.minPoints == minPoints
      ensures n == |distance|
      ensures forall x :: this.update(x) == update(x)
      ensures forall m, e, k :: this.dbscan(m, e, k) == dbscan(m, e, k)
      ensures nodes == [Root] && clusters == None && dbscanPerformed == 0 && calls == []
    {
      this.distance := distance;
      this.epsilon := epsilon;
      this.minPoints := minPoints;
      this.n := |distance|;
      this.update := update;
      this.dbscan := dbscan;
      nodes := [Root];
      clusters := None;
      dbscanPerformed := 0;
      calls := [];
      grown := [];
    }

    /** One run of the primitive on the points `pointsIdx`, attaching one
        child of `parentNode` per cluster number found. */
    method RunDbscanOnNode(pointsIdx: seq<nat>, newEps: real, parentNode: nat)
      requires Valid() && parentNode < |nodes|
      requires |pointsIdx| > 0 && InRange(pointsIdx, n)
      modifies this`nodes, this`dbscanPerformed, this`calls
      ensures Valid()
      ensures dbscanPerformed == old(dbscanPerformed) + 1
      ensures calls == old(calls) + [Call(pointsIdx, newEps, parentNode)]
      ensures nodes == old(nodes) + Children(pointsIdx, LabelsOf(pointsIdx, newEps), parentNode, old(nodes)[parentNode].depth)
    {
      var labels := dbscan(Submatrix(distance, pointsIdx), newEps, minPoints);
      dbscanPerformed := dbscanPerformed + 1;
      calls := calls + [Call(pointsIdx, newEps, parentNode)];
      var depth := nodes[parentNode].depth;
      ghost var before := nodes;
      ghost var kids := Children(pointsIdx, labels, parentNode, depth);
      var tree := nodes;
      for clusterI := 0 to MaxLabel(labels) + 1
        invariant tree == before + kids[..clusterI]
        modifies {}
      {
        var originalIdx := Select(pointsIdx, labels, clusterI);
        assert kids[clusterI] == Node(clusterI, parentNode, depth + 1, originalIdx);
        assert kids[..clusterI + 1] == kids[..clusterI] + [kids[clusterI]];
        tree := tree + [Node(clusterI, parentNode, depth + 1, originalIdx)];
      }
      assert kids[..|kids|] == kids;
      nodes := tree;
      AppendChildrenInRange(before, n, parentNode, pointsIdx, labels);
    }

    /** Overlap resolution: deepest nodes first, each node's points are
        taken out of its parent, its grandparent, and so on up to the root. */
    method RemoveChildClusterPointsFromParents()
      requires Valid()
      modifies this`nodes
      ensures Valid()
      ensures nodes == Resolve(old(nodes))
      ensures grown == old(grown) && calls == old(calls) && dbscanPerformed == old(dbscanPerformed)
    {
      ghost var start := nodes;
      var tree := nodes;
      DeepestFirstNonRoot(tree);
      var order := DeepestFirst(tree);
      for k := 0 to |order|
        invariant tree == ResolveAll(start, order[..k])
        modifies {}
      {
        var child := order[k];
        ResolveAllStep(start, order, k);
        ghost var before := tree;
        var pts := tree[child].points;
        var ancestor: nat := tree[child].parent;
        while true
          invariant ancestor < |tree| && WellFormed(tree)
          invariant StripChain(tree, ancestor, pts) == Strip(before, child)
          decreases ancestor
          modifies {}
        {
          if ancestor > 0 {
            StripChainStep(tree, ancestor, pts);
          }
          tree := tree[ancestor := tree[ancestor].(points := Without(tree[ancestor].points, pts))];
          if ancestor == 0 {
            break;
          }
          ancestor := tree[ancestor].parent;
        }
      }
      assert order[..|order|] == order;
      assert tree == Resolve(start);
      ResolvedInRange(start, n);
      nodes := tree;
    }

    /** The runs logged in `log` are the ones the driver makes before
        moving past level `depth` of the tree `g`: first the run over all
        points at the original radius, then one re-clustering of each node
        shallower than `depth`, on the node's own points at the radius
        scheduled for its depth. */
    ghost predicate Driven(g: seq<Node>, log: seq<Call>, depth: nat)
    {
      && |log| > 0 && log[0] == Call(Range(n), epsilon, 0)
      && (forall k :: 1 <= k < |log| ==>
            Recluster(log[k], g) && g[log[k].parent].depth < depth)
      && (forall i :: 0 < i < |g| && g[i].depth < depth ==> exists k :: 1 <= k < |log| && log[k].parent == i)
    }

    /** The state after the first `j` nodes of `level` were re-clustered:
        their runs are logged after `logBefore` and their children are
        appended after `before`. */
    ghost predicate LevelProgress(before: seq<Node>, logBefore: seq<Call>, added: seq<Node>, runs: seq<Call>,
                                  level: seq<nat>, j: nat, d: nat, eps: real)
      reads this`nodes, this`calls, this`dbscanPerformed
      requires j <= |level|
    {
      && Valid() && Grown(nodes, n) && Replay(calls) == Some(nodes)
      && nodes == before + added && HangsBelow(added, level[..j], d + 1)
      && calls == logBefore + runs && LevelRuns(before, runs, level[..j], eps)
    }

    /** One turn of the level loop: the `j`-th node of the level is
        re-clustered and its children are appended. */
    method RunDbscanOnLevelNode(level: seq<nat>, j: nat, newEps: real, ghost d: nat, ghost before: seq<Node>,
                                ghost logBefore: seq<Call>, ghost added: seq<Node>, ghost runs: seq<Call>)
      returns (ghost added': seq<Node>, ghost runs': seq<Call>)
      requires WellFormed(before) && level == AtDepth(before, d) && j < |level|
      requires forall i :: 0 < i < |before| ==> before[i].depth <= d
      requires LevelProgress(before, logBefore, added, runs, level, j, d, newEps)
      modifies this`nodes, this`dbscanPerformed, this`calls
      ensures LevelProgress(before, logBefore, added', runs', level, j + 1, d, newEps)
    {
      var bottomNode := level[j];
      NextIsLeaf(before, added, level, j, d);
      var pts := nodes[bottomNode].points;
      assert pts == before[bottomNode].points;
      ghost var kids := Children(pts, LabelsOf(pts, newEps), bottomNode, d);
      GrowKeepsGrown(nodes, n, bottomNode, LabelsOf(pts, newEps));
      ReplayStep(calls, Call(pts, newEps, bottomNode));
      ChildrenShape(pts, LabelsOf(pts, newEps), bottomNode, d);
      HangsBelowStep(added, kids, level, j, d + 1);
      LevelRunsStep(before, runs, level, j, newEps);
      AppendAssoc(before, added, kids);
      AppendAssoc(logBefore, runs, [Call(pts, newEps, bottomNode)]);
      RunDbscanOnNode(pts, newEps, bottomNode);
      added' := added + kids;
      runs' := runs + [Call(pts, newEps, bottomNode)];
    }

    /** The body of the level loop, one re-clustering per node of `level`
        at radius `newEps`: the new nodes all sit one level below `d` and
        the runs are logged in the order of `level`. */
    method RunDbscanOnLevel(level: seq<nat>, newEps: real, ghost d: nat) returns (ghost added: seq<Node>, ghost runs: seq<Call>)
      requires Valid() && Grown(nodes, n) && Replay(calls) == Some(nodes)
      requires level == AtDepth(nodes, d)
      requires forall i :: 0 < i < |nodes| ==> nodes[i].depth <= d
      modifies this`nodes, this`dbscanPerformed, this`calls
      ensures LevelProgress(old(nodes), old(calls), added, runs, level, |level|, d, newEps)
    {
      ghost var before := nodes;
      ghost var logBefore := calls;
      added := [];
      runs := [];
      for j := 0 to |level|
        invariant LevelProgress(before, logBefore, added, runs, level, j, d, newEps)
        modifies this`nodes, this`dbscanPerformed, this`calls
      {
        added, runs := RunDbscanOnLevelNode(level, j, newEps, d, before, logBefore, added, runs);
      }
    }

    /** Once every node is shallower than `d`, raising the bound changes nothing. */
    lemma DrivenDeeper(g: seq<Node>, log: seq<Call>, d: nat, cap: nat)
      requires Driven(g, log, d) && d <= cap
      requires forall i :: 0 < i < |g| ==> g[i].depth < d
      ensures Driven(g, log, cap)
    {
    }

    /** A re-clustering logged against a tree stays valid for any extension. */
    lemma ReclusterKept(before: seq<Node>, added: seq<Node>, c: Call)
      requires Recluster(c, before)
      ensures Recluster(c, before + added) && (before + added)[c.parent] == before[c.parent]
    {
    }

    /** A run of the pass, over a node of `level`, is a re-clustering of that node. */
    lemma ReclusterNew(before: seq<Node>, added: seq<Node>, runs: seq<Call>, level: seq<nat>, d: nat, m: nat)
      requires level == AtDepth(before, d)
      requires LevelRuns(before, runs, level, Schedule(update, epsilon, d))
      requires m < |runs|
      ensures Recluster(runs[m], before + added) && (before + added)[runs[m].parent].depth == d
    {
      assert level[m] in level;
    }

    /** After one pass every logged re-clustering still names a node of the
        grown tree, now shallower than `d + 1`. */
    lemma LevelStepRuns(before: seq<Node>, log0: seq<Call>, added: seq<Node>, runs: seq<Call>, level: seq<nat>, d: nat)
      requires WellFormed(before) && Driven(before, log0, d)
      requires level == AtDepth(before, d)
      requires LevelRuns(before, runs, level, Schedule(update, epsilon, d))
      ensures var after, log1 := before + added, log0 + runs;
        forall k :: 1 <= k < |log1| ==> Recluster(log1[k], after) && after[log1[k].parent].depth < d + 1
    {
      var after := before + added;
      var log1 := log0 + runs;
      forall k | 1 <= k < |log1| ensures Recluster(log1[k], after) && after[log1[k].parent].depth < d + 1 {
        if k < |log0| {
          assert log1[k] == log0[k];
          ReclusterKept(before, added, log0[k]);
        } else {
          assert log1[k] == runs[k - |log0|];
          ReclusterNew(before, added, runs, level, d, k - |log0|);
        }
      }
    }

    /** After one pass every node shallower than `d + 1` has been re-clustered. */
    lemma LevelStepCovers(before: seq<Node>, log0: seq<Call>, added: seq<Node>, runs: seq<Call>, level: seq<nat>, d: nat)
      requires WellFormed(before) && Driven(before, log0, d)
      requires forall i :: 0 < i < |before| ==> before[i].depth <= d
      requires level == AtDepth(before, d)
      requires HangsBelow(added, level, d + 1)
      requires LevelRuns(before, runs, level, Schedule(update, epsilon, d))
      ensures var after, log1 := before + added, log0 + runs;
        forall i :: 0 < i < |after| && after[i].depth < d + 1 ==> exists k :: 1 <= k < |log1| && log1[k].parent == i
    {
      var after := before + added;
      var log1 := log0 + runs;
      assert forall j :: |before| <= j < |after| ==> after[j].depth == d + 1 by {
        forall j | |before| <= j < |after| ensures after[j].depth == d + 1 {
          assert after[j] == added[j - |before|];
        }
      }
      forall i | 0 < i < |after| && after[i].depth < d + 1 ensures exists k :: 1 <= k < |log1| && log1[k].parent == i {
        assert i < |before| && after[i] == before[i];
        if before[i].depth < d {
          var k :| 1 <= k < |log0| && log0[k].parent == i;
          assert log1[k] == log0[k];
        } else {
          var m :| 0 <= m < |level| && level[m] == i;
          assert log1[|log0| + m] == runs[m];
        }
      }
    }

    /** One pass of the level loop keeps `Driven` one level further down. */
    lemma LevelStep(before: seq<Node>, log0: seq<Call>, added: seq<Node>, runs: seq<Call>, level: seq<nat>, d: nat)
      requires WellFormed(before) && Driven(before, log0, d)
      requires forall i :: 0 < i < |before| ==> before[i].depth <= d
      requires level == AtDepth(before, d)
      requires HangsBelow(added, level, d + 1)
      requires LevelRuns(before, runs, level, Schedule(update, epsilon, d))
      ensures Driven(before + added, log0 + runs, d + 1)
    {
      LevelStepRuns(before, log0, added, runs, level, d);
      LevelStepCovers(before, log0, added, runs, level, d);
      assert (log0 + runs)[0] == log0[0];
    }

    /** What holds of the tree `g`, the run log `log` and the run counter
        `count` once the driver has re-clustered every level shallower than
        `depth`: the tree is a grown tree, no node lies deeper than `depth`, the counter is one (the first run)
        plus one per node shallower than `depth`, and the log holds exactly
        the runs the driver makes. */
    ghost predicate Grew(g: seq<Node>, log: seq<Call>, count: nat, depth: nat)
    {
      && IsSquare(distance) && n == |distance|
      && Grown(g, n)
      && (forall i :: 0 < i < |g| ==> g[i].depth <= depth)
      && count == 1 + CountShallower(g, depth)
      && Driven(g, log, depth)
    }

    /** Once every node is shallower than `d`, the level loop has nothing
        left to do: the state also satisfies `Grew` at any deeper bound. */
    lemma GrewDeeper(g: seq<Node>, log: seq<Call>, count: nat, d: nat, cap: nat)
      requires Grew(g, log, count, d) && d <= cap
      requires AtDepth(g, d) == []
      ensures Grew(g, log, count, cap)
    {
      forall i | 0 < i < |g| ensures g[i].depth < d {
        assert i !in AtDepth(g, d);
      }
      CountAll(g, d);
      CountAll(g, cap);
      DrivenDeeper(g, log, d, cap);
    }

    /** The bookkeeping of one pass of the level loop, over values: the
        nodes `added` under the level `level` and the runs `runs` that made
        them take `Grew` one level further down. */
    lemma LevelDone(before: seq<Node>, log0: seq<Call>, count: nat, added: seq<Node>, runs: seq<Call>, level: seq<nat>, d: nat)
      requires Grew(before, log0, count, d) && level == AtDepth(before, d)
      requires Grown(before + added, n)
      requires HangsBelow(added, level, d + 1)
      requires LevelRuns(before, runs, level, Schedule(update, epsilon, d))
      ensures Grew(before + added, log0 + runs, count + |runs|, d + 1)
    {
      LevelStep(before, log0, added, runs, level, d);
      CountNextLevel(before, d);
      CountAppendDeep(before, added, d + 1);
      var after := before + added;
      forall i | 0 < i < |after| ensures after[i].depth <= d + 1 {
        if i >= |before| {
          assert after[i] == added[i - |before|];
        }
      }
    }

    /** One pass of the level loop: every node at depth `d` is re-clustered
        at radius `newEps`, the radius scheduled for depth `d`. */
    method DescendLevel(level: seq<nat>, newEps: real, ghost d: nat)
      requires Valid() && Grew(nodes, calls, dbscanPerformed, d) && Replay(calls) == Some(nodes)
      requires level == AtDepth(nodes, d) && newEps == Schedule(update, epsilon, d)
      modifies this`nodes, this`dbscanPerformed, this`calls
      ensures Valid() && Grew(nodes, calls, dbscanPerformed, d + 1) && Replay(calls) == Some(nodes)
    {
      ghost var before := nodes;
      ghost var logBefore := calls;
      ghost var count := dbscanPerformed;
      ghost var added, runs := RunDbscanOnLevel(level, newEps, d);
      assert level[..|level|] == level;
      LevelDone(before, logBefore, count, added, runs, level, d);
    }

    /** The run over all points at the original radius, on a bare root,
        gives a grown tree of depth 1 with one run counted. */
    lemma FirstGrew()
      requires IsSquare(distance) && n == |distance| && n > 0
      ensures Grew([Root] + Children(Range(n), LabelsOf(Range(n), epsilon), 0, 0), [Call(Range(n), epsilon, 0)], 1, 1)
    {
      var labels := LabelsOf(Range(n), epsilon);
      var kids := Children(Range(n), labels, 0, 0);
      var g := [Root] + kids;
      GrowKeepsGrown([Root], n, 0, labels);
      ChildrenShape(Range(n), labels, 0, 0);
      forall i | 0 < i < |g| ensures g[i].depth == 1 {
        assert g[i] == kids[i - 1];
      }
      CountNone(g, 1);
      assert Driven(g, [Call(Range(n), epsilon, 0)], 1);
    }

    /** Replaying that first run on a bare root builds the same tree. */
    lemma FirstReplay()
      requires IsSquare(distance) && n == |distance| && n > 0
      ensures Replay([Call(Range(n), epsilon, 0)]) == Some([Root] + Children(Range(n), LabelsOf(Range(n), epsilon), 0, 0))
    {
      var first := Call(Range(n), epsilon, 0);
      ReplayStep([], first);
      assert [] + [first] == [first];
    }

    /** The run over all points at the original radius, which hangs the
        first level of clusters below the root. */
    method FirstRun()
      requires Valid() && n > 0
      requires nodes == [Root] && calls == []
      modifies this`nodes, this`dbscanPerformed, this`calls
      ensures Valid() && Grew(nodes, calls, dbscanPerformed, 1) && Replay(calls) == Some(nodes)
    {
      FirstGrew();
      FirstReplay();
      RunDbscanOnNode(Range(n), epsilon, 0);
    }

    /** Growing the tree, the first part of `fit`: one run over all points
        at the original radius, then level after level every node of the
        current deepest level is re-clustered on its own points at the next
        radius, until a level is empty or `maxDepth` is reached. */
    method GrowTree(maxDepth: nat)
      requires Valid() && n > 0
      requires nodes == [Root] && calls == []
      modifies this`nodes, this`dbscanPerformed, this`calls
      ensures Valid() && Grew(nodes, calls, dbscanPerformed, DepthCap(maxDepth)) && Replay(calls) == Some(nodes)
    {
      var newEps := epsilon;
      FirstRun();
      var depth := 1;
      while true
        invariant Valid() && Grew(nodes, calls, dbscanPerformed, depth) && Replay(calls) == Some(nodes)
        invariant 1 <= depth <= DepthCap(maxDepth)
        invariant newEps == Schedule(update, epsilon, depth - 1)
        decreases maxDepth - depth
        modifies this`nodes, this`dbscanPerformed, this`calls
      {
        if depth >= maxDepth {
          assert depth == DepthCap(maxDepth);
          break;
        }
        var nextNodes := AtDepth(nodes, depth);
        if |nextNodes| == 0 {
          GrewDeeper(nodes, calls, dbscanPerformed, depth, DepthCap(maxDepth));
          break;
        }
        depth := depth + 1;
        newEps := update(newEps);
        DescendLevel(nextNodes, newEps, depth - 1);
      }
    }

    /** Extraction, the end of `fit`: the points of every non-root node
        holding at least `minPoints` points, deepest first, kept as the
        object's clusters and returned. */
    method ExtractClusters() returns (result: seq<seq<nat>>)
      requires Valid()
      modifies this`clusters
      ensures Valid()
      ensures nodes == old(nodes) && grown == old(grown) && calls == old(calls) && dbscanPerformed == old(dbscanPerformed)
      ensures result == Clusters(nodes, minPoints) && clusters == Some(result)
      ensures forall k :: 0 <= k < |result| ==> |result[k]| >= minPoints
    {
      result := Clusters(nodes, minPoints);
      clusters := Some(result);
    }

    /** The end of `fit`: overlap resolution followed by extraction. */
    method ResolveAndExtract() returns (result: seq<seq<nat>>)
      requires Valid()
      modifies this`nodes, this`clusters
      ensures Valid() && nodes == Resolve(old(nodes))
      ensures grown == old(grown) && calls == old(calls) && dbscanPerformed == old(dbscanPerformed)
      ensures result == Clusters(nodes, minPoints) && clusters == Some(result)
    {
      RemoveChildClusterPointsFromParents();
      result := ExtractClusters();
    }

    /** The whole fit: the tree is grown, kept as `grown`, its overlaps are
        resolved and the clusters of the resolved tree are returned. What
        the returned clusters satisfy is `FittedClusters`. */
    method Fit(maxDepth: nat) returns (result: seq<seq<nat>>)
      requires Valid() && n > 0
      requires nodes == [Root] && calls == []
      modifies this`nodes, this`dbscanPerformed, this`calls, this`grown, this`clusters
      ensures Valid() && Grew(grown, calls, dbscanPerformed, DepthCap(maxDepth)) && Replay(calls) == Some(grown)
      ensures nodes == Resolve(grown)
      ensures result == Clusters(nodes, minPoints) && clusters == Some(result)
    {
      GrowTree(maxDepth);
      grown := nodes;
      result := ResolveAndExtract();
    }
  }

  /** Construction with the original's defaults: radius 0.5, 5 points, and
      halving as the radius update. A non-positive `minPoints` is refused. */
  method Create(dbscan: Dbscan, distanceMatrix: Matrix, originalEpsilon: real := 0.5, minPoints: int := 5,
                updateEpsilonFunc: Option<real -> real> := None)
    returns (r: Result<VariousDbscan, Error>)
    requires IsSquare(distanceMatrix)
    ensures r.Failure? <==> minPoints <= 0
    ensures r.Failure? ==> r.error == InvalidParameter
    ensures r.Success? ==>
      var v := r.value;
      && fresh(v) && v.Valid()
      && v.distance == distanceMatrix && v.n == |distanceMatrix|
      && v.epsilon == originalEpsilon && v.minPoints == minPoints
      && (forall x :: v.update(x) == if updateEpsilonFunc.Some? then updateEpsilonFunc.value(x) else Halve(x))
      && (forall m, e, k :: v.dbscan(m, e, k) == dbscan(m, e, k))
      && v.nodes == [Root] && v.clusters == None && v.dbscanPerformed == 0 && v.calls == []
  {
    if minPoints <= 0 {
      return Failure(InvalidParameter);
    }
    var update := if updateEpsilonFunc.Some? then updateEpsilonFunc.value else Halve;
    var v := new VariousDbscan(distanceMatrix, originalEpsilon, minPoints, update, dbscan);
    return Success(v);
  }
}
