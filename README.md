# VariousDBSCAN in Dafny

This project models `VariousDBSCAN`, a multi-density ("progressive") clustering
algorithm over a fixed distance matrix between `n` points:

- A first DBSCAN run over all points at the original radius hangs one child of an
  empty root per cluster found.
- Level after level, every node of the current deepest level is re-clustered on
  its own points. Each level uses a radius shrunk by the update function, which
  halves by default. This repeats until a level is empty or `max_depth` is
  reached.
- Overlap resolution then takes, deepest node first, each node's points out of
  all of its ancestors.
- Extraction returns, deepest first, the points of every non-root node that
  still holds at least `min_points` points.

The model is split into modules that follow these parts:

- `Indices`: lists of point indices (`Range`, `NoDup`, `Disjoint`, `SubsetOf`,
  and `Without`, the order-keeping set difference).
- `Primitive`: the distance matrix and its submatrix. DBSCAN itself is an
  uninterpreted function `Dbscan`, constrained only by its labelling contract:
  one label per row, `-1` for noise, and cluster numbers `0..max` with none
  skipped. `Select` groups indices by label.
- `ClusterTree`: the cluster tree as an arena. Nodes live in a sequence and
  name their parent by position; position 0 is the root. This module also
  defines:
  - the children one run attaches (`Children`);
  - the tree invariant `Grown`: siblings are disjoint, a child's points are a
    subset of its parent's, and unrelated nodes are disjoint;
  - levels (`AtDepth`);
  - the deepest-first order (`DeepestFirst`).
- `Resolution`: the overlap-resolution pass as a fold of `Strip` over the
  deepest-first order.
- `Extraction`: the final filter and order (`Clusters`) and what it satisfies.
- `Progressive`: the `VariousDbscan` class.
  - Its fields are the tree, the clusters and the run counter. There are also
    two ghost fields: the log of primitive runs, and the tree as grown before
    resolution.
  - `RunDbscanOnNode` and `RemoveChildClusterPointsFromParents` are the
    original's methods of those names. `Fit` is the original's `fit`, split
    into its parts: `GrowTree` (the first run in `FirstRun`, one pass of the
    level loop in `DescendLevel`, which re-clusters a level through
    `RunDbscanOnLevel` and `RunDbscanOnLevelNode`) and `ResolveAndExtract`
    (resolution, then `ExtractClusters`).
  - The driver loop is proved against `Replay`, the tree that the logged runs
    build (defined only when every run in the log took effect), and `Driven`,
    which says which runs the driver makes.

## Model

| member | source | states |
|---|---|---|
| Progressive.Create | variousDBSCAN.py:7-40 | Construction fails exactly when `min_points <= 0`. Otherwise: the defaults are radius 0.5, 5 points and halving as the update; the root holds no points; the clusters are unset; the run counter is 0. |
| Progressive.VariousDbscan.constructor | variousDBSCAN.py:27-40 | The fields hold the given parameters and `n` is the number of rows. The tree is the bare root, the clusters are unset and the counter is 0. |
| Progressive.VariousDbscan.RunDbscanOnNode | variousDBSCAN.py:42-67 | One run raises the counter by exactly one. It appends exactly the children of the labelling of the submatrix on `pointsIdx`, at the parent's depth + 1, and keeps the tree well formed with every index below `n`. |
| Primitive.Submatrix | variousDBSCAN.py:58 | Entry `(i, j)` of the submatrix is entry `(idx[i], idx[j])` of the matrix, and the submatrix is square of size `len(idx)`. |
| Primitive.SubmatrixOfRange | variousDBSCAN.py:95 | The submatrix on `range(n)` is the whole matrix. |
| Primitive.SubmatrixSymmetric | variousDBSCAN.py:58 | The submatrix of a symmetric distance matrix is symmetric. |
| Primitive.MaxLabel | variousDBSCAN.py:61 | The maximum label occurs in the labelling and bounds every label. |
| Primitive.NumClusters | variousDBSCAN.py:61 | `max(labels) + 1` exceeds every label, and every cluster number below it occurs. |
| Primitive.AllNoiseNoClusters | variousDBSCAN.py:61 | An all-noise labelling yields no clusters. |
| Primitive.Select | variousDBSCAN.py:62-63 | `x` is selected exactly when `x == idx[k]` for some position `k` labelled `c`. |
| Primitive.SelectNoDup | variousDBSCAN.py:62-63 | Selecting from a list without repeats gives a list without repeats. |
| Primitive.SelectDisjoint | variousDBSCAN.py:62-63 | Selections for two different labels share no index. |
| ClusterTree.Children | variousDBSCAN.py:61-67 | One child per cluster number `0..max(labels)`. |
| ClusterTree.ChildrenShape | variousDBSCAN.py:65-67 | Each child hangs under the given parent, one level deeper. |
| ClusterTree.ChildrenOwnPoints | variousDBSCAN.py:62-66 | Each child's points are non-empty, without repeats, and a subset of the clustered indices. |
| ClusterTree.ChildrenApart | variousDBSCAN.py:61-66 | Children of one run are pairwise disjoint. |
| ClusterTree.ChildrenNoise | variousDBSCAN.py:61-66 | A position is noise if and only if its index lands in no child. |
| ClusterTree.ChildrenPartition | variousDBSCAN.py:61-67 | All of the above together. In addition, child `c` is named `c`, and every non-noise index lands in the child of its label. |
| ClusterTree.GrowKeepsGrown | variousDBSCAN.py:61-67 | Attaching a run's children under a leaf keeps the tree invariant. The invariant covers: points below `n` without repeats; non-root nodes non-empty; a child's points within its parent's; nodes not in an ancestor relation disjoint. |
| ClusterTree.AppendRelated | variousDBSCAN.py:61-67 | After a run under a leaf, any two nodes are either ancestor and descendant or disjoint. |
| ClusterTree.AtDepth | variousDBSCAN.py:101 | Exactly the non-root nodes at depth `d`, in increasing (creation) order. |
| ClusterTree.CountNextLevel | variousDBSCAN.py:105-108 | Nodes shallower than `d + 1` are the nodes shallower than `d` plus level `d`. |
| ClusterTree.CountAll | variousDBSCAN.py:96-103 | When every node is shallower than `d`, all non-root nodes are counted. |
| ClusterTree.MaxDepth | variousDBSCAN.py:110-111 | No node is deeper than `MaxDepth`. |
| ClusterTree.MaxDepthReached | variousDBSCAN.py:110-111 | Some node sits at depth `MaxDepth`, so it is the largest depth in the tree. |
| ClusterTree.DeepestFirst | variousDBSCAN.py:110-111 | The order `sorted(descendants, key=-depth)` as levels from the deepest up; its positions are in the tree. What it lists and in what order is stated by `DeepestFirstSpec`. |
| ClusterTree.LevelsMembers | variousDBSCAN.py:110-111 | Levels `d` down to 1 hold exactly the non-root nodes of depth 1..d. |
| ClusterTree.LevelsNoDup | variousDBSCAN.py:110-111 | Levels `d` down to 1 list no node twice. |
| ClusterTree.LevelsOrdered | variousDBSCAN.py:110-111 | Levels `d` down to 1 are in non-increasing depth. |
| ClusterTree.DeepestFirstSpec | variousDBSCAN.py:110-111 | The deepest-first order lists every non-root node (the `descendants` of the root) exactly once, never the root, in non-increasing depth. |
| ClusterTree.AncestorShallower | variousDBSCAN.py:73 | An ancestor sits at a smaller depth than its descendant. |
| Indices.Without | variousDBSCAN.py:76-77 | `x` remains exactly when `x` was in the list and is not in the removed points. |
| Indices.WithoutNoDup | variousDBSCAN.py:76-77 | The difference of a list without repeats has no repeats. |
| Resolution.StripChain | variousDBSCAN.py:73-77 | The walk from a node up to the root, taking the points out of each node on the way; it keeps the tree's shape. Its effect node by node is `StripChainSpec`. |
| Resolution.Strip | variousDBSCAN.py:72-77 | One child's turn: its points taken out of all its ancestors; it keeps the tree's shape. Its effect is `StripSpec`. |
| Resolution.ResolveAll | variousDBSCAN.py:71-77 | The turns of the nodes of `order`, one after the other; it keeps the tree's shape. Its properties are the `Resolve*` lemmas below. |
| Resolution.StripChainSpec | variousDBSCAN.py:73-77 | Walking up from `a`, the points are removed from `a` and every ancestor of `a`, and every other node is unchanged. |
| Resolution.StripSpec | variousDBSCAN.py:72-77 | One child's turn removes its points from exactly its ancestors and leaves every other node unchanged. |
| Resolution.ResolveShrinks | variousDBSCAN.py:69-77 | After resolution each node's points are a subset of its original points and stay without repeats, and the root stays empty. |
| Resolution.ResolveSeparates | variousDBSCAN.py:69-77 | After the pass over `order`, each processed node is disjoint from every ancestor. |
| Resolution.ResolveDisjointFromDescendants | variousDBSCAN.py:69-77 | With every non-root node processed, each node's points are disjoint from those of all its descendants. |
| Resolution.ResolveLeaf | variousDBSCAN.py:69-77 | A node with no descendants is unchanged. |
| Resolution.ResolveKeeps | variousDBSCAN.py:69-77 | A point removed from a node is still held by that node or by one of its descendants. |
| Resolution.ResolveKeepsAll | variousDBSCAN.py:69-77 | The union of all nodes' points is unchanged. |
| Resolution.ResolveKeepsNoise | variousDBSCAN.py:69-77 | A point that no descendant holds (noise at deeper levels) stays with the node that held it. |
| Extraction.Resolve | variousDBSCAN.py:69-77 | Resolution keeps the tree's shape: parents, depths and names. |
| Extraction.ResolvedInRange | variousDBSCAN.py:69-77 | Resolution keeps every index below `n`. |
| Extraction.ResolvedPairwiseDisjoint | variousDBSCAN.py:69-77 | In a grown tree, after resolution, any two distinct nodes are disjoint. |
| Extraction.Clusters | variousDBSCAN.py:110-112 | The extracted clusters; every one holds at least `min_points` points. What it lists and in what order is stated by `ExtractionSpec`. |
| Extraction.Survivors | variousDBSCAN.py:110-112 | The filter keeps exactly the listed nodes holding at least `min_points` points. |
| Extraction.SurvivorsNonIncreasing | variousDBSCAN.py:110-112 | Filtering keeps a non-increasing depth order. |
| Extraction.ExtractionSpec | variousDBSCAN.py:110-112 | The result lists the points of exactly the non-root nodes with at least `min_points` points, each once, in non-increasing depth. |
| Extraction.ClustersDisjoint | variousDBSCAN.py:109-112 | The clusters extracted from a resolved grown tree are pairwise disjoint. |
| Extraction.ResolvedAtMost | variousDBSCAN.py:109-112 | No resolved node holds more than `n` points. |
| Extraction.TooFewPoints | variousDBSCAN.py:110-112 | With fewer than `min_points` points in total, there are no clusters. |
| Extraction.FittedClusters | variousDBSCAN.py:109-112 | The clusters `fit` returns all meet the size floor and are pairwise disjoint. |
| Progressive.Schedule | variousDBSCAN.py:106 | The radius at depth `d` is `update` applied `d` times to the original radius. For an update that shrinks positive radii, as the original asks of it, the radius stays positive, at most the original, and below it from depth 1 on. |
| Progressive.Halve | variousDBSCAN.py:36-37 | The default update: twice the result is the input, so a positive radius gives a smaller positive one. |
| Progressive.VariousDbscan.LabelsOf | variousDBSCAN.py:57-58 | The primitive's labels on the submatrix of the given points: one label per point, each at least `-1`, cluster numbers `0..max` with none skipped. |
| Progressive.VariousDbscan.ReplayStep | variousDBSCAN.py:57-67 | Replaying one more run whose parent exists appends that run's children. |
| Progressive.VariousDbscan.ReplayApplies | variousDBSCAN.py:57-67 | In a log that replays, every run found its parent among the nodes the earlier runs built, and clustered a non-empty list of points below `n`. So no logged run was skipped. |
| Progressive.VariousDbscan.FirstGrew | variousDBSCAN.py:94-96 | The first run's children under a bare root form a grown tree of depth 1, and the count of one run matches it. |
| Progressive.VariousDbscan.FirstReplay | variousDBSCAN.py:94-96 | Replaying the first run alone builds that same tree. |
| Progressive.VariousDbscan.FirstRun | variousDBSCAN.py:94-96 | The first run, over `range(n)` at the original radius, leaves a grown tree of depth 1, a counter of 1 and the log of that one run. |
| Progressive.VariousDbscan.RunDbscanOnLevelNode | variousDBSCAN.py:107-108 | Re-clustering the `j`-th node of the level extends the level's progress by that node's run and children. |
| Progressive.VariousDbscan.RunDbscanOnLevel | variousDBSCAN.py:107-108 | The level's nodes are re-clustered in order, each on its own points at the new radius. All new nodes sit one level deeper under nodes of the level. The tree stays grown and equal to the replay of the log. |
| Progressive.VariousDbscan.LevelStep | variousDBSCAN.py:105-108 | After a level's runs, the log holds exactly the driver's runs for one more level. |
| Progressive.VariousDbscan.LevelDone | variousDBSCAN.py:105-108 | After a level's runs: the tree is grown; no node is deeper than `d + 1`; the counter is 1 plus the number of nodes shallower than `d + 1`; the log is the driver's. |
| Progressive.VariousDbscan.DescendLevel | variousDBSCAN.py:105-108 | One pass of the loop body moves all of this from depth `d` to `d + 1`. |
| Progressive.VariousDbscan.GrewDeeper | variousDBSCAN.py:101-103 | Stopping on an empty level loses nothing: the state satisfies the bound `max(1, max_depth)`. |
| Progressive.VariousDbscan.DrivenDeeper | variousDBSCAN.py:101-103 | Once every node is shallower than `d`, the driver's runs for depth `d` are its runs for any deeper bound. |
| Progressive.VariousDbscan.GrowTree | variousDBSCAN.py:94-108 | The grown tree has no node deeper than `max(1, max_depth)`. The counter is 1 plus the number of nodes shallower than that bound. Every run is logged: first `range(n)` at the original radius, then each node on its own points at the radius scheduled for its depth. The tree is exactly what those runs build, every run taking effect. |
| Progressive.VariousDbscan.RemoveChildClusterPointsFromParents | variousDBSCAN.py:69-77 | The tree becomes the resolution of the old tree, stays well formed with indices below `n`, and nothing else changes. |
| Progressive.VariousDbscan.ExtractClusters | variousDBSCAN.py:110-113 | The stored and returned clusters are the extraction of the tree, each of at least `min_points` points. |
| Progressive.VariousDbscan.ResolveAndExtract | variousDBSCAN.py:109-113 | Resolution then extraction; the log and counter are unchanged. |
| Progressive.VariousDbscan.Fit | variousDBSCAN.py:79-113 | The grown tree satisfies everything `GrowTree` states. The final tree is its resolution, and the result is the extraction of the final tree, also stored in `clusters`. |

## Left out

- DBSCAN's internals (sklearn) are not modelled. The primitive is any function meeting the labelling contract: one label per row, `-1` for noise, cluster numbers `0..max` with none skipped. Because sklearn's labels are contiguous, every child is non-empty.
- Floating point: radii are `real`, and the default update is exact halving.
- numpy slicing and `where` are not modelled beyond `Submatrix` and `Select`.
- anytree is replaced by the arena and its parent positions, including the deprecated `anchestors` alias.
  - The original walks the ancestors root first; the model walks parent first. Both subtract the same points from the same nodes, and set difference does not depend on the order.
  - The root is among the ancestors and is processed too; it holds no points.
- Point lists keep the order in which they were found. The original may reorder them twice: in `set(np.where(...)[0])` when a child's points are gathered, and in `list(set(...).difference(...))` during resolution. The model keeps the membership and does not follow that order.
- Among nodes of equal depth, the model lists them in creation order. This coincides with the original's order: anytree lists each level as the children of the level above, in the order they were attached, and the driver creates them in that same order. Only non-increasing depth is proved, not this tie order.
- A node's `name` is the cluster number as an integer; the original's string form is not modelled. The root's empty name is `-1`.
- The `isinstance(min_points, int)` check has no counterpart, because the parameter is typed `int`. The assertion's message text is not modelled.
- The distance matrix being square is the caller's obligation; the original never checks it.
- `max_depth = np.inf` is not modelled. `maxDepth` is a `nat`, because the loop need not end with an update function that does not shrink.
- Fit: requires the freshly constructed state. A second `fit` on the same object would append to the old tree and is not modelled.
- Fit: requires `n > 0`; `max` over the labels of an empty matrix raises in the original.
- Fit: the size floor and pairwise disjointness of the returned clusters are not in its ensures clause. They are proved about the same expression by `Extraction.FittedClusters`.
- The run log and the pre-resolution tree (`calls`, `grown`) are ghost bookkeeping with no counterpart in the original.
