/** The density clustering primitive (sklearn's DBSCAN on a precomputed
    distance matrix), seen only through its labelling contract, and the
    grouping of one labelling into clusters of original point indices. */
module Primitive {
  import opened Indices

  /** A dense distance matrix, one row per point. */
  type Matrix = seq<seq<real>>

  /** The label the primitive gives to a point that joins no cluster. */
  const Noise: int := -1

  predicate IsSquare(m: Matrix)
  {
    forall i :: 0 <= i < |m| ==> |m[i]| == |m|
  }

  predicate IsSymmetric(m: Matrix)
    requires IsSquare(m)
  {
    forall i, j :: 0 <= i < |m| && 0 <= j < |m| ==> m[i][j] == m[j][i]
  }

  /** The distances among the points `idx`, rows and columns reordered by
      `idx` (numpy's `distance_matrix[points_idx][:, points_idx]`). */
  function Submatrix(m: Matrix, idx: seq<nat>): (s: Matrix)
    requires IsSquare(m) && InRange(idx, |m|)
    ensures IsSquare(s) && |s| == |idx|
    ensures forall i, j :: 0 <= i < |idx| && 0 <= j < |idx| ==> s[i][j] == m[idx[i]][idx[j]]
  {
    seq(|idx|, i requires 0 <= i < |idx| => seq(|idx|, j requires 0 <= j < |idx| => m[idx[i]][idx[j]]))
  }

  /** The first primitive run sees the whole input matrix. */
  lemma SubmatrixOfRange(m: Matrix)
    requires IsSquare(m)
    ensures Submatrix(m, Range(|m|)) == m
  {
    var s := Submatrix(m, Range(|m|));
    forall i | 0 <= i < |m| ensures s[i] == m[i] {
      assert |s[i]| == |m[i]|;
    }
  }

  /** Every later run still sees a distance matrix: symmetric input gives a
      symmetric submatrix. */
  lemma SubmatrixSymmetric(m: Matrix, idx: seq<nat>)
    requires IsSquare(m) && IsSymmetric(m) && InRange(idx, |m|)
    ensures IsSymmetric(Submatrix(m, idx))
  {
  }

  /** What sklearn promises about `labels_`: one label per point, each a
      cluster number or Noise, and the cluster numbers used are 0, 1, ..., k-1
      with none skipped. */
  predicate ProperLabels(labels: seq<int>, size: nat)
  {
    && |labels| == size
    && (forall k :: 0 <= k < |labels| ==> labels[k] >= Noise)
    && (forall k, c :: 0 <= k < |labels| && 0 <= c < labels[k] ==> c in labels)
  }

  /** The labelling that calls every point noise. */
  function AllNoise(m: Matrix, eps: real, minSamples: nat): (labels: seq<int>)
    ensures ProperLabels(labels, |m|)
  {
    seq(|m|, _ => Noise)
  }

  /** The primitive: a distance matrix, a radius and a minimum neighbour
      count in, one label per row out. */
  type Dbscan = f: (Matrix, real, nat) -> seq<int> | forall m, eps, k :: ProperLabels(f(m, eps, k), |m|)
    witness AllNoise

  /** Python's `max(labels)`; undefined (raises) on an empty labelling. */
  function MaxLabel(labels: seq<int>): (top: int)
    requires |labels| > 0
    ensures top in labels
    ensures forall k :: 0 <= k < |labels| ==> labels[k] <= top
  {
    if |labels| == 1 then labels[0]
    else
      var rest := MaxLabel(labels[1..]);
      if labels[0] >= rest then labels[0] else rest
  }

  /** The number of children one run creates, `max(labels) + 1`. */
  function NumClusters(labels: seq<int>): (count: nat)
    requires |labels| > 0 && ProperLabels(labels, |labels|)
    ensures forall k :: 0 <= k < |labels| ==> labels[k] < count
    ensures forall c :: 0 <= c < count ==> c in labels
  {
    MaxLabel(labels) + 1
  }

  /** A labelling with no cluster label yields no clusters. */
  lemma AllNoiseNoClusters(labels: seq<int>)
    requires |labels| > 0 && ProperLabels(labels, |labels|)
    requires forall k :: 0 <= k < |labels| ==> labels[k] == Noise
    ensures NumClusters(labels) == 0
  {
    var top := MaxLabel(labels);
    var k :| 0 <= k < |labels| && labels[k] == top;
  }

  /** The original indices at the positions labelled `c`, in position order
      (the comprehension `[points_idx[k] for k in local_idx]`). */
  function Select(idx: seq<nat>, labels: seq<int>, c: int): (r: seq<nat>)
    requires |labels| == |idx|
    ensures forall x :: x in r <==> exists k :: 0 <= k < |idx| && labels[k] == c && idx[k] == x
    ensures |r| <= |idx|
  {
    if |idx| == 0 then []
    else
      var rest := Select(idx[1..], labels[1..], c);
      assert forall x :: x in rest <==> exists k :: 1 <= k < |idx| && labels[k] == c && idx[k] == x by {
        forall x ensures x in rest <==> exists k :: 1 <= k < |idx| && labels[k] == c && idx[k] == x {
          if x in rest {
            var k :| 0 <= k < |idx| - 1 && labels[1..][k] == c && idx[1..][k] == x;
            assert labels[k + 1] == c && idx[k + 1] == x;
          }
          if exists k :: 1 <= k < |idx| && labels[k] == c && idx[k] == x {
            var k :| 1 <= k < |idx| && labels[k] == c && idx[k] == x;
            assert labels[1..][k - 1] == c && idx[1..][k - 1] == x;
          }
        }
      }
      (if labels[0] == c then [idx[0]] else []) + rest
  }

  /** A cluster drawn from a list without repetitions has none either. */
  lemma {:induction false} SelectNoDup(idx: seq<nat>, labels: seq<int>, c: int)
    requires |labels| == |idx| && NoDup(idx)
    ensures NoDup(Select(idx, labels, c))
  {
    if |idx| > 0 {
      assert NoDup(idx[1..]);
      SelectNoDup(idx[1..], labels[1..], c);
      var rest := Select(idx[1..], labels[1..], c);
      forall x | x in rest ensures x != idx[0] {
        var k :| 0 <= k < |idx| - 1 && labels[1..][k] == c && idx[1..][k] == x;
        assert idx[k + 1] == x;
      }
      var head := if labels[0] == c then [idx[0]] else [];
      NoDupConcat(head, rest);
    }
  }

  /** Clusters for two different labels share no index. */
  lemma SelectDisjoint(idx: seq<nat>, labels: seq<int>, c: int, d: int)
    requires |labels| == |idx| && NoDup(idx) && c != d
    ensures Disjoint(Select(idx, labels, c), Select(idx, labels, d))
  {
  }
}
