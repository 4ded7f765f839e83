/**
 * The similarity matrix of src/utils.py fed into `build_graph`: what the
 * resulting graph says about the users' article sets.
 */
module Pipeline {
  import opened Similarity
  import opened SimilarityMatrix
  import opened SimilarityGraph

  /** A filled matrix can be read on every pair the graph builder visits. */
  lemma ExpectedReadable<U, A>(metric: Metric, users: seq<U>, articles: map<U, set<A>>)
    requires Computable(metric, users, articles)
    ensures UpperReadable(Expected(metric, users, articles), |users|)
  {
  }

  /**
   * Users i < j are joined by an edge exactly when their similarity is
   * strictly above the threshold, and the edge is weighted by it.
   */
  lemma EdgeIffSimilar<U, A>(metric: Metric, users: seq<U>, articles: map<U, set<A>>, threshold: real,
                             i: nat, j: nat, w: real)
    requires Computable(metric, users, articles) && Distinct(users)
    requires i < j < |users|
    ensures UpperReadable(Expected(metric, users, articles), |users|)
    ensures Edge(users[i], users[j], w) in ThresholdEdges(users, Expected(metric, users, articles), threshold)
      <==> Score(metric, articles[users[i]], articles[users[j]]) > threshold
           && w == Score(metric, articles[users[i]], articles[users[j]])
  {
  }

  /**
   * Every similarity is at most 1, so a threshold of 1 or more leaves the
   * graph without edges (and, nodes coming only from edges, without nodes).
   */
  lemma HighThresholdNoEdges<U, A>(metric: Metric, users: seq<U>, articles: map<U, set<A>>, threshold: real)
    requires Computable(metric, users, articles)
    requires threshold >= 1.0
    ensures UpperReadable(Expected(metric, users, articles), |users|)
    ensures ThresholdEdges(users, Expected(metric, users, articles), threshold) == {}
  {
  }

  /**
   * Three users with article sets A = {1, 2, 3}, B = {2, 3, 4} and
   * C = {10, 11}: IoU(A, B) = 2/4 and IoU(A, C) = IoU(B, C) = 0, so with
   * threshold 0.3 the graph has the one edge (A, B) of weight 0.5, and C,
   * with no edge, is not a node.
   */
  lemma ThreeUserExample()
    ensures Computable(IoU, ['A', 'B', 'C'], map['A' := {1, 2, 3}, 'B' := {2, 3, 4}, 'C' := {10, 11}])
    ensures UpperReadable(Expected(IoU, ['A', 'B', 'C'], map['A' := {1, 2, 3}, 'B' := {2, 3, 4}, 'C' := {10, 11}]), 3)
    ensures ThresholdEdges(['A', 'B', 'C'],
      Expected(IoU, ['A', 'B', 'C'], map['A' := {1, 2, 3}, 'B' := {2, 3, 4}, 'C' := {10, 11}]), 0.3)
      == {Edge('A', 'B', 0.5)}
    ensures Endpoints({Edge('A', 'B', 0.5)}) == {'A', 'B'}
  {
    var users := ['A', 'B', 'C'];
    var articles: map<char, set<int>> := map['A' := {1, 2, 3}, 'B' := {2, 3, 4}, 'C' := {10, 11}];
    var a, b, c: set<int> := {1, 2, 3}, {2, 3, 4}, {10, 11};
    assert Computable(IoU, users, articles);
    var m := Expected(IoU, users, articles);
    ExpectedReadable(IoU, users, articles);
    assert a * b == {2, 3} && a + b == {1, 2, 3, 4};
    assert m[0][1] == 0.5;
    ZeroIffDisjoint(IoU, a, c);
    ZeroIffDisjoint(IoU, b, c);
    assert m[0][2] == 0.0 && m[1][2] == 0.0;
    var edges := ThresholdEdges(users, m, 0.3);
    forall e | e in edges ensures e == Edge('A', 'B', 0.5) {
      var i, j :| 0 <= i < j < 3 && m[i][j] > 0.3 && e == Edge(users[i], users[j], m[i][j]);
      assert i == 0 && j == 1;
    }
    assert Edge(users[0], users[1], m[0][1]) in edges;
  }
}
