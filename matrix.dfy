/**
 * The pairwise similarity matrix of src/utils.py (`iou` and `iom`): an N×N
 * matrix of zeros in which, for every pair of positions i < j in the user
 * list, cell (i, j) is set to the metric of the two users' article sets.
 * The diagonal and the lower triangle are never written and stay 0, so the
 * matrix is upper-triangular rather than symmetric.
 */
module SimilarityMatrix {
  import opened Similarity

  /** A matrix as the value of its rows. */
  type Matrix = seq<seq<real>>

  /** Every user of the list has an entry in the article map. */
  predicate Keyed<U, A>(users: seq<U>, articles: map<U, set<A>>)
  {
    forall k :: 0 <= k < |users| ==> users[k] in articles
  }

  /**
   * What the matrix fill needs of its inputs: every user looked up is a key
   * of the map, and no pair i < j makes the metric divide by zero.
   */
  predicate Computable<U, A>(metric: Metric, users: seq<U>, articles: map<U, set<A>>)
  {
    && Keyed(users, articles)
    && forall i, j :: 0 <= i < j < |users| ==>
         Defined(metric, articles[users[i]], articles[users[j]])
  }

  /** The value the fill leaves in cell (i, j). */
  function Cell<U, A>(metric: Metric, users: seq<U>, articles: map<U, set<A>>, i: nat, j: nat): real
    requires Computable(metric, users, articles)
    requires i < |users| && j < |users|
  {
    if i < j then Score(metric, articles[users[i]], articles[users[j]]) else 0.0
  }

  /** The whole matrix the fill produces, as a value. */
  function Expected<U, A>(metric: Metric, users: seq<U>, articles: map<U, set<A>>): (m: Matrix)
    requires Computable(metric, users, articles)
    ensures |m| == |users|
    ensures forall i :: 0 <= i < |m| ==> |m[i]| == |users|
  {
    seq(|users|, i requires 0 <= i < |users| =>
      seq(|users|, j requires 0 <= j < |users| => Cell(metric, users, articles, i, j)))
  }

  /** The current contents of a two-dimensional array, row by row. */
  function Rows(M: array2<real>): (m: Matrix)
    reads M
    ensures |m| == M.Length0
    ensures forall i :: 0 <= i < |m| ==> |m[i]| == M.Length1
    ensures forall i, j :: 0 <= i < M.Length0 && 0 <= j < M.Length1 ==> m[i][j] == M[i, j]
  {
    seq(M.Length0, i reads M requires 0 <= i < M.Length0 =>
      seq(M.Length1, j reads M requires 0 <= j < M.Length1 => M[i, j]))
  }

  /**
   * The shared loop of `iou` and `iom`: allocate zeros, then for every i and
   * every j from i on, skip j == i and write the metric into cell (i, j).
   */
  method Pairwise<U, A>(metric: Metric, users: seq<U>, articles: map<U, set<A>>)
    returns (M: array2<real>)
    requires Computable(metric, users, articles)
    ensures fresh(M)
    ensures M.Length0 == |users| && M.Length1 == |users|
    ensures Rows(M) == Expected(metric, users, articles)
  {
    var n := |users|;
    M := new real[n, n]((_, _) => 0.0);
    for i := 0 to n
      invariant forall a, b :: 0 <= a < n && 0 <= b < n ==>
        M[a, b] == if a < i then Cell(metric, users, articles, a, b) else 0.0
    {
      var articles1 := articles[users[i]];
      for j := i to n
        invariant forall a, b :: 0 <= a < n && 0 <= b < n ==>
          M[a, b] == if a < i || (a == i && b < j) then Cell(metric, users, articles, a, b) else 0.0
      {
        if i != j {
          var articles2 := articles[users[j]];
          var common := articles1 * articles2;
          var denominator := match metric
            case IoU => |articles1 + articles2|
            case IoM => Min(|articles1|, |articles2|);
          M[i, j] := |common| as real / denominator as real;
        }
      }
    }
    ghost var expected := Expected(metric, users, articles);
    forall a | 0 <= a < n ensures Rows(M)[a] == expected[a] {
      assert forall b :: 0 <= b < n ==> Rows(M)[a][b] == expected[a][b];
    }
  }

  /** `iou`: the strict upper triangle holds intersection over union, the rest is 0. */
  method IouMatrix<U, A>(users: seq<U>, articles: map<U, set<A>>) returns (M: array2<real>)
    requires Computable(IoU, users, articles)
    ensures fresh(M)
    ensures M.Length0 == |users| && M.Length1 == |users|
    ensures forall i, j :: 0 <= i < |users| && 0 <= j < |users| ==>
      M[i, j] == if i < j then Iou(articles[users[i]], articles[users[j]]) else 0.0
  {
    M := Pairwise(IoU, users, articles);
    assert forall i, j :: 0 <= i < |users| && 0 <= j < |users| ==> M[i, j] == Rows(M)[i][j];
  }

  /** `iom`: the strict upper triangle holds intersection over minimum, the rest is 0. */
  method IomMatrix<U, A>(users: seq<U>, articles: map<U, set<A>>) returns (M: array2<real>)
    requires Computable(IoM, users, articles)
    ensures fresh(M)
    ensures M.Length0 == |users| && M.Length1 == |users|
    ensures forall i, j :: 0 <= i < |users| && 0 <= j < |users| ==>
      M[i, j] == if i < j then Iom(articles[users[i]], articles[users[j]]) else 0.0
  {
    M := Pairwise(IoM, users, articles);
    assert forall i, j :: 0 <= i < |users| && 0 <= j < |users| ==> M[i, j] == Rows(M)[i][j];
  }

  // ---------------------------------------------------------------------
  // Properties of the filled matrix

  /**
   * Upstream, a user is kept only with more than `minArticles` distinct
   * articles; with a non-negative bound every kept set is non-empty, which
   * is what either metric needs. (The grouping before the filter already
   * gives every user at least one article, so a negative bound lets no
   * empty set through either.)
   */
  lemma FilteredUsersComputable<U, A>(metric: Metric, users: seq<U>, articles: map<U, set<A>>, minArticles: int)
    requires 0 <= minArticles
    requires Keyed(users, articles)
    requires forall k :: 0 <= k < |users| ==> |articles[users[k]]| > minArticles
    ensures Computable(metric, users, articles)
  {
  }

  /** Every cell lies in [0, 1], and only the strict upper triangle can be non-zero. */
  lemma ExpectedCells<U, A>(metric: Metric, users: seq<U>, articles: map<U, set<A>>, i: nat, j: nat)
    requires Computable(metric, users, articles)
    requires i < |users| && j < |users|
    ensures 0.0 <= Expected(metric, users, articles)[i][j] <= 1.0
    ensures j <= i ==> Expected(metric, users, articles)[i][j] == 0.0
  {
  }

  /**
   * A cell above the diagonal is 1 when the two users' sets are equal and 0
   * when they are disjoint, under either metric.
   */
  lemma ExpectedIdentityAndDisjoint<U, A>(metric: Metric, users: seq<U>, articles: map<U, set<A>>, i: nat, j: nat)
    requires Computable(metric, users, articles)
    requires i < j < |users|
    ensures articles[users[i]] == articles[users[j]] ==> Expected(metric, users, articles)[i][j] == 1.0
    ensures Expected(metric, users, articles)[i][j] == 0.0 <==> articles[users[i]] !! articles[users[j]]
  {
    var a, b := articles[users[i]], articles[users[j]];
    ZeroIffDisjoint(metric, a, b);
    if a == b {
      CommonBounded(a, b);
      IdenticalScoresOne(metric, a);
    }
  }

  /** Cell by cell, the IoU matrix never exceeds the IoM matrix. */
  lemma IouMatrixAtMostIomMatrix<U, A>(users: seq<U>, articles: map<U, set<A>>)
    requires Computable(IoM, users, articles)
    ensures Computable(IoU, users, articles)
    ensures forall i, j :: 0 <= i < |users| && 0 <= j < |users| ==>
      Expected(IoU, users, articles)[i][j] <= Expected(IoM, users, articles)[i][j]
  {
    forall i, j | 0 <= i < j < |users|
      ensures Defined(IoU, articles[users[i]], articles[users[j]])
    {
      CommonBounded(articles[users[i]], articles[users[j]]);
    }
    forall i, j | 0 <= i < j < |users|
      ensures Iou(articles[users[i]], articles[users[j]]) <= Iom(articles[users[i]], articles[users[j]])
    {
      IouAtMostIom(articles[users[i]], articles[users[j]]);
    }
  }

  /**
   * The matrix is not symmetric: two users with the same single article get
   * 1 above the diagonal and 0 in the mirrored cell.
   */
  lemma NotSymmetric(metric: Metric)
    ensures Computable(metric, [0, 1], map[0 := {7}, 1 := {7}])
    ensures Expected(metric, [0, 1], map[0 := {7}, 1 := {7}])[0][1] == 1.0
    ensures Expected(metric, [0, 1], map[0 := {7}, 1 := {7}])[1][0] == 0.0
  {
  }
}
