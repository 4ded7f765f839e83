/**
 * `build_graph` of src/utils.py: walk the strict upper triangle of the
 * similarity matrix and add an undirected weighted edge between users i and
 * j exactly when their cell is strictly above the threshold. A node exists
 * only as the endpoint of an added edge.
 *
 * The graph is a set of weighted edges, each stored once with the user of
 * the lower position first, plus the set of nodes that adding them created.
 */
module SimilarityGraph {
  import opened Similarity
  import opened SimilarityMatrix

  datatype Edge<U> = Edge(u: U, v: U, weight: real)

  datatype Graph<U> = Graph(nodes: set<U>, edges: set<Edge<U>>)

  /** Adding an edge also adds its two endpoints as nodes. */
  function AddEdge<U(==)>(g: Graph<U>, u: U, v: U, weight: real): Graph<U>
  {
    Graph(g.nodes + {u, v}, g.edges + {Edge(u, v, weight)})
  }

  /** The users incident to some edge. */
  function Endpoints<U(==)>(edges: set<Edge<U>>): set<U>
  {
    (set e | e in edges :: e.u) + (set e | e in edges :: e.v)
  }

  /** No user appears at two positions of the list. */
  predicate Distinct<U(==)>(users: seq<U>)
  {
    forall i, j :: 0 <= i < j < |users| ==> users[i] != users[j]
  }

  /** Every cell (i, j) with i < j < n can be read. */
  predicate UpperReadable(m: Matrix, n: nat)
  {
    n <= 1 || (n - 1 <= |m| && forall i :: 0 <= i < n - 1 ==> n <= |m[i]|)
  }

  /** The edges of the graph: one per pair i < j whose cell exceeds the threshold. */
  function ThresholdEdges<U(==)>(users: seq<U>, m: Matrix, threshold: real): set<Edge<U>>
    requires UpperReadable(m, |users|)
  {
    set i, j | 0 <= i < j < |users| && m[i][j] > threshold :: Edge(users[i], users[j], m[i][j])
  }

  /** The edges of pairs visited before (i, j) in row-major order. */
  ghost function EdgesBefore<U>(users: seq<U>, m: Matrix, threshold: real, i: int, j: int): set<Edge<U>>
    requires UpperReadable(m, |users|)
  {
    set a, b | 0 <= a < b < |users| && (a < i || (a == i && b < j)) && m[a][b] > threshold
      :: Edge(users[a], users[b], m[a][b])
  }

  /**
   * `build_graph`: for every i and every j > i, add the edge
   * (users[i], users[j]) weighted by cell (i, j) when that cell is strictly
   * above the threshold.
   */
  method BuildGraph<U(==)>(users: seq<U>, M: array2<real>, threshold: real) returns (g: Graph<U>)
    requires Distinct(users)
    requires |users| <= 1 || (|users| - 1 <= M.Length0 && |users| <= M.Length1)
    ensures UpperReadable(Rows(M), |users|)
    ensures g.edges == ThresholdEdges(users, Rows(M), threshold)
    ensures g.nodes == Endpoints(g.edges)
  {
    var n := |users|;
    ghost var m := Rows(M);
    assert UpperReadable(m, n);
    g := Graph({}, {});
    for i := 0 to n
      invariant Visited(g, users, m, threshold, i, 0)
    {
      RowStart(g, users, m, threshold, i);
      for j := i + 1 to n
        invariant Visited(g, users, m, threshold, i, j)
      {
        var weight := M[i, j];
        assert weight == m[i][j];
        VisitCell(g, users, m, threshold, i, j);
        if weight > threshold {
          g := AddEdge(g, users[i], users[j], weight);
        }
      }
      RowDone(g, users, m, threshold, i);
    }
    AllRowsDone(g, users, m, threshold);
  }

  // ---------------------------------------------------------------------
  // Properties of the graph

  /** With distinct users, a position is determined by its user. */
  lemma {:induction false} SamePosition<U>(users: seq<U>, p: nat, q: nat)
    requires Distinct(users)
    requires p < |users| && q < |users| && users[p] == users[q]
    ensures p == q
  {
  }

  /**
   * For a pair i < j the graph holds the edge (users[i], users[j], w)
   * exactly when cell (i, j) is strictly above the threshold and w is that
   * cell; a cell equal to the threshold gives no edge. The pair is never
   * stored the other way round.
   */
  lemma EdgeIff<U>(users: seq<U>, m: Matrix, threshold: real, i: nat, j: nat, w: real)
    requires Distinct(users) && UpperReadable(m, |users|)
    requires i < j < |users|
    ensures Edge(users[i], users[j], w) in ThresholdEdges(users, m, threshold)
      <==> m[i][j] > threshold && w == m[i][j]
    ensures Edge(users[j], users[i], w) !in ThresholdEdges(users, m, threshold)
  {
  }

  /** With distinct users no edge joins a user to itself. */
  lemma NoSelfLoops<U>(users: seq<U>, m: Matrix, threshold: real)
    requires Distinct(users) && UpperReadable(m, |users|)
    ensures forall e :: e in ThresholdEdges(users, m, threshold) ==> e.u != e.v
  {
  }

  /**
   * With distinct users each unordered pair of users carries at most one
   * edge: two edges with the same endpoints, in either orientation, are
   * the same edge with the same weight.
   */
  lemma OneEdgePerPair<U>(users: seq<U>, m: Matrix, threshold: real)
    requires Distinct(users) && UpperReadable(m, |users|)
    ensures forall e1, e2 ::
      (e1 in ThresholdEdges(users, m, threshold) && e2 in ThresholdEdges(users, m, threshold)
       && {e1.u, e1.v} == {e2.u, e2.v}) ==> e1 == e2
  {
  }

  /**
   * The nodes of the graph: users[k] is a node exactly when some cell of
   * row k to the right of the diagonal, or of column k above it, is
   * strictly above the threshold. A user with no such cell is absent.
   */
  lemma NodeIff<U>(users: seq<U>, m: Matrix, threshold: real, k: nat)
    requires Distinct(users) && UpperReadable(m, |users|)
    requires k < |users|
    ensures users[k] in Endpoints(ThresholdEdges(users, m, threshold)) <==>
      (exists j :: k < j < |users| && m[k][j] > threshold)
      || (exists i :: 0 <= i < k && m[i][k] > threshold)
  {
    var edges := ThresholdEdges(users, m, threshold);
    if users[k] in Endpoints(edges) {
      var e :| e in edges && (e.u == users[k] || e.v == users[k]);
      var a, b :| 0 <= a < b < |users| && m[a][b] > threshold
        && e == Edge(users[a], users[b], m[a][b]);
      if e.u == users[k] {
        SamePosition(users, a, k);
      } else {
        SamePosition(users, b, k);
      }
    }
    if j :| k < j < |users| && m[k][j] > threshold {
      assert Edge(users[k], users[j], m[k][j]) in edges;
    }
    if i :| 0 <= i < k && m[i][k] > threshold {
      assert Edge(users[i], users[k], m[i][k]) in edges;
    }
  }

  /** Every node of the graph is one of the users. */
  lemma NodesAreUsers<U>(users: seq<U>, m: Matrix, threshold: real)
    requires UpperReadable(m, |users|)
    ensures forall x :: x in Endpoints(ThresholdEdges(users, m, threshold)) ==> x in users
  {
  }

  /**
   * Only the strict upper triangle is read: two matrices that agree above
   * the diagonal give the same edges, whatever their diagonal and lower
   * triangle hold.
   */
  lemma UpperTriangleOnly<U>(users: seq<U>, m1: Matrix, m2: Matrix, threshold: real)
    requires UpperReadable(m1, |users|) && UpperReadable(m2, |users|)
    requires forall i, j :: 0 <= i < j < |users| ==> m1[i][j] == m2[i][j]
    ensures ThresholdEdges(users, m1, threshold) == ThresholdEdges(users, m2, threshold)
  {
  }

  // ---------------------------------------------------------------------
  // Lemmas for the loops of BuildGraph

  /**
   * The loop state before cell (i, j): the edges of every pair visited
   * so far, and as nodes exactly their endpoints.
   */
  ghost predicate Visited<U>(g: Graph<U>, users: seq<U>, m: Matrix, threshold: real, i: int, j: int)
  {
    && UpperReadable(m, |users|)
    && g.edges == EdgesBefore(users, m, threshold, i, j)
    && g.nodes == Endpoints(g.edges)
  }

  /** Visiting cell (i, j) adds its edge exactly when the cell exceeds the threshold. */
  lemma VisitCell<U>(g: Graph<U>, users: seq<U>, m: Matrix, threshold: real, i: nat, j: nat)
    requires Visited(g, users, m, threshold, i, j)
    requires i < j < |users|
    ensures m[i][j] > threshold ==> Visited(AddEdge(g, users[i], users[j], m[i][j]), users, m, threshold, i, j + 1)
    ensures m[i][j] <= threshold ==> Visited(g, users, m, threshold, i, j + 1)
  {
  }

  /** Row i starts with cell (i, i + 1): no pair lies between. */
  lemma RowStart<U>(g: Graph<U>, users: seq<U>, m: Matrix, threshold: real, i: nat)
    requires Visited(g, users, m, threshold, i, 0)
    ensures Visited(g, users, m, threshold, i, i + 1)
  {
  }

  /** Finishing row i is starting row i + 1. */
  lemma RowDone<U>(g: Graph<U>, users: seq<U>, m: Matrix, threshold: real, i: nat)
    requires Visited(g, users, m, threshold, i, |users|)
    ensures Visited(g, users, m, threshold, i + 1, 0)
  {
  }

  /** Once every row is finished, the visited edges are all the edges. */
  lemma AllRowsDone<U>(g: Graph<U>, users: seq<U>, m: Matrix, threshold: real)
    requires Visited(g, users, m, threshold, |users|, 0)
    ensures g.edges == ThresholdEdges(users, m, threshold)
    ensures g.nodes == Endpoints(g.edges)
  {
  }
}
