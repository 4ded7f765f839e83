# Similarity graph of users by shared articles

This project models, in Dafny, how the SNA_W23 analysis turns the sets of
articles that users commented on into a weighted similarity graph
(`src/utils.py`):

- `iou` and `iom` allocate an N×N matrix of zeros and, for every pair of
  positions i < j in the list of selected users, write into cell (i, j) the
  intersection over union `|A ∩ B| / |A ∪ B|` or the intersection over
  minimum `|A ∩ B| / min(|A|, |B|)` of the two users' article sets. The
  diagonal and the lower triangle are never written and stay 0.
- `build_graph` walks the strict upper triangle of that matrix and adds an
  undirected edge between users i and j, weighted by cell (i, j), exactly
  when the cell is strictly above the threshold. Nodes come into existence
  only as endpoints of added edges.

Files and modules:

- `similarity.dfy`, module `Similarity`: the two metrics as exact `real`
  ratios and their properties (range, symmetry, when they are 1 or 0, IoU
  never above IoM).
- `matrix.dfy`, module `SimilarityMatrix`: the matrix fill as a method over
  an `array2<real>` with loop invariants, proved equal to a pure
  specification `Expected`, and properties of that specification.
- `graph.dfy`, module `SimilarityGraph`: the graph as a set of nodes and a
  set of weighted edges `Edge(u, v, weight)` stored with the user of the
  lower position first; `BuildGraph` as a method with nested loops, proved
  equal to the specification `ThresholdEdges`, and the properties of that
  edge set.
- `pipeline.dfy`, module `Pipeline`: the matrix fed into the graph builder,
  including a small worked example with three users.

Facts about the code that shape the model:

- The matrix is upper-triangular, not symmetric: only cells i < j are
  written and the rest keep the zeros they were allocated with
  (`SimilarityMatrix.NotSymmetric`). This is harmless because
  `build_graph` reads only those cells (`SimilarityGraph.UpperTriangleOnly`).
- `build_graph` does not check the shape of the matrix. A matrix too small
  for the user list makes numpy raise on the first out-of-range index,
  which the model turns into the precondition of `BuildGraph`; a larger
  matrix is accepted and only its leading cells are read, as in the model.
- In `iou` an empty union, and in `iom` an empty set, raises a
  division-by-zero error. The model makes the absence of that case the
  precondition `Computable`. Upstream it cannot arise: grouping the postings
  by user with `agg(set)` gives every user at least one article, since each
  group has at least one row, and the `len > min_articles` filter keeps
  that so for any bound (`SimilarityMatrix.FilteredUsersComputable` states
  the non-negative-bound case).

## Model

| member | source | states |
|---|---|---|
| Similarity.Iou | src/utils.py:63-66 | intersection over union of two sets whose union is non-empty lies in [0, 1] |
| Similarity.Iom | src/utils.py:80-83 | intersection over minimum of two non-empty sets lies in [0, 1] |
| Similarity.Symmetric | src/utils.py:63-83 | either metric gives the same value with its two sets swapped |
| Similarity.IouOneIffEqual | src/utils.py:63-66 | IoU is 1 if and only if the two sets are equal |
| Similarity.IomOneIffNested | src/utils.py:80-83 | IoM is 1 if and only if one set is contained in the other |
| Similarity.ZeroIffDisjoint | src/utils.py:63-83 | either metric is 0 if and only if the two sets are disjoint |
| Similarity.IdenticalScoresOne | src/utils.py:63-83 | a non-empty set compared with itself scores 1 under both metrics |
| Similarity.IouAtMostIom | src/utils.py:63-83 | on the same two non-empty sets IoU never exceeds IoM |
| SimilarityMatrix.Expected | src/utils.py:55-66 | the specified matrix has N rows of N cells |
| SimilarityMatrix.Pairwise | src/utils.py:55-66 | the loop over i and over j from i, skipping j == i, turns a fresh N×N zero matrix into exactly `Expected`: the metric in every cell i < j, 0 elsewhere |
| SimilarityMatrix.IouMatrix | src/utils.py:54-68 | `iou` returns a fresh N×N array whose cell (i, j) is IoU of the sets of users i and j when i < j and 0 otherwise |
| SimilarityMatrix.IomMatrix | src/utils.py:71-85 | `iom` returns a fresh N×N array whose cell (i, j) is IoM of the sets of users i and j when i < j and 0 otherwise |
| SimilarityMatrix.FilteredUsersComputable | src/utils.py:14-15 | keeping only users with more than a non-negative number of articles rules out every division by zero in both metrics |
| SimilarityMatrix.ExpectedCells | src/utils.py:55-61 | every cell lies in [0, 1] and every cell on or below the diagonal is 0 |
| SimilarityMatrix.ExpectedIdentityAndDisjoint | src/utils.py:61-66 | a cell above the diagonal is 1 when the two users' sets are equal, and is 0 exactly when they are disjoint |
| SimilarityMatrix.IouMatrixAtMostIomMatrix | src/utils.py:54-85 | whenever IoM is computable so is IoU, and cell by cell the IoU matrix never exceeds the IoM matrix |
| SimilarityMatrix.NotSymmetric | src/utils.py:55-61 | two users with the same article set get 1 in cell (0, 1) and 0 in cell (1, 0): the matrix is not symmetric |
| SimilarityGraph.BuildGraph | src/utils.py:30-40 | the nested loop over i < j yields exactly the edges `ThresholdEdges` of the matrix, and as nodes exactly the endpoints of those edges |
| SimilarityGraph.EdgeIff | src/utils.py:33-39 | with distinct users, edge (users[i], users[j], w) for i < j is present if and only if cell (i, j) is strictly above the threshold and w is that cell; the reverse orientation is never stored |
| SimilarityGraph.NoSelfLoops | src/utils.py:33-34 | with distinct users no edge joins a user to itself |
| SimilarityGraph.OneEdgePerPair | src/utils.py:33-39 | with distinct users two edges over the same unordered pair of users are the same edge with the same weight |
| SimilarityGraph.NodeIff | src/utils.py:31-39 | with distinct users, users[k] is a node if and only if some cell of row k right of the diagonal or of column k above it exceeds the threshold; users without such a cell are absent |
| SimilarityGraph.NodesAreUsers | src/utils.py:36-39 | every node is one of the selected users |
| SimilarityGraph.UpperTriangleOnly | src/utils.py:33-35 | two matrices that agree above the diagonal yield the same edges, whatever their diagonal and lower triangle hold |
| Pipeline.EdgeIffSimilar | src/utils.py:35-39 | on a filled matrix, users i < j are joined if and only if their similarity is strictly above the threshold, with that similarity as weight |
| Pipeline.HighThresholdNoEdges | src/utils.py:35 | a threshold of 1 or more yields no edge at all |
| Pipeline.ThreeUserExample | src/utils.py:63-66 | sets {1,2,3}, {2,3,4}, {10,11} under IoU with threshold 0.3 give the single edge (A, B) of weight 0.5 and leave C out |

## Left out

- `src/algo_evaluation.py` (`perform_algos`, `call_function_with_timeout`) is not part of this model: it is a process pool with a wall-clock timeout, timing and a floating-point modularity score from networkx, all concurrency, clocks and foreign code.
- `filter_users` and `most_common_category_per_user` (pandas grouping and counting) are not modelled; only the guarantee that every kept user has more than `min_articles` distinct articles is, in `FilteredUsersComputable`.
- `load_data` (CSV file reading) and the `tqdm` progress bar are I/O and are not modelled.
- Floating-point rounding: every ratio is an exact `real`, so a float cell that rounds onto or across the threshold may compare differently in the source.
- The article map holds sets; the source holds lists and converts them with `set(...)`, which the model takes as already done.
- Errors the source raises rather than handles (a user missing from the article map, a division by zero, an undersized matrix) are preconditions, not modelled error results.
- SimilarityGraph.BuildGraph: requires the users to be distinct, as the grouping upstream makes them; with a repeated user the networkx graph would get a self-loop or overwrite an earlier weight, which the edge set does not model.
- The networkx graph's internal adjacency structure and edge attributes other than `weight` are not modelled; the graph is a set of nodes and a set of weighted edges.
