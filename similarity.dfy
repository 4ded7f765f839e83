/**
 * The two set-similarity metrics of src/utils.py, over the sets of articles
 * two users commented on: intersection over union (`iou`) and intersection
 * over minimum (`iom`). Each ratio is an exact `real`; the source computes it
 * with floating-point true division.
 */
module Similarity {

  /** The metric a similarity matrix is filled with. */
  datatype Metric = IoU | IoM

  function Min(x: nat, y: nat): (m: nat)
    ensures m <= x && m <= y && (m == x || m == y)
  {
    if x <= y then x else y
  }

  /**
   * The division in the metric has a non-zero divisor: the union is
   * non-empty for IoU, both sets are non-empty for IoM.
   */
  predicate Defined<A>(metric: Metric, a: set<A>, b: set<A>)
  {
    match metric
    case IoU => a + b != {}
    case IoM => a != {} && b != {}
  }

  /** |A ∩ B| / |A ∪ B|, the cell formula of `iou`. */
  function Iou<A>(a: set<A>, b: set<A>): (r: real)
    requires a + b != {}
    ensures 0.0 <= r <= 1.0
  {
    CommonBounded(a, b);
    Ratio(|a * b|, |a + b|)
  }

  /** |A ∩ B| / min(|A|, |B|), the cell formula of `iom`. */
  function Iom<A>(a: set<A>, b: set<A>): (r: real)
    requires a != {} && b != {}
    ensures 0.0 <= r <= 1.0
  {
    CommonBounded(a, b);
    Ratio(|a * b|, Min(|a|, |b|))
  }

  /** The metric selected by `metric`, as the matrix fill computes it. */
  function Score<A>(metric: Metric, a: set<A>, b: set<A>): (r: real)
    requires Defined(metric, a, b)
    ensures 0.0 <= r <= 1.0
  {
    match metric
    case IoU => Iou(a, b)
    case IoM => Iom(a, b)
  }

  /** An exact ratio of two counts, the numerator at most the denominator. */
  function Ratio(x: nat, y: nat): (r: real)
    requires 0 < y && x <= y
    ensures 0.0 <= r <= 1.0
    ensures r == 1.0 <==> x == y
    ensures r == 0.0 <==> x == 0
  {
    assert (x as real) / (y as real) * (y as real) == x as real;
    (x as real) / (y as real)
  }

  // ---------------------------------------------------------------------
  // Facts about cardinalities of finite sets

  /** The intersection is no larger than either set, nor than the union. */
  lemma CommonBounded<A>(a: set<A>, b: set<A>)
    ensures |a * b| <= |a| && |a * b| <= |b|
    ensures |a| <= |a + b| && |b| <= |a + b|
    ensures a + b == {} <==> a == {} && b == {}
  {
    assert a * b + (a - b) == a;
    assert a * b + (b - a) == b;
    assert a + (b - a) == a + b;
    assert b + (a - b) == a + b;
  }

  /** A subset with the same number of elements is the whole set. */
  lemma {:induction false} SubsetSameSize<A>(s: set<A>, t: set<A>)
    requires s <= t && |s| == |t|
    ensures s == t
  {
    assert t == s + (t - s);
    assert s !! (t - s);
  }

  // ---------------------------------------------------------------------
  // Properties of the metrics

  /** Both metrics are symmetric in their two arguments. */
  lemma Symmetric<A>(metric: Metric, a: set<A>, b: set<A>)
    requires Defined(metric, a, b)
    ensures Defined(metric, b, a)
    ensures Score(metric, a, b) == Score(metric, b, a)
  {
    assert a * b == b * a && a + b == b + a;
  }

  /** IoU is 1 exactly when the two sets are equal. */
  lemma IouOneIffEqual<A>(a: set<A>, b: set<A>)
    requires a + b != {}
    ensures Iou(a, b) == 1.0 <==> a == b
  {
    if |a * b| == |a + b| {
      SubsetSameSize(a * b, a + b);
      assert a == b by {
        forall x | x in a + b ensures x in a && x in b {
          assert x in a * b;
        }
      }
    }
    if a == b {
      assert a * b == a + b;
    }
  }

  /** IoM is 1 exactly when the smaller set is contained in the larger one. */
  lemma IomOneIffNested<A>(a: set<A>, b: set<A>)
    requires a != {} && b != {}
    ensures Iom(a, b) == 1.0 <==> a <= b || b <= a
  {
    CommonBounded(a, b);
    if |a * b| == Min(|a|, |b|) {
      if Min(|a|, |b|) == |a| {
        SubsetSameSize(a * b, a);
      } else {
        SubsetSameSize(a * b, b);
      }
    }
    if a <= b {
      assert a * b == a;
    } else if b <= a {
      assert a * b == b;
    }
  }

  /** Both metrics are 0 exactly when the two sets have nothing in common. */
  lemma ZeroIffDisjoint<A>(metric: Metric, a: set<A>, b: set<A>)
    requires Defined(metric, a, b)
    ensures Score(metric, a, b) == 0.0 <==> a !! b
  {
    if a * b == {} {
      forall x | x in a ensures x !in b {
        assert x !in a * b;
      }
    } else {
      var x :| x in a * b;
      assert !(a !! b);
    }
  }

  /** Equal non-empty sets score 1 under both metrics. */
  lemma IdenticalScoresOne<A>(metric: Metric, a: set<A>)
    requires a != {}
    ensures Defined(metric, a, a)
    ensures Score(metric, a, a) == 1.0
  {
    assert a * a == a && a + a == a;
  }

  /**
   * IoU never exceeds IoM on the same pair, because the smaller of the
   * two sets is never larger than their union.
   */
  lemma IouAtMostIom<A>(a: set<A>, b: set<A>)
    requires a != {} && b != {}
    ensures Iou(a, b) <= Iom(a, b)
  {
    CommonBounded(a, b);
    RatioAntitone(|a * b|, Min(|a|, |b|), |a + b|);
  }

  /** With a fixed numerator, a larger denominator gives a smaller ratio. */
  lemma RatioAntitone(x: nat, m: nat, u: nat)
    requires 0 < m <= u && x <= m
    ensures Ratio(x, u) <= Ratio(x, m)
  {
    var p, q := x as real / u as real, x as real / m as real;
    assert p * (u as real) == x as real;
    assert q * (m as real) == x as real;
    assert p * (m as real) <= p * (u as real);
    assert (q - p) * (m as real) >= 0.0;
  }
}
