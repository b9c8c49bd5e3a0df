/** The Euclidean distance of modules/greedysearch.cpp, kept as its square.

    The source compares square roots of sums of squares.  Square roots are
    monotone, so every `<`, `<=` and minimum over distances is the same over
    squared distances, and the scaled comparison `a * d1 <= d2` becomes
    `Dominates(a, d1*d1, d2*d2)`. */
module Distance {

  function Sq(x: real): (r: real)
    ensures r >= 0.0
  {
    x * x
  }

  /** Sum over the positions of `a` of the squared coordinate difference;
      like the source it reads `b` only at `a`'s positions. */
  function SqDist(a: seq<real>, b: seq<real>): (r: real)
    requires |a| <= |b|
    ensures r >= 0.0
    decreases |a|
  {
    if |a| == 0 then 0.0 else Sq(a[0] - b[0]) + SqDist(a[1..], b[1..])
  }

  /** `alpha * sqrt(x) <= sqrt(y)` for squared distances `x` and `y`. */
  predicate Dominates(alpha: real, x: real, y: real) {
    alpha < 0.0 || alpha * alpha * x <= y
  }

  lemma {:induction false} SqDistSymmetric(a: seq<real>, b: seq<real>)
    requires |a| == |b|
    ensures SqDist(a, b) == SqDist(b, a)
    decreases |a|
  {
    if |a| > 0 {
      SqDistSymmetric(a[1..], b[1..]);
    }
  }

  lemma {:induction false} SqDistSelf(a: seq<real>)
    ensures SqDist(a, a) == 0.0
    decreases |a|
  {
    if |a| > 0 {
      SqDistSelf(a[1..]);
    }
  }

  lemma PositiveProduct(x: real, y: real)
    requires x > 0.0 && y > 0.0
    ensures x * y > 0.0
  {
  }

  lemma Cancel(x: real, m: real)
    requires x != 0.0
    requires m == x * x
    ensures m / x == x
  {
  }

  lemma SqZero(x: real)
    ensures Sq(x) == 0.0 <==> x == 0.0
  {
    if x != 0.0 {
      Cancel(x, Sq(x));
    }
  }

  /** Zero exactly on equal coordinates (over `a`'s length). */
  lemma {:induction false} SqDistZeroIff(a: seq<real>, b: seq<real>)
    requires |a| <= |b|
    ensures SqDist(a, b) == 0.0 <==> a == b[..|a|]
    decreases |a|
  {
    if |a| > 0 {
      SqDistZeroIff(a[1..], b[1..]);
      SqZero(a[0] - b[0]);
      assert b[..|a|] == [b[0]] + b[1..][..|a| - 1];
      assert a == [a[0]] + a[1..];
      if a == b[..|a|] {
        assert a[0] == b[0];
        assert a[1..] == b[1..][..|a| - 1];
      }
    }
  }

  /** The distance test of tests/astiched_test.cpp: {1,2,3} and {4,5,6} are sqrt(27) apart. */
  lemma SqDistExample()
    ensures SqDist([1.0, 2.0, 3.0], [4.0, 5.0, 6.0]) == 27.0
  {
    var a := [1.0, 2.0, 3.0];
    var b := [4.0, 5.0, 6.0];
    assert a[1..] == [2.0, 3.0] && b[1..] == [5.0, 6.0];
    assert a[1..][1..] == [3.0] && b[1..][1..] == [6.0];
    assert a[1..][1..][1..] == [];
  }

  lemma {:induction false} SquareMonotone(u: real, v: real)
    requires u >= 0.0 && v >= 0.0
    ensures u <= v <==> u * u <= v * v
  {
    if u <= v {
      assert u * u <= u * v;
      assert u * v <= v * v;
    } else {
      PositiveProduct(u - v, u + v);
      assert (u - v) * (u + v) == u * u - v * v;
    }
  }

  /** `Dominates` decides exactly the source's comparison on the square
      roots `rx` and `ry` of two squared distances. */
  lemma {:induction false} DominatesIsScaledRootComparison(alpha: real, rx: real, ry: real)
    requires rx >= 0.0 && ry >= 0.0
    ensures Dominates(alpha, rx * rx, ry * ry) <==> alpha * rx <= ry
  {
    if alpha >= 0.0 {
      assert alpha * rx >= 0.0;
      SquareMonotone(alpha * rx, ry);
      assert (alpha * rx) * (alpha * rx) == alpha * alpha * (rx * rx);
    } else {
      assert alpha * rx <= 0.0;
    }
  }
}
