/** computeRecall of no_filter_main.cpp: the fraction of ground-truth ids
    found among the retrieved nodes.

    The retrieved ids go into an `unordered_set<int>`, every ground-truth
    value (a float) is converted to `int` and looked up, and the number of
    hits is divided by the number of retrieved nodes.  A ground-truth value
    counts once per occurrence. */
module Recall {
  import opened Wrappers
  import opened Graph
  import BF = BruteForce

  /** The retrieved ids as the `int`s the set holds (lines 9-11). */
  function RetrievedIds(retrieved: seq<Node>): (r: set<int>)
    ensures |r| <= |retrieved|
    ensures forall i :: 0 <= i < |retrieved| ==> BF.AsInt32(retrieved[i].id) in r
    decreases |retrieved|
  {
    if |retrieved| == 0 then {}
    else
      var prev := RetrievedIds(retrieved[..|retrieved| - 1]);
      assert forall i :: 0 <= i < |retrieved| - 1 ==> retrieved[..|retrieved| - 1][i] == retrieved[i];
      prev + {BF.AsInt32(retrieved[|retrieved| - 1].id)}
  }

  /** Every id in the set comes from a retrieved node. */
  lemma {:induction false} RetrievedIdsSource(retrieved: seq<Node>, x: int) returns (i: nat)
    requires x in RetrievedIds(retrieved)
    ensures i < |retrieved| && BF.AsInt32(retrieved[i].id) == x
    decreases |retrieved|
  {
    var n := |retrieved| - 1;
    if x == BF.AsInt32(retrieved[n].id) {
      i := n;
    } else {
      i := RetrievedIdsSource(retrieved[..n], x);
    }
  }

  /** `int gtId = groundTruth[k]`: truncation toward zero, undefined when
      the result does not fit an `int`. */
  function ToInt32(v: real): (r: Option<int>)
    ensures r.Some? ==> -(BF.TwoTo31 as int) <= r.value < BF.TwoTo31
    ensures r.Some? && v >= 0.0 ==> r.value == v.Floor
  {
    var t := if v >= 0.0 then v.Floor else -((-v).Floor);
    if -(BF.TwoTo31 as int) <= t < BF.TwoTo31 then Some(t) else None
  }

  /** Lines 14-18: the ground-truth ids found in the set, with repeats. */
  function Hits(gt: seq<int>, ids: set<int>): (r: nat)
    ensures r <= |gt|
    decreases |gt|
  {
    if |gt| == 0 then 0
    else Hits(gt[..|gt| - 1], ids) + (if gt[|gt| - 1] in ids then 1 else 0)
  }

  /** The positions of the ground truth whose id was retrieved. */
  function HitPositions(gt: seq<int>, ids: set<int>): set<nat> {
    set k: nat | k < |gt| && gt[k] in ids
  }

  /** Hits counts ground-truth positions, so a repeated id counts each
      time it occurs. */
  lemma {:induction false} HitsArePositions(gt: seq<int>, ids: set<int>)
    ensures Hits(gt, ids) == |HitPositions(gt, ids)|
    decreases |gt|
  {
    if |gt| > 0 {
      var n := |gt| - 1;
      var prefix := gt[..n];
      HitsArePositions(prefix, ids);
      var before := HitPositions(prefix, ids);
      assert n !in before;
      if gt[n] in ids {
        assert HitPositions(gt, ids) == before + {n};
      } else {
        assert HitPositions(gt, ids) == before;
      }
    } else {
      assert HitPositions(gt, ids) == {};
    }
  }

  /** The elements of a sequence. */
  function Elems(xs: seq<int>): set<int> {
    set x | x in xs
  }

  /** The elements of a sequence grow by its last element. */
  lemma ElemsLast(gt: seq<int>)
    requires |gt| > 0
    ensures Elems(gt) == Elems(gt[..|gt| - 1]) + {gt[|gt| - 1]}
  {
    assert gt == gt[..|gt| - 1] + [gt[|gt| - 1]];
  }

  /** Over distinct ground-truth ids the hits are the ids in both. */
  lemma {:induction false} HitsDistinct(gt: seq<int>, ids: set<int>)
    requires NoDup(gt)
    ensures Hits(gt, ids) == |Elems(gt) * ids|
    decreases |gt|
  {
    if |gt| > 0 {
      var n := |gt| - 1;
      var prefix := gt[..n];
      assert NoDup(prefix) by {
        assert forall a :: 0 <= a < n ==> prefix[a] == gt[a];
      }
      HitsDistinct(prefix, ids);
      var last := gt[n];
      assert last !in Elems(prefix);
      ElemsLast(gt);
      var both := Elems(prefix) * ids;
      assert Hits(gt, ids) == |both| + (if last in ids then 1 else 0);
      if last in ids {
        assert Elems(gt) * ids == both + {last};
        assert |both + {last}| == |both| + 1;
      } else {
        assert Elems(gt) * ids == both;
      }
    }
  }

  /** The converted ground truth, or nothing when a value does not fit. */
  function GroundTruthIds(gt: seq<real>): (r: Option<seq<int>>)
    ensures r.Some? <==> forall k :: 0 <= k < |gt| ==> ToInt32(gt[k]).Some?
    ensures r.Some? ==> |r.value| == |gt| && forall k :: 0 <= k < |gt| ==> ToInt32(gt[k]) == Some(r.value[k])
    decreases |gt|
  {
    if |gt| == 0 then Some([])
    else match ToInt32(gt[0])
      case None => None
      case Some(x) =>
        match GroundTruthIds(gt[1..])
        case None =>
          assert !ToInt32(gt[1..][0]).Some? || exists k :: 0 <= k < |gt| - 1 && !ToInt32(gt[1..][k]).Some?;
          None
        case Some(rest) => Some([x] + rest)
  }

  /** `x` is the fraction `a / n`. */
  predicate Fraction(x: real, a: nat, n: nat) {
    x * n as real == a as real
  }

  /** `a / n` as a real: the float division of line 21 without rounding. */
  function Ratio(a: nat, n: nat): (r: real)
    requires n > 0
    ensures r >= 0.0 && Fraction(r, a, n)
    ensures a <= n ==> r <= 1.0
  {
    a as real / n as real
  }

  /** computeRecall.  `Ok(None)` is the NaN of `0.0f / 0` when nothing was
      retrieved; a ground-truth value outside the range of `int` is an
      undefined conversion. */
  function ComputeRecall(gt: seq<real>, retrieved: seq<Node>): (r: Result<Option<real>, Error>)
    ensures r.Err? <==> GroundTruthIds(gt).None?
    ensures r.Err? ==> r.error == OutOfRange
    ensures r.Ok? ==> (r.value.None? <==> |retrieved| == 0)
    ensures r.Ok? && r.value.Some? ==> r.value.value >= 0.0
    ensures r.Ok? && r.value.Some? ==>
      Fraction(r.value.value, Hits(GroundTruthIds(gt).value, RetrievedIds(retrieved)), |retrieved|)
  {
    match GroundTruthIds(gt)
    case None => Err(OutOfRange)
    case Some(ids) =>
      if |retrieved| == 0 then Ok(None)
      else
        Ok(Some(Ratio(Hits(ids, RetrievedIds(retrieved)), |retrieved|)))
  }

  /** With distinct ground-truth ids the recall is at most 1: no retrieved
      id is a hit twice. */
  lemma RecallAtMostOne(gt: seq<real>, retrieved: seq<Node>)
    requires ComputeRecall(gt, retrieved).Ok? && ComputeRecall(gt, retrieved).value.Some?
    requires NoDup(GroundTruthIds(gt).value)
    ensures ComputeRecall(gt, retrieved).value.value <= 1.0
  {
    var ids := GroundTruthIds(gt).value;
    var set_ := RetrievedIds(retrieved);
    HitsDistinct(ids, set_);
    assert Elems(ids) * set_ <= set_;
    SubsetCard(Elems(ids) * set_, set_);
  }

  lemma SubsetCard(a: set<int>, b: set<int>)
    requires a <= b
    ensures |a| <= |b|
  {
    assert b == a + (b - a);
  }

  /** The fraction is taken of the retrieved nodes, not of the ground
      truth: finding the one true neighbour among two retrieved nodes
      scores one half. */
  lemma RecallDividesByRetrieved()
    ensures ComputeRecall([7.0], [Node(7, 0.0, {}, [], []), Node(8, 0.0, {}, [], [])]) == Ok(Some(0.5))
  {
    var retrieved := [Node(7, 0.0, {}, [], []), Node(8, 0.0, {}, [], [])];
    assert ToInt32(7.0) == Some(7);
    assert GroundTruthIds([7.0]) == Some([7]) by {
      assert [7.0][1..] == [];
      assert GroundTruthIds([]) == Some([]);
      assert [7] + [] == [7];
    }
    assert BF.AsInt32(7) == 7 && BF.AsInt32(8) == 8;
    assert RetrievedIds(retrieved) == {7, 8} by {
      assert retrieved[..1] == [Node(7, 0.0, {}, [], [])];
      assert RetrievedIds(retrieved[..1]) == {7} by {
        assert retrieved[..1][..0] == [];
      }
    }
    assert Hits([7], {7, 8}) == 1 by {
      assert [7][..0] == [];
    }
  }

  /** A ground-truth id listed twice counts twice: one retrieved node
      matching a repeated id scores 2. */
  lemma RecallCountsRepeats()
    ensures ComputeRecall([7.0, 7.0], [Node(7, 0.0, {}, [], [])]) == Ok(Some(2.0))
  {
    var retrieved := [Node(7, 0.0, {}, [], [])];
    assert ToInt32(7.0) == Some(7);
    assert GroundTruthIds([7.0, 7.0]) == Some([7, 7]) by {
      assert [7.0, 7.0][1..] == [7.0];
      assert [7.0][1..] == [];
      assert GroundTruthIds([]) == Some([]);
      assert [7] + [] == [7];
      assert GroundTruthIds([7.0]) == Some([7]);
      assert [7] + [7] == [7, 7];
    }
    assert BF.AsInt32(7) == 7;
    assert RetrievedIds(retrieved) == {7} by {
      assert retrieved[..0] == [];
    }
    assert Hits([7, 7], {7}) == 2 by {
      assert [7, 7][..1] == [7];
      assert [7][..0] == [];
    }
  }
}
