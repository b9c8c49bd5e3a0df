/** Medoid estimation by k-means, modules/medoid.cpp.

    The source works on `Node*` vectors; here a cluster is a list of
    positions into the input list, and a point is a node's coordinate list.
    Random initial centroids come from an explicit list of draws (the
    values of `rand()`), and distances are squared (see module Distance), so
    the convergence threshold `1e-4` on a Euclidean distance becomes `1e-8`
    on its square. */
module Medoid {
  import opened Wrappers
  import opened Graph
  import opened Distance

  type Point = seq<real>

  /** Every point has exactly `d` coordinates. */
  predicate Dims(ps: seq<Point>, d: nat) {
    forall t :: 0 <= t < |ps| ==> |ps[t]| == d
  }

  /** Every cluster member is a position below `n`. */
  predicate Within(cl: seq<seq<nat>>, n: nat) {
    forall j, t :: 0 <= j < |cl| && 0 <= t < |cl[j]| ==> cl[j][t] < n
  }

  /** Every point has at least `d` coordinates. */
  predicate Reaches(ps: seq<Point>, d: nat) {
    forall t :: 0 <= t < |ps| ==> d <= |ps[t]|
  }

  /** Coordinate `i` summed over the points, in order. */
  function Total(ps: seq<Point>, i: nat): real
    requires Reaches(ps, i + 1)
    decreases |ps|
  {
    if |ps| == 0 then 0.0 else Total(ps[..|ps| - 1], i) + ps[|ps| - 1][i]
  }

  /** The coordinate-wise mean, over the first point's dimension. */
  function Mean(ps: seq<Point>): (c: Point)
    requires |ps| > 0 && Reaches(ps, |ps[0]|)
    ensures |c| == |ps[0]|
  {
    seq(|ps[0]|, i requires 0 <= i < |ps[0]| => Total(ps, i) / (|ps| as real))
  }

  /** findCentroid: the mean of a cluster.  An empty cluster throws; a
      member shorter than the first would be read past its end. */
  function Centroid(ps: seq<Point>): (r: Result<Point, Error>)
    ensures r.Err? <==> |ps| == 0 || !Reaches(ps, |ps[0]|)
    ensures r.Err? && |ps| == 0 ==> r.error == EmptyCluster
    ensures r.Ok? ==> |r.value| == |ps[0]|
  {
    if |ps| == 0 then Err(EmptyCluster)
    else if !Reaches(ps, |ps[0]|) then Err(OutOfRange)
    else Ok(Mean(ps))
  }

  lemma {:induction false} TotalBounded(ps: seq<Point>, i: nat, lo: real, hi: real)
    requires Reaches(ps, i + 1)
    requires forall t :: 0 <= t < |ps| ==> lo <= ps[t][i] <= hi
    ensures lo * (|ps| as real) <= Total(ps, i) <= hi * (|ps| as real)
    decreases |ps|
  {
    if |ps| > 0 {
      var init := ps[..|ps| - 1];
      assert forall t :: 0 <= t < |init| ==> init[t] == ps[t];
      TotalBounded(init, i, lo, hi);
      var m := |init| as real;
      assert |ps| as real == m + 1.0;
      assert lo * (m + 1.0) == lo * m + lo;
      assert hi * (m + 1.0) == hi * m + hi;
    }
  }

  lemma DivBounded(s: real, n: real, lo: real, hi: real)
    requires n > 0.0 && lo * n <= s <= hi * n
    ensures lo <= s / n <= hi
  {
  }

  /** Each coordinate of the centroid lies between the smallest and the
      largest value the members have there. */
  lemma CentroidBounded(ps: seq<Point>, i: nat, lo: real, hi: real)
    requires |ps| > 0 && Reaches(ps, |ps[0]|) && i < |ps[0]|
    requires forall t :: 0 <= t < |ps| ==> lo <= ps[t][i] <= hi
    ensures Centroid(ps).Ok?
    ensures lo <= Centroid(ps).value[i] <= hi
  {
    TotalBounded(ps, i, lo, hi);
    DivBounded(Total(ps, i), |ps| as real, lo, hi);
  }

  /** The centroid of copies of one point is that point. */
  lemma CentroidOfCopies(ps: seq<Point>, p: Point)
    requires |ps| > 0
    requires forall t :: 0 <= t < |ps| ==> ps[t] == p
    ensures Centroid(ps) == Ok(p)
  {
    assert Reaches(ps, |ps[0]|);
    var c := Centroid(ps).value;
    forall i | 0 <= i < |p| ensures c[i] == p[i] {
      CentroidBounded(ps, i, p[i], p[i]);
    }
    assert c == p;
  }

  /** Scan for a smaller key from `j` on, with `best` the first minimum so far. */
  function MinFrom(keys: seq<real>, j: nat, best: nat): (r: nat)
    requires best < j <= |keys|
    requires forall t :: 0 <= t < j ==> keys[best] <= keys[t]
    requires forall t :: 0 <= t < best ==> keys[best] < keys[t]
    ensures r < |keys|
    ensures forall t :: 0 <= t < |keys| ==> keys[r] <= keys[t]
    ensures forall t :: 0 <= t < r ==> keys[r] < keys[t]
    decreases |keys| - j
  {
    if j == |keys| then best
    else MinFrom(keys, j + 1, if keys[j] < keys[best] then j else best)
  }

  /** Position of the first minimum: the scan that starts from position 0
      and moves only on a strictly smaller key. */
  function FirstMin(keys: seq<real>): (r: nat)
    requires |keys| > 0
    ensures r < |keys|
    ensures forall t :: 0 <= t < |keys| ==> keys[r] <= keys[t]
    ensures forall t :: 0 <= t < r ==> keys[r] < keys[t]
  {
    MinFrom(keys, 1, 0)
  }

  /** Scan for a longer list from `j` on, with `best` the first longest so far. */
  function MaxFrom(cl: seq<seq<nat>>, j: nat, best: nat): (r: nat)
    requires best < j <= |cl|
    requires forall t :: 0 <= t < j ==> |cl[t]| <= |cl[best]|
    requires forall t :: 0 <= t < best ==> |cl[t]| < |cl[best]|
    ensures r < |cl|
    ensures forall t :: 0 <= t < |cl| ==> |cl[t]| <= |cl[r]|
    ensures forall t :: 0 <= t < r ==> |cl[t]| < |cl[r]|
    decreases |cl| - j
  {
    if j == |cl| then best
    else MaxFrom(cl, j + 1, if |cl[j]| > |cl[best]| then j else best)
  }

  /** The first largest cluster (modules/medoid.cpp:99-104). */
  function Largest(cl: seq<seq<nat>>): (r: nat)
    requires |cl| > 0
    ensures r < |cl|
    ensures forall t :: 0 <= t < |cl| ==> |cl[t]| <= |cl[r]|
    ensures forall t :: 0 <= t < r ==> |cl[t]| < |cl[r]|
  {
    MaxFrom(cl, 1, 0)
  }

  /** The nearest centroid, the first one on ties. */
  function Nearest(p: Point, cents: seq<Point>): (j: nat)
    requires |cents| > 0 && Reaches(cents, |p|)
    ensures j < |cents|
    ensures forall t :: 0 <= t < |cents| ==> SqDist(p, cents[j]) <= SqDist(p, cents[t])
    ensures forall t :: 0 <= t < j ==> SqDist(p, cents[j]) < SqDist(p, cents[t])
  {
    var keys := seq(|cents|, t requires 0 <= t < |cents| => SqDist(p, cents[t]));
    assert forall t :: 0 <= t < |cents| ==> keys[t] == SqDist(p, cents[t]);
    FirstMin(keys)
  }

  /** Positions below `n` whose entry in `near` is `j`, ascending: cluster
      `j` after the push_back loop over the nodes. */
  function Members(near: seq<nat>, j: nat, n: nat): (r: seq<nat>)
    requires n <= |near|
    ensures forall t :: 0 <= t < |r| ==> r[t] < n && near[r[t]] == j
    ensures forall a, b :: 0 <= a < b < |r| ==> r[a] < r[b]
    decreases n
  {
    if n == 0 then []
    else Members(near, j, n - 1) + (if near[n - 1] == j then [n - 1] else [])
  }

  lemma {:induction false} MembersComplete(near: seq<nat>, j: nat, n: nat, i: nat)
    requires n <= |near| && i < n && near[i] == j
    ensures i in Members(near, j, n)
    decreases n
  {
    if i < n - 1 {
      MembersComplete(near, j, n - 1, i);
    }
  }

  lemma {:induction false} MembersAll(near: seq<nat>, n: nat)
    requires n <= |near|
    requires forall i :: 0 <= i < n ==> near[i] == 0
    ensures Members(near, 0, n) == Range(n)
    decreases n
  {
    if n > 0 {
      MembersAll(near, n - 1);
      assert Range(n) == Range(n - 1) + [n - 1];
    }
  }

  /** Nearest centroid of every point. */
  function NearestOf(pts: seq<Point>, cents: seq<Point>, d: nat): (near: seq<nat>)
    requires |cents| > 0 && Dims(pts, d) && Dims(cents, d)
    ensures |near| == |pts|
    ensures forall i :: 0 <= i < |pts| ==> near[i] == Nearest(pts[i], cents)
  {
    seq(|pts|, i requires 0 <= i < |pts| => Nearest(pts[i], cents))
  }

  /** One assignment pass (modules/medoid.cpp:46-62): cluster `j` lists, in
      input order, the points whose nearest centroid is `j`. */
  function Assign(pts: seq<Point>, cents: seq<Point>, d: nat): (cl: seq<seq<nat>>)
    requires |cents| > 0 && Dims(pts, d) && Dims(cents, d)
    ensures |cl| == |cents|
    ensures Within(cl, |pts|)
  {
    var near := NearestOf(pts, cents, d);
    seq(|cents|, j requires 0 <= j < |cents| => Members(near, j, |pts|))
  }

  /** The clusters partition the points: each cluster is strictly
      ascending, holds only points whose nearest centroid it is, and every
      point is in the cluster of its nearest centroid. */
  lemma AssignPartition(pts: seq<Point>, cents: seq<Point>, d: nat)
    requires |cents| > 0 && Dims(pts, d) && Dims(cents, d)
    ensures forall j, t :: 0 <= j < |cents| && 0 <= t < |Assign(pts, cents, d)[j]| ==>
      Nearest(pts[Assign(pts, cents, d)[j][t]], cents) == j
    ensures forall j, a, b :: 0 <= j < |cents| && 0 <= a < b < |Assign(pts, cents, d)[j]| ==>
      Assign(pts, cents, d)[j][a] < Assign(pts, cents, d)[j][b]
    ensures forall i :: 0 <= i < |pts| ==> i in Assign(pts, cents, d)[Nearest(pts[i], cents)]
  {
    var near := NearestOf(pts, cents, d);
    var cl := Assign(pts, cents, d);
    forall i | 0 <= i < |pts| ensures i in cl[Nearest(pts[i], cents)] {
      MembersComplete(near, near[i], |pts|, i);
    }
  }

  /** With one centroid every point lands in the single cluster. */
  lemma AssignOne(pts: seq<Point>, cents: seq<Point>, d: nat)
    requires |cents| == 1 && Dims(pts, d) && Dims(cents, d)
    ensures Assign(pts, cents, d) == [Range(|pts|)]
  {
    var near := NearestOf(pts, cents, d);
    MembersAll(near, |pts|);
  }

  /** The source's test `euclidean(a, b) > 1e-4`, on squares. */
  predicate Moved(a: Point, b: Point)
    requires |a| <= |b|
  {
    SqDist(a, b) > 0.00000001
  }

  /** The recentring pass (modules/medoid.cpp:65-76): the new centroids
      and whether one of them moved. */
  function Recenter(pts: seq<Point>, cents: seq<Point>, cl: seq<seq<nat>>, d: nat): (r: (seq<Point>, bool))
    requires Dims(pts, d) && Dims(cents, d) && |cl| == |cents|
    requires Within(cl, |pts|)
    ensures |r.0| == |cents| && Dims(r.0, d)
  {
    var next := seq(|cents|, j requires 0 <= j < |cents| =>
      if |cl[j]| == 0 then cents[j] else Mean(Gather(pts, cl[j])));
    (next, exists j :: 0 <= j < |cl| && |cl[j]| > 0 && Moved(next[j], cents[j]))
  }

  /** Empty clusters keep their centroid; every other centroid moves to the
      centroid of its cluster, which lies inside the cluster's coordinate
      range. */
  lemma RecenterMeans(pts: seq<Point>, cents: seq<Point>, cl: seq<seq<nat>>, d: nat, j: nat)
    requires Dims(pts, d) && Dims(cents, d) && |cl| == |cents|
    requires Within(cl, |pts|)
    requires j < |cl|
    ensures |cl[j]| == 0 ==> Recenter(pts, cents, cl, d).0[j] == cents[j]
    ensures |cl[j]| > 0 ==> Ok(Recenter(pts, cents, cl, d).0[j]) == Centroid(Gather(pts, cl[j]))
  {
  }

  /** Where the iterations end: the last centroids, the clusters assigned
      to them, and whether the loop left through the convergence test
      rather than by running out of rounds. */
  datatype Outcome = Outcome(cents: seq<Point>, clusters: seq<seq<nat>>, settled: bool)

  /** Lloyd iterations (modules/medoid.cpp:44-80) with `rounds` rounds
      left, at least one. */
  function Lloyd(pts: seq<Point>, cents: seq<Point>, d: nat, rounds: nat): (r: Outcome)
    requires |cents| > 0 && Dims(pts, d) && Dims(cents, d) && rounds > 0
    ensures |r.cents| == |cents| && Dims(r.cents, d)
    decreases rounds
  {
    var cl := Assign(pts, cents, d);
    var next := Recenter(pts, cents, cl, d);
    if !next.1 then Outcome(cents, cl, true)
    else if rounds == 1 then Outcome(cents, cl, false)
    else Lloyd(pts, next.0, d, rounds - 1)
  }

  /** The clusters are the assignment of the points to the returned
      centroids, and when the convergence test ended the loop, recentring
      them moves no centroid by more than the threshold. */
  lemma {:induction false} LloydAssigned(pts: seq<Point>, cents: seq<Point>, d: nat, rounds: nat)
    requires |cents| > 0 && Dims(pts, d) && Dims(cents, d) && rounds > 0
    ensures var r := Lloyd(pts, cents, d, rounds);
      r.clusters == Assign(pts, r.cents, d)
    ensures var r := Lloyd(pts, cents, d, rounds);
      r.settled ==> !Recenter(pts, r.cents, r.clusters, d).1
    decreases rounds
  {
    var cl := Assign(pts, cents, d);
    var next := Recenter(pts, cents, cl, d);
    if next.1 && rounds > 1 {
      LloydAssigned(pts, next.0, d, rounds - 1);
    }
  }

  /** The convergence test fails only when some non-empty cluster's
      centroid moves by more than the threshold. */
  lemma RecenterMoved(pts: seq<Point>, cents: seq<Point>, cl: seq<seq<nat>>, d: nat)
    requires Dims(pts, d) && Dims(cents, d) && |cl| == |cents|
    requires Within(cl, |pts|)
    ensures !Recenter(pts, cents, cl, d).1 <==>
      forall j :: 0 <= j < |cl| && |cl[j]| > 0 ==> !Moved(Recenter(pts, cents, cl, d).0[j], cents[j])
  {
  }

  /** The coordinate lists of the nodes. */
  function Points(nodes: seq<Node>): (pts: seq<Point>)
    ensures |pts| == |nodes|
    ensures forall i :: 0 <= i < |nodes| ==> pts[i] == nodes[i].coords
  {
    seq(|nodes|, i requires 0 <= i < |nodes| => nodes[i].coords)
  }

  /** All nodes have the dimension of the first; `euclidean` reads the
      second argument at every position of the first. */
  predicate SameDims(nodes: seq<Node>) {
    |nodes| > 0 ==> Dims(Points(nodes), |nodes[0].coords|)
  }

  /** kMeansClustering: `k` initial centroids are copies of the nodes
      picked by `draws[i] % n`; `maxIterations` below 1 runs no round and
      returns `k` empty clusters. */
  function KMeansClustering(nodes: seq<Node>, k: int, maxIterations: int, draws: seq<nat>): (r: Result<seq<seq<nat>>, Error>)
    requires SameDims(nodes)
    ensures r.Err? <==> k <= 0 || k > |nodes| || |draws| < k
    ensures r.Err? && (k <= 0 || k > |nodes|) ==> r.error == InvalidClusterCount
    ensures r.Err? && 0 < k <= |nodes| ==> r.error == DrawsExhausted
    ensures r.Ok? ==> |r.value| == k
    ensures r.Ok? ==> Within(r.value, |nodes|)
  {
    if k <= 0 || k > |nodes| then Err(InvalidClusterCount)
    else if |draws| < k then Err(DrawsExhausted)
    else
      var pts := Points(nodes);
      var d := |nodes[0].coords|;
      var cents := seq(k, i requires 0 <= i < k => pts[draws[i] % |pts|]);
      var rounds := if maxIterations > 0 then maxIterations else 0;
      if rounds == 0 then Ok(seq(k, _ => []))
      else
        LloydAssigned(pts, cents, d, rounds);
        Ok(Lloyd(pts, cents, d, rounds).clusters)
  }

  /** After at least one round, the clusters are the assignment of the
      nodes to some `k` centroids. */
  lemma KMeansAssigned(nodes: seq<Node>, k: int, maxIterations: int, draws: seq<nat>) returns (cents: seq<Point>)
    requires SameDims(nodes)
    requires KMeansClustering(nodes, k, maxIterations, draws).Ok? && maxIterations > 0
    ensures |cents| == k && Dims(cents, |nodes[0].coords|)
    ensures KMeansClustering(nodes, k, maxIterations, draws).value == Assign(Points(nodes), cents, |nodes[0].coords|)
  {
    var pts := Points(nodes);
    var d := |nodes[0].coords|;
    var init := seq(k, i requires 0 <= i < k => pts[draws[i] % |pts|]);
    LloydAssigned(pts, init, d, maxIterations);
    cents := Lloyd(pts, init, d, maxIterations).cents;
  }

  /** After at least one round, the clusters are the nearest-centroid
      partition of the nodes for the centroids of the last round: every
      cluster is ascending, every member's nearest centroid is its
      cluster's, and every node is in the cluster of its nearest one. */
  lemma KMeansPartition(nodes: seq<Node>, k: int, maxIterations: int, draws: seq<nat>) returns (cents: seq<Point>)
    requires SameDims(nodes)
    requires KMeansClustering(nodes, k, maxIterations, draws).Ok? && maxIterations > 0
    ensures |cents| == k && Reaches(cents, |nodes[0].coords|)
    ensures var cl := KMeansClustering(nodes, k, maxIterations, draws).value;
      forall j, t :: 0 <= j < k && 0 <= t < |cl[j]| ==> Nearest(nodes[cl[j][t]].coords, cents) == j
    ensures var cl := KMeansClustering(nodes, k, maxIterations, draws).value;
      forall j, a, b :: 0 <= j < k && 0 <= a < b < |cl[j]| ==> cl[j][a] < cl[j][b]
    ensures var cl := KMeansClustering(nodes, k, maxIterations, draws).value;
      forall i :: 0 <= i < |nodes| ==> i in cl[Nearest(nodes[i].coords, cents)]
  {
    cents := KMeansAssigned(nodes, k, maxIterations, draws);
    AssignPartition(Points(nodes), cents, |nodes[0].coords|);
  }

  /** Without a round every one of the `k` clusters is empty. */
  lemma KMeansNoRounds(nodes: seq<Node>, k: int, maxIterations: int, draws: seq<nat>)
    requires SameDims(nodes)
    requires KMeansClustering(nodes, k, maxIterations, draws).Ok? && maxIterations <= 0
    ensures forall j :: 0 <= j < k ==> KMeansClustering(nodes, k, maxIterations, draws).value[j] == []
  {
  }

  /** The `maxIterations` that approximateMedoid leaves at its default. */
  const DefaultIterations := 100

  /** The position approximateMedoid picks, given the clusters: the member
      of the first largest cluster nearest that cluster's centroid, the
      first one on ties (modules/medoid.cpp:99-122). */
  function MedoidPosition(nodes: seq<Node>, cl: seq<seq<nat>>): (r: Result<nat, Error>)
    requires SameDims(nodes) && |cl| > 0 && Within(cl, |nodes|)
    ensures r.Ok? ==> r.value < |nodes| && r.value in cl[Largest(cl)]
    ensures r.Err? <==> cl[Largest(cl)] == []
  {
    var big := cl[Largest(cl)];
    if |big| == 0 then Err(LargestClusterEmpty)
    else
      var members := Gather(Points(nodes), big);
      var c := Mean(members);
      var t := FirstMin(seq(|members|, t requires 0 <= t < |members| => SqDist(members[t], c)));
      Ok(big[t])
  }

  /** approximateMedoid: the id of the node nearest the centroid of the
      largest k-means cluster (modules/medoid.cpp:91-126). */
  function ApproximateMedoid(nodes: seq<Node>, k: int, draws: seq<nat>): (r: Result<nat, Error>)
    requires SameDims(nodes)
    ensures |nodes| == 0 ==> r == Err(EmptyInput)
    ensures r.Ok? ==> exists i :: 0 <= i < |nodes| && r.value == nodes[i].id
    ensures r.Ok? ==> 0 < k <= |nodes| && k <= |draws|
  {
    if |nodes| == 0 then Err(EmptyInput)
    else
      var clusters := KMeansClustering(nodes, k, DefaultIterations, draws);
      if clusters.Err? then Err(clusters.error)
      else
        var m := MedoidPosition(nodes, clusters.value);
        if m.Err? then Err(m.error) else Ok(nodes[m.value].id)
  }

  /** approximateMedoid fails exactly on empty input, an invalid `k` or too
      few draws; the throw for an empty largest cluster is unreachable,
      and a result names a member of the first largest cluster that is
      nearest that cluster's centroid. */
  lemma ApproximateMedoidResult(nodes: seq<Node>, k: int, draws: seq<nat>) returns (m: nat)
    requires SameDims(nodes)
    ensures var r := ApproximateMedoid(nodes, k, draws);
      r.Err? <==> |nodes| == 0 || k <= 0 || k > |nodes| || |draws| < k
    ensures var r := ApproximateMedoid(nodes, k, draws);
      r.Ok? ==> (&& m < |nodes| && r.value == nodes[m].id
                 && MedoidPosition(nodes, KMeansClustering(nodes, k, DefaultIterations, draws).value) == Ok(m))
  {
    m := 0;
    if |nodes| > 0 && KMeansClustering(nodes, k, DefaultIterations, draws).Ok? {
      var cl := KMeansClustering(nodes, k, DefaultIterations, draws).value;
      var cents := KMeansPartition(nodes, k, DefaultIterations, draws);
      LargestNonEmpty(nodes, cl, cents);
      m := MedoidPosition(nodes, cl).value;
    }
  }

  /** What MedoidPosition picks: a member of the first largest cluster
      whose squared distance to the cluster's centroid is minimal, and
      strictly smaller than that of every member listed before it. */
  lemma MedoidPositionNearest(nodes: seq<Node>, cl: seq<seq<nat>>) returns (t: nat)
    requires SameDims(nodes) && |cl| > 0 && Within(cl, |nodes|)
    requires MedoidPosition(nodes, cl).Ok?
    ensures var big := cl[Largest(cl)];
      var c := Centroid(Gather(Points(nodes), big));
      && c.Ok?
      && t < |big| && big[t] == MedoidPosition(nodes, cl).value
      && (forall u :: 0 <= u < |big| ==> SqDist(nodes[big[t]].coords, c.value) <= SqDist(nodes[big[u]].coords, c.value))
      && (forall u :: 0 <= u < t ==> SqDist(nodes[big[t]].coords, c.value) < SqDist(nodes[big[u]].coords, c.value))
  {
    var big := cl[Largest(cl)];
    var members := Gather(Points(nodes), big);
    var c := Mean(members);
    var keys := seq(|members|, t requires 0 <= t < |members| => SqDist(members[t], c));
    t := FirstMin(keys);
    assert forall u :: 0 <= u < |big| ==> keys[u] == SqDist(nodes[big[u]].coords, c);
    assert big[t] == MedoidPosition(nodes, cl).value;
  }

  /** A partition of at least one node leaves the largest cluster non-empty. */
  lemma LargestNonEmpty(nodes: seq<Node>, cl: seq<seq<nat>>, cents: seq<Point>)
    requires SameDims(nodes) && |nodes| > 0 && |cl| > 0 && Within(cl, |nodes|)
    requires |cents| == |cl| && Reaches(cents, |nodes[0].coords|)
    requires forall i :: 0 <= i < |nodes| ==> i in cl[Nearest(nodes[i].coords, cents)]
    ensures cl[Largest(cl)] != []
  {
    var j := Nearest(nodes[0].coords, cents);
    assert 0 in cl[j];
    assert |cl[j]| <= |cl[Largest(cl)]|;
  }

  /** With one cluster after at least one round, every node is in it, in
      input order. */
  lemma KMeansOne(nodes: seq<Node>, maxIterations: int, draws: seq<nat>)
    requires SameDims(nodes)
    requires KMeansClustering(nodes, 1, maxIterations, draws).Ok? && maxIterations > 0
    ensures KMeansClustering(nodes, 1, maxIterations, draws).value == [Range(|nodes|)]
  {
    var cents := KMeansAssigned(nodes, 1, maxIterations, draws);
    AssignOne(Points(nodes), cents, |nodes[0].coords|);
  }

  /** With `k = 1` approximateMedoid returns the id of the first node
      nearest the mean of all nodes. */
  lemma ApproximateMedoidOne(nodes: seq<Node>, draws: seq<nat>)
    requires SameDims(nodes) && |nodes| > 0 && |draws| >= 1
    ensures var pts := Points(nodes);
      var c := Mean(pts);
      ApproximateMedoid(nodes, 1, draws)
        == Ok(nodes[FirstMin(seq(|pts|, t requires 0 <= t < |pts| => SqDist(pts[t], c)))].id)
  {
    var pts := Points(nodes);
    KMeansOne(nodes, DefaultIterations, draws);
    var cl := [Range(|nodes|)];
    assert Largest(cl) == 0;
    assert Gather(pts, Range(|nodes|)) == pts;
  }

  /** The four nodes of the medoid test in tests/vamana_test.cpp. */
  function ExampleNodes(): seq<Node> {
    [ Node(0, 0.0, {}, [0.0, 0.0], []), Node(1, 0.0, {}, [3.0, 4.0], []),
      Node(2, 0.0, {}, [6.0, 8.0], []), Node(3, 0.0, {}, [1.0, 1.0], []) ]
  }

  lemma ExampleMean(pts: seq<Point>)
    requires pts == [[0.0, 0.0], [3.0, 4.0], [6.0, 8.0], [1.0, 1.0]]
    ensures Mean(pts) == [2.5, 3.25]
  {
    var p1, p2, p3 := [[0.0, 0.0]], [[0.0, 0.0], [3.0, 4.0]], [[0.0, 0.0], [3.0, 4.0], [6.0, 8.0]];
    assert pts == p3 + [[1.0, 1.0]];
    assert pts[..3] == p3 && p3[..2] == p2 && p2[..1] == p1 && p1[..0] == [];
    assert Total(p1, 0) == 0.0 && Total(p1, 1) == 0.0;
    assert Total(p2, 0) == Total(p1, 0) + 3.0 && Total(p2, 1) == Total(p1, 1) + 4.0;
    assert Total(p3, 0) == Total(p2, 0) + 6.0 && Total(p3, 1) == Total(p2, 1) + 8.0;
    assert Total(pts, 0) == Total(p3, 0) + 1.0 && Total(pts, 1) == Total(p3, 1) + 1.0;
  }

  lemma ExampleDistances(c: Point)
    requires c == [2.5, 3.25]
    ensures SqDist([0.0, 0.0], c) == 16.8125
    ensures SqDist([3.0, 4.0], c) == 0.8125
    ensures SqDist([6.0, 8.0], c) == 34.8125
    ensures SqDist([1.0, 1.0], c) == 7.3125
  {
    assert c[1..] == [3.25];
    assert [0.0, 0.0][1..] == [0.0] && [3.0, 4.0][1..] == [4.0];
    assert [6.0, 8.0][1..] == [8.0] && [1.0, 1.0][1..] == [1.0];
  }

  lemma ExamplePoints()
    ensures SameDims(ExampleNodes())
    ensures Points(ExampleNodes()) == [[0.0, 0.0], [3.0, 4.0], [6.0, 8.0], [1.0, 1.0]]
  {
  }

  lemma ExampleKeys(pts: seq<Point>, c: Point)
    requires pts == [[0.0, 0.0], [3.0, 4.0], [6.0, 8.0], [1.0, 1.0]]
    requires c == [2.5, 3.25]
    ensures FirstMin(seq(|pts|, t requires 0 <= t < |pts| => SqDist(pts[t], c))) == 1
  {
    ExampleDistances(c);
    var keys := seq(|pts|, t requires 0 <= t < |pts| => SqDist(pts[t], c));
    assert keys[0] == 16.8125 && keys[1] == 0.8125 && keys[2] == 34.8125 && keys[3] == 7.3125;
    var r := FirstMin(keys);
    assert r != 0 && r != 2 && r != 3 by {
      assert keys[r] <= keys[1];
    }
  }

  /** The medoid test: with one cluster the result is node 1, the node of
      least total distance to the others. */
  lemma ExampleMedoid(draws: seq<nat>)
    requires |draws| >= 1
    ensures ApproximateMedoid(ExampleNodes(), 1, draws) == Ok(1)
  {
    var nodes := ExampleNodes();
    ExamplePoints();
    var pts := Points(nodes);
    ExampleMean(pts);
    ExampleKeys(pts, Mean(pts));
    ApproximateMedoidOne(nodes, draws);
    assert nodes[1].id == 1;
  }
}
