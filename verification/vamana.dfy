/** The Vamana index builder of modules/vamana.cpp.

    Random choices come from one list of draws standing for successive
    `rand()` values, threaded through the phases in the source's order:
    the random initial graph, the start node, then the Fisher–Yates
    visiting order.  Running out of draws is `DrawsExhausted`; the
    rejection loop of the initial graph, which the source repeats until it
    succeeds, fails that way too when its draws run out.  The sums of
    Euclidean distances in the start-node cases take the distance function
    `euclid` as a parameter, since they are sums of square roots. */
module Vamana {
  import opened Wrappers
  import opened Graph
  import opened Shuffle
  import GS = GreedySearch
  import FRP = FilteredRobustPrune
  import Medoid

  // ---------------------------------------------------------------------
  // initializeRandomGraph (modules/vamana.cpp:4-23)

  /** Rejection sampling of `R` distinct positions below `n`, none equal
      to `id`: each draw names `draw % n` and is skipped when it is `id` or
      already chosen.  The rest of the draws comes back with the choice. */
  function Pick(n: nat, id: nat, R: nat, draws: seq<nat>, chosen: seq<nat>): (r: Result<(seq<nat>, seq<nat>), Error>)
    requires n > 0 && |chosen| <= R
    requires NoDup(chosen) && forall t :: 0 <= t < |chosen| ==> chosen[t] < n && chosen[t] != id
    ensures r.Ok? ==> |r.value.0| == R && NoDup(r.value.0)
    ensures r.Ok? ==> forall t :: 0 <= t < R ==> r.value.0[t] < n && r.value.0[t] != id
    ensures r.Err? ==> r.error == DrawsExhausted
    decreases |draws|
  {
    if |chosen| == R then Ok((chosen, draws))
    else if |draws| == 0 then Err(DrawsExhausted)
    else
      var x := draws[0] % n;
      if x != id && x !in chosen then Pick(n, id, R, draws[1..], chosen + [x])
      else Pick(n, id, R, draws[1..], chosen)
  }

  /** `after` is `before` with `R` distinct positions below `n` appended,
      none equal to `before`'s id. */
  predicate Added(before: Node, after: Node, R: nat, n: nat) {
    && after.id == before.id && after.filter == before.filter
    && after.tags == before.tags && after.coords == before.coords
    && |after.out| == |before.out| + R
    && after.out[..|before.out|] == before.out
    && NoDup(after.out[|before.out|..])
    && forall t :: |before.out| <= t < |after.out| ==> after.out[t] < n && after.out[t] != before.id
  }

  /** The loop over the nodes from position `i` on. */
  function InitFrom(g: Arena, i: nat, R: nat, draws: seq<nat>): (r: Result<(Arena, seq<nat>), Error>)
    requires i <= |g| && R < |g|
    ensures r.Ok? ==> |r.value.0| == |g|
    ensures r.Ok? ==> forall j :: 0 <= j < i ==> r.value.0[j] == g[j]
    ensures r.Ok? ==> forall j :: i <= j < |g| ==> Added(g[j], r.value.0[j], R, |g|)
    ensures r.Err? ==> r.error == DrawsExhausted
    decreases |g| - i
  {
    if i == |g| then Ok((g, draws))
    else match Pick(|g|, g[i].id, R, draws, [])
      case Err(e) => Err(e)
      case Ok(pr) =>
        var g1 := SetOut(g, i, g[i].out + pr.0);
        assert g1[i].out[|g[i].out|..] == pr.0;
        assert g1[i].out[..|g[i].out|] == g[i].out;
        assert Added(g[i], g1[i], R, |g|);
        var r := InitFrom(g1, i + 1, R, pr.1);
        assert r.Ok? ==> r.value.0[i] == g1[i];
        r
  }

  /** initializeRandomGraph: nothing when `R` is at least the number of
      nodes, otherwise `R` random distinct neighbours appended to every
      node. */
  function InitializeRandomGraph(g: Arena, R: nat, draws: seq<nat>): (r: Result<(Arena, seq<nat>), Error>)
    ensures R >= |g| ==> r == Ok((g, draws))
    ensures r.Ok? && R < |g| ==> |r.value.0| == |g| && forall j :: 0 <= j < |g| ==> Added(g[j], r.value.0[j], R, |g|)
    ensures r.Err? ==> r.error == DrawsExhausted
  {
    if R >= |g| then Ok((g, draws)) else InitFrom(g, 0, R, draws)
  }

  /** The initial graph keeps the data and the references valid; started
      from nodes without edges it gives every node at most `R` edges (none
      when `R` reaches the number of nodes), and none is a self-loop when
      ids are positions. */
  lemma InitializeRandomGraphShape(g: Arena, R: nat, draws: seq<nat>)
    requires InitializeRandomGraph(g, R, draws).Ok?
    ensures var h := InitializeRandomGraph(g, R, draws).value.0;
      && SameData(g, h)
      && (ValidRefs(g) ==> ValidRefs(h))
      && (Fresh(g) ==> DegreeAtMost(h, R))
      && (NoSelfLoops(g) && (forall i :: 0 <= i < |g| ==> g[i].id == i) ==> NoSelfLoops(h))
  {
    var h := InitializeRandomGraph(g, R, draws).value.0;
    if R < |g| {
      forall i, k | 0 <= i < |h| && |g[i].out| <= k < |h[i].out| ensures h[i].out[k] < |h| && h[i].out[k] != g[i].id {
        assert Added(g[i], h[i], R, |g|);
      }
      forall i, k | 0 <= i < |h| && 0 <= k < |g[i].out| ensures h[i].out[k] == g[i].out[k] {
        assert Added(g[i], h[i], R, |g|);
        assert h[i].out[..|g[i].out|][k] == h[i].out[k];
      }
    }
  }

  // ---------------------------------------------------------------------
  // The start node (modules/vamana.cpp:30-78)

  /** Sum of `euclid(pts[i], pts[j])` over the positions `j < m` other
      than `i`. */
  function SumOthers(pts: seq<Medoid.Point>, i: nat, euclid: (seq<real>, seq<real>) -> real, m: nat): real
    requires i < |pts| && m <= |pts|
    decreases m
  {
    if m == 0 then 0.0
    else SumOthers(pts, i, euclid, m - 1) + (if m - 1 != i then euclid(pts[i], pts[m - 1]) else 0.0)
  }

  /** Total distance from point `i` to all the others. */
  function TotalDist(pts: seq<Medoid.Point>, i: nat, euclid: (seq<real>, seq<real>) -> real): real
    requires i < |pts|
  {
    SumOthers(pts, i, euclid, |pts|)
  }

  /** The position of least total distance to the others, the first on
      ties: the exact medoid scan of cases 1 and 2. */
  function ExactMedoid(pts: seq<Medoid.Point>, euclid: (seq<real>, seq<real>) -> real): (m: nat)
    requires |pts| > 0
    ensures m < |pts|
    ensures forall j :: 0 <= j < |pts| ==> TotalDist(pts, m, euclid) <= TotalDist(pts, j, euclid)
    ensures forall j :: 0 <= j < m ==> TotalDist(pts, m, euclid) < TotalDist(pts, j, euclid)
  {
    var keys := seq(|pts|, i requires 0 <= i < |pts| => TotalDist(pts, i, euclid));
    assert forall i :: 0 <= i < |pts| ==> keys[i] == TotalDist(pts, i, euclid);
    Medoid.FirstMin(keys)
  }

  /** The coordinates of the nodes at the listed positions. */
  function CoordsAt(g: Arena, xs: seq<nat>): (pts: seq<Medoid.Point>)
    requires InArena(g, xs)
    ensures |pts| == |xs|
    ensures forall t :: 0 <= t < |xs| ==> pts[t] == g[xs[t]].coords
  {
    seq(|xs|, t requires 0 <= t < |xs| => g[xs[t]].coords)
  }

  /** The size of the random subset of case 1: `subsetSize` capped at `n`. */
  function SubsetSize(subsetSize: int, n: nat): nat {
    if subsetSize <= 0 then 0 else if subsetSize < n then subsetSize else n
  }

  /** The start node by `medoidCase`: 0 a random node, 1 the exact medoid
      of `min(subsetSize, n)` nodes drawn with replacement, anything else
      the exact medoid of the first `n` nodes.  An empty subset in case 1
      reads `subset[0]` of an empty vector. */
  function StartNode(g: Arena, n: nat, medoidCase: int, subsetSize: int, draws: seq<nat>,
                     euclid: (seq<real>, seq<real>) -> real): (r: Result<(nat, seq<nat>), Error>)
    requires 0 < n <= |g|
    ensures r.Ok? ==> r.value.0 < n
    ensures r.Err? <==> ((medoidCase == 0 && |draws| == 0) ||
                         (medoidCase == 1 && (SubsetSize(subsetSize, n) == 0 || |draws| < SubsetSize(subsetSize, n))))
  {
    if medoidCase == 0 then
      if |draws| == 0 then Err(DrawsExhausted) else Ok((draws[0] % n, draws[1..]))
    else if medoidCase == 1 then
      var m := SubsetSize(subsetSize, n);
      if |draws| < m then Err(DrawsExhausted)
      else if m == 0 then Err(OutOfRange)
      else
        var sub := seq(m, t requires 0 <= t < m => draws[t] % n);
        Ok((sub[ExactMedoid(CoordsAt(g, sub), euclid)], draws[m..]))
    else
      Ok((ExactMedoid(CoordsAt(g, Range(n)), euclid), draws))
  }

  /** Case 1 picks a sampled node of least total distance to the other
      samples; the default case picks the first node of least total
      distance to the other first `n` nodes. */
  lemma StartNodeMedoid(g: Arena, n: nat, medoidCase: int, subsetSize: int, draws: seq<nat>,
                        euclid: (seq<real>, seq<real>) -> real) returns (sub: seq<nat>, m: nat)
    requires 0 < n <= |g|
    requires medoidCase != 0 && StartNode(g, n, medoidCase, subsetSize, draws, euclid).Ok?
    ensures medoidCase == 1 ==> |sub| == SubsetSize(subsetSize, n)
    ensures medoidCase == 1 ==> forall t :: 0 <= t < |sub| ==> sub[t] == draws[t] % n
    ensures medoidCase != 1 ==> sub == Range(n)
    ensures InArena(g, sub) && m < |sub|
    ensures StartNode(g, n, medoidCase, subsetSize, draws, euclid).value.0 == sub[m]
    ensures forall j :: 0 <= j < |sub| ==> TotalDist(CoordsAt(g, sub), m, euclid) <= TotalDist(CoordsAt(g, sub), j, euclid)
  {
    if medoidCase == 1 {
      var k := SubsetSize(subsetSize, n);
      sub := seq(k, t requires 0 <= t < k => draws[t] % n);
    } else {
      sub := Range(n);
    }
    m := ExactMedoid(CoordsAt(g, sub), euclid);
  }

  // ---------------------------------------------------------------------
  // One insertion (modules/vamana.cpp:105-127)

  /** The reverse edges: `p` is appended to the list of every `q` in `qs`;
      when that list would exceed `R`, `q` is re-pruned with its own list
      (which now holds `p`) as candidates. */
  /** One reverse edge `q -> p`, pruning `q` when its list overflows. */
  function ReverseStep(g: Arena, p: nat, q: nat, alpha: real, R: nat): (h: Result<Arena, Error>)
    requires ValidRefs(g) && Uniform(g) && p < |g| && q < |g| && q != p
    ensures h.Ok? ==> SameData(g, h.value) && ValidRefs(h.value) && Uniform(h.value)
    ensures h.Ok? ==> forall j :: 0 <= j < |g| && j != q ==> h.value[j] == g[j]
    ensures h.Ok? && |g[q].out| + 1 <= R ==> h.value[q].out == g[q].out + [p]
    ensures h.Ok? && |g[q].out| + 1 > R ==> (R >= 1 ==> |h.value[q].out| <= R) && q !in h.value[q].out
    ensures h.Err? ==> FRP.PruneFailure(h.error)
  {
    var g1 := SetOut(g, q, g[q].out + [p]);
    SameDataKeepsUniform(g, g1);
    if |g[q].out| + 1 > R then
      var h := FRP.FilteredRobustPruneAt(g1, q, g1[q].out, alpha, R);
      if h.Ok? then
        SameDataKeepsUniform(g1, h.value);
        SameDataTransitive(g, g1, h.value);
        assert h.value[q].out == FRP.FilteredRobustPrune(g1, q, g1[q].out, alpha, R).value;
        h
      else h
    else Ok(g1)
  }

  /** `h` keeps the degree bound `R` (for `R` at least 1) and the absence
      of self-loops whenever `g` has them. */
  predicate Keeps(g: Arena, h: Arena, R: nat) {
    && (R >= 1 && DegreeAtMost(g, R) ==> DegreeAtMost(h, R))
    && (NoSelfLoops(g) ==> NoSelfLoops(h))
  }

  lemma KeepsTransitive(g: Arena, h: Arena, k: Arena, R: nat)
    requires Keeps(g, h, R) && Keeps(h, k, R)
    ensures Keeps(g, k, R)
  {
  }

  /** A reverse step keeps the degree bound and adds no self-loop. */
  lemma ReverseStepKeeps(g: Arena, p: nat, q: nat, alpha: real, R: nat)
    requires ValidRefs(g) && Uniform(g) && p < |g| && q < |g| && q != p
    requires ReverseStep(g, p, q, alpha, R).Ok?
    ensures Keeps(g, ReverseStep(g, p, q, alpha, R).value, R)
  {
    var h := ReverseStep(g, p, q, alpha, R).value;
    if NoSelfLoops(g) {
      forall i, k | 0 <= i < |h| && 0 <= k < |h[i].out| ensures h[i].out[k] != i {
        if i == q && |g[q].out| + 1 <= R {
          assert k < |g[q].out| ==> g[q].out[k] != q;
        }
      }
    }
  }

  function Reverse(g: Arena, p: nat, qs: seq<nat>, alpha: real, R: nat): (r: Result<Arena, Error>)
    requires ValidRefs(g) && Uniform(g) && p < |g| && InArena(g, qs)
    requires forall t :: 0 <= t < |qs| ==> qs[t] != p
    ensures r.Ok? ==> SameData(g, r.value) && ValidRefs(r.value) && r.value[p] == g[p]
    ensures r.Err? ==> FRP.PruneFailure(r.error)
    decreases |qs|
  {
    if |qs| == 0 then Ok(g)
    else
      var g2 := ReverseStep(g, p, qs[0], alpha, R);
      if g2.Err? then g2
      else
        var h := Reverse(g2.value, p, qs[1..], alpha, R);
        if h.Ok? then SameDataTransitive(g, g2.value, h.value); h else h
  }

  /** Reverse edges keep every list within `R` (for `R` at least 1) and add
      no self-loop. */
  lemma {:induction false} ReverseKeeps(g: Arena, p: nat, qs: seq<nat>, alpha: real, R: nat)
    requires ValidRefs(g) && Uniform(g) && p < |g| && InArena(g, qs)
    requires forall t :: 0 <= t < |qs| ==> qs[t] != p
    requires Reverse(g, p, qs, alpha, R).Ok?
    ensures Keeps(g, Reverse(g, p, qs, alpha, R).value, R)
    decreases |qs|
  {
    if |qs| > 0 {
      var g2 := ReverseStep(g, p, qs[0], alpha, R).value;
      ReverseStepKeeps(g, p, qs[0], alpha, R);
      ReverseKeeps(g2, p, qs[1..], alpha, R);
      KeepsTransitive(g, g2, Reverse(g2, p, qs[1..], alpha, R).value, R);
    }
  }

  /** The search answer lies in the arena. */
  lemma SearchInArena(g: Arena, s: nat, q: seq<real>, k: nat, listSize: nat)
    requires ValidRefs(g) && GS.Fits(g, q) && s < |g|
    ensures InArena(g, GS.GreedySearch(g, Some(s), q, k, listSize))
  {
    var r := GS.GreedySearch(g, Some(s), q, k, listSize);
    var (L, V) := GS.Run(g, s, q, listSize);
    GS.RunTraced(g, s, q, listSize);
    forall t | 0 <= t < |r| ensures r[t] < |g| {
      assert r[t] in V;
      assert GS.Reached(g, s, V, r[t]);
    }
  }

  /** Insertion of `p`: search from `s` for the single nearest node, prune
      `p` with it (and `p`'s current neighbours), then add the reverse
      edges. */
  function InsertNode(g: Arena, s: nat, p: nat, L: nat, alpha: real, R: nat): (r: Result<Arena, Error>)
    requires ValidRefs(g) && Uniform(g) && s < |g| && p < |g|
    ensures r.Ok? ==> SameData(g, r.value) && ValidRefs(r.value)
    ensures r.Err? ==> FRP.PruneFailure(r.error)
  {
    var q := g[p].coords;
    assert GS.Fits(g, q);
    SearchInArena(g, s, q, 1, L);
    var V := GS.GreedySearch(g, Some(s), q, 1, L);
    match FRP.FilteredRobustPruneAt(g, p, V, alpha, R)
    case Err(e) => Err(e)
    case Ok(g1) =>
      SameDataKeepsUniform(g, g1);
      var h := Reverse(g1, p, g1[p].out, alpha, R);
      if h.Ok? then SameDataTransitive(g, g1, h.value); h else h
  }

  /** An insertion passes at most one search candidate to the pruner. */
  lemma InsertNodeCandidates(g: Arena, s: nat, p: nat, L: nat)
    requires ValidRefs(g) && Uniform(g) && s < |g| && p < |g|
    ensures |GS.GreedySearch(g, Some(s), g[p].coords, 1, L)| <= 1
  {
    assert GS.Fits(g, g[p].coords);
  }

  /** An insertion keeps every list within `R` (for `R` at least 1) and
      adds no self-loop. */
  lemma InsertNodeKeeps(g: Arena, s: nat, p: nat, L: nat, alpha: real, R: nat)
    requires ValidRefs(g) && Uniform(g) && s < |g| && p < |g|
    requires InsertNode(g, s, p, L, alpha, R).Ok?
    ensures Keeps(g, InsertNode(g, s, p, L, alpha, R).value, R)
  {
    var q := g[p].coords;
    assert GS.Fits(g, q);
    SearchInArena(g, s, q, 1, L);
    var V := GS.GreedySearch(g, Some(s), q, 1, L);
    var g1 := FRP.FilteredRobustPruneAt(g, p, V, alpha, R).value;
    SameDataKeepsUniform(g, g1);
    assert g1[p].out == FRP.FilteredRobustPrune(g, p, V, alpha, R).value;
    assert Keeps(g, g1, R);
    ReverseKeeps(g1, p, g1[p].out, alpha, R);
    KeepsTransitive(g, g1, InsertNode(g, s, p, L, alpha, R).value, R);
  }

  /** Insert the nodes of `order` in turn. */
  function Build(g: Arena, s: nat, order: seq<nat>, L: nat, alpha: real, R: nat): (r: Result<Arena, Error>)
    requires ValidRefs(g) && Uniform(g) && s < |g| && InArena(g, order)
    ensures r.Ok? ==> SameData(g, r.value) && ValidRefs(r.value)
    ensures r.Err? ==> FRP.PruneFailure(r.error)
    decreases |order|
  {
    if |order| == 0 then Ok(g)
    else match InsertNode(g, s, order[0], L, alpha, R)
      case Err(e) => Err(e)
      case Ok(g1) =>
        SameDataKeepsUniform(g, g1);
        var h := Build(g1, s, order[1..], L, alpha, R);
        if h.Ok? then SameDataTransitive(g, g1, h.value); h else h
  }

  /** A successful build is the first insertion followed by the rest. */
  lemma BuildFirst(g: Arena, s: nat, order: seq<nat>, L: nat, alpha: real, R: nat) returns (g1: Arena)
    requires ValidRefs(g) && Uniform(g) && s < |g| && InArena(g, order) && |order| > 0
    requires Build(g, s, order, L, alpha, R).Ok?
    ensures InsertNode(g, s, order[0], L, alpha, R) == Ok(g1)
    ensures ValidRefs(g1) && Uniform(g1) && |g1| == |g| && InArena(g1, order[1..])
    ensures Build(g1, s, order[1..], L, alpha, R) == Build(g, s, order, L, alpha, R)
  {
    var first := InsertNode(g, s, order[0], L, alpha, R);
    g1 := first.value;
    SameDataKeepsUniform(g, g1);
  }

  lemma {:induction false} BuildKeeps(g: Arena, s: nat, order: seq<nat>, L: nat, alpha: real, R: nat)
    requires ValidRefs(g) && Uniform(g) && s < |g| && InArena(g, order)
    requires Build(g, s, order, L, alpha, R).Ok?
    ensures Keeps(g, Build(g, s, order, L, alpha, R).value, R)
    decreases |order|
  {
    if |order| > 0 {
      var g1 := BuildFirst(g, s, order, L, alpha, R);
      InsertNodeKeeps(g, s, order[0], L, alpha, R);
      BuildKeeps(g1, s, order[1..], L, alpha, R);
      KeepsTransitive(g, g1, Build(g1, s, order[1..], L, alpha, R).value, R);
    }
  }

  /** Node `j` has no self-loop and, for a positive `R`, at most `R`
      out-neighbours. */
  predicate Capped(g: Arena, j: nat, R: nat)
    requires j < |g|
  {
    (R >= 1 ==> |g[j].out| <= R) && j !in g[j].out
  }

  /** Reverse edges keep a capped node capped: an appended `p` fits and is
      not the node, and a re-pruned list drops the node itself. */
  lemma {:induction false} ReverseCaps(g: Arena, p: nat, qs: seq<nat>, alpha: real, R: nat, j: nat)
    requires ValidRefs(g) && Uniform(g) && p < |g| && InArena(g, qs)
    requires forall t :: 0 <= t < |qs| ==> qs[t] != p
    requires Reverse(g, p, qs, alpha, R).Ok?
    requires j < |g| && Capped(g, j, R)
    ensures Capped(Reverse(g, p, qs, alpha, R).value, j, R)
    decreases |qs|
  {
    if |qs| > 0 {
      var g2 := ReverseStep(g, p, qs[0], alpha, R).value;
      if j == qs[0] && |g[j].out| + 1 <= R {
        assert g2[j].out == g[j].out + [p];
      }
      assert Capped(g2, j, R);
      ReverseCaps(g2, p, qs[1..], alpha, R, j);
    }
  }

  /** After its insertion `p` is capped, and a capped node stays capped. */
  lemma InsertNodeCaps(g: Arena, s: nat, p: nat, L: nat, alpha: real, R: nat, j: nat)
    requires ValidRefs(g) && Uniform(g) && s < |g| && p < |g|
    requires InsertNode(g, s, p, L, alpha, R).Ok?
    requires j < |g| && (j == p || Capped(g, j, R))
    ensures Capped(InsertNode(g, s, p, L, alpha, R).value, j, R)
  {
    var q := g[p].coords;
    assert GS.Fits(g, q);
    SearchInArena(g, s, q, 1, L);
    var V := GS.GreedySearch(g, Some(s), q, 1, L);
    var g1 := FRP.FilteredRobustPruneAt(g, p, V, alpha, R).value;
    SameDataKeepsUniform(g, g1);
    if j == p {
      assert forall k :: 0 <= k < |g1[p].out| ==> g1[p].out[k] != p;
    } else {
      assert g1[j] == g[j];
    }
    assert Capped(g1, j, R);
    ReverseCaps(g1, p, g1[p].out, alpha, R, j);
  }

  /** A member other than the first is in the tail. */
  lemma InTail(xs: seq<nat>, x: nat)
    requires x in xs && x != xs[0]
    ensures x in xs[1..]
  {
    var t :| 0 <= t < |xs| && xs[t] == x;
    assert xs[1..][t - 1] == x;
  }

  /** After a build every inserted node is capped, and a capped node stays
      capped. */
  lemma {:induction false} BuildCaps(g: Arena, s: nat, order: seq<nat>, L: nat, alpha: real, R: nat, j: nat)
    requires ValidRefs(g) && Uniform(g) && s < |g| && InArena(g, order)
    requires Build(g, s, order, L, alpha, R).Ok?
    requires j < |g| && (j in order || Capped(g, j, R))
    ensures Capped(Build(g, s, order, L, alpha, R).value, j, R)
    decreases |order|
  {
    if |order| > 0 {
      var g1 := BuildFirst(g, s, order, L, alpha, R);
      if j == order[0] || Capped(g, j, R) {
        InsertNodeCaps(g, s, order[0], L, alpha, R, j);
      } else {
        InTail(order, j);
      }
      BuildCaps(g1, s, order[1..], L, alpha, R, j);
    }
  }

  // ---------------------------------------------------------------------
  // VamanaIndexingAlgorithm (modules/vamana.cpp:25-129)

  /** The builder over the first `n` nodes.  `n = 0` returns after the
      random graph; an `n` outside `0..|g|` would index past the nodes.
      The source's `k` is never read and is left out. */
  function VamanaIndexing(g: Arena, L: nat, R: nat, alpha: real, n: int, medoidCase: int, subsetSize: int,
                          draws: seq<nat>, euclid: (seq<real>, seq<real>) -> real): (r: Result<Arena, Error>)
    requires ValidRefs(g) && Uniform(g)
    ensures r.Ok? ==> SameData(g, r.value) && ValidRefs(r.value)
  {
    match InitializeRandomGraph(g, R, draws)
    case Err(e) => Err(e)
    case Ok(init) =>
      var (g1, rest) := init;
      InitializeRandomGraphShape(g, R, draws);
      SameDataKeepsUniform(g, g1);
      if n == 0 then Ok(g1)
      else if n < 0 || n > |g| then Err(OutOfRange)
      else match StartNode(g1, n, medoidCase, subsetSize, rest, euclid)
        case Err(e) => Err(e)
        case Ok(sr) =>
          var (s, rest2) := sr;
          if |rest2| < Needed(n) then Err(DrawsExhausted)
          else
            var order := FisherYates<nat>(Range(n), rest2);
            FisherYatesOrder(n, rest2);
            var h := Build(g1, s, order, L, alpha, R);
            if h.Ok? then SameDataTransitive(g, g1, h.value); h else h
  }

  /** The random graph, start node and visiting order behind a run: every
      one of the first `n` nodes is inserted exactly once, from one start
      node among them. */
  lemma VamanaIndexingSteps(g: Arena, L: nat, R: nat, alpha: real, n: int, medoidCase: int, subsetSize: int,
                            draws: seq<nat>, euclid: (seq<real>, seq<real>) -> real)
    returns (g1: Arena, s: nat, order: seq<nat>)
    requires ValidRefs(g) && Uniform(g)
    requires VamanaIndexing(g, L, R, alpha, n, medoidCase, subsetSize, draws, euclid).Ok? && n > 0
    ensures InitializeRandomGraph(g, R, draws).Ok? && g1 == InitializeRandomGraph(g, R, draws).value.0
    ensures ValidRefs(g1) && Uniform(g1) && s < n <= |g1| && InArena(g1, order)
    ensures NoDup(order) && |order| == n && forall i :: 0 <= i < n ==> i in order
    ensures VamanaIndexing(g, L, R, alpha, n, medoidCase, subsetSize, draws, euclid) == Build(g1, s, order, L, alpha, R)
  {
    var init := InitializeRandomGraph(g, R, draws).value;
    g1 := init.0;
    InitializeRandomGraphShape(g, R, draws);
    SameDataKeepsUniform(g, g1);
    var sr := StartNode(g1, n, medoidCase, subsetSize, init.1, euclid).value;
    s := sr.0;
    order := FisherYates<nat>(Range(n), sr.1);
    FisherYatesOrder(n, sr.1);
    FisherYatesPermutes<nat>(Range(n), sr.1);
  }

  /** With no node to insert the result is the random graph. */
  lemma VamanaIndexingNone(g: Arena, L: nat, R: nat, alpha: real, medoidCase: int, subsetSize: int,
                           draws: seq<nat>, euclid: (seq<real>, seq<real>) -> real)
    requires ValidRefs(g) && Uniform(g)
    ensures var r := VamanaIndexing(g, L, R, alpha, 0, medoidCase, subsetSize, draws, euclid);
      var init := InitializeRandomGraph(g, R, draws);
      && (r.Ok? <==> init.Ok?)
      && (r.Ok? ==> r.value == init.value.0)
  {
  }

  /** Built from nodes without edges, every node ends with at most `R`
      out-neighbours (for `R` at least 1), and with ids equal to positions
      none is its own neighbour. */
  lemma VamanaIndexingKeeps(g: Arena, L: nat, R: nat, alpha: real, n: int, medoidCase: int, subsetSize: int,
                            draws: seq<nat>, euclid: (seq<real>, seq<real>) -> real)
    requires ValidRefs(g) && Uniform(g) && Fresh(g)
    requires VamanaIndexing(g, L, R, alpha, n, medoidCase, subsetSize, draws, euclid).Ok?
    ensures R >= 1 ==> DegreeAtMost(VamanaIndexing(g, L, R, alpha, n, medoidCase, subsetSize, draws, euclid).value, R)
    ensures (forall i :: 0 <= i < |g| ==> g[i].id == i) ==>
      NoSelfLoops(VamanaIndexing(g, L, R, alpha, n, medoidCase, subsetSize, draws, euclid).value)
  {
    InitializeRandomGraphShape(g, R, draws);
    assert NoSelfLoops(g);
    if n > 0 {
      var g1, s, order := VamanaIndexingSteps(g, L, R, alpha, n, medoidCase, subsetSize, draws, euclid);
      BuildKeeps(g1, s, order, L, alpha, R);
    }
  }
}
