/** The filtered builder of modules/filteredvamana.cpp.

    The builder keeps a second graph beside the nodes' own lists: a map
    from every point to an `unordered_set` of points.  A set is modelled as
    a duplicate-free list in insertion order, which also stands for its
    iteration order (a hash order in the source).  The search of every
    point is asked for its 0 nearest nodes, so it returns nothing; the
    consequences are proved below: the map never gains an edge, the
    reverse-edge loop never runs, and each point's own list is only
    re-pruned in place. */
module FilteredVamana {
  import opened Wrappers
  import opened Graph
  import opened Shuffle
  import GS = GreedySearch
  import FGS = FilteredGreedySearch
  import FRP = FilteredRobustPrune
  import FM = FindMedoid

  /** `DirectedGraph::adjacency_list`, keyed by arena position. */
  type Adjacency = map<nat, seq<nat>>

  /** Every key and every listed neighbour names a node of the arena. */
  predicate AdjWithin(G: Adjacency, g: Arena) {
    forall q :: q in G ==> q < |g| && InArena(g, G[q])
  }

  /** No point has a neighbour in the map. */
  predicate NoEdges(G: Adjacency) {
    forall q :: q in G ==> G[q] == []
  }

  /** `adjacency_list[q]`, which creates an empty set for a missing key. */
  function Lookup(G: Adjacency, q: nat): seq<nat> {
    if q in G then G[q] else []
  }

  /** `unordered_set::insert`: `x` joins the set unless already there. */
  function Include(xs: seq<nat>, x: nat): (r: seq<nat>)
    ensures forall y :: y in r <==> y in xs || y == x
    ensures NoDup(xs) ==> NoDup(r)
  {
    if x in xs then xs else xs + [x]
  }

  /** Insert every element of `ys` in turn. */
  function IncludeAll(xs: seq<nat>, ys: seq<nat>): (r: seq<nat>)
    ensures forall y :: y in r <==> y in xs || y in ys
    decreases |ys|
  {
    if |ys| == 0 then xs else IncludeAll(Include(xs, ys[0]), ys[1..])
  }

  // ---------------------------------------------------------------------
  // fisherYatesShuffle (modules/filteredvamana.cpp:4-27)

  /** The shuffled point vector, as arena positions: position `i` of the
      result holds the point formerly at `permutation[i]`. */
  function ShuffledPoints(n: nat, draws: seq<nat>): (r: seq<nat>)
    requires Needed(n) <= |draws|
    ensures |r| == n
  {
    var databasePoints := Range(n);
    var permutation := FisherYates<nat>(Range(n), draws);
    FisherYatesOrder(n, draws);
    seq(n, i requires 0 <= i < n => databasePoints[permutation[i]])
  }

  /** The shuffle rearranges the points: each position exactly once. */
  lemma ShuffledPointsPermutes(n: nat, draws: seq<nat>)
    requires Needed(n) <= |draws|
    ensures var r := ShuffledPoints(n, draws);
      && NoDup(r)
      && (forall i: nat :: i in r <==> i < n)
      && (forall t :: 0 <= t < |r| ==> r[t] < n)
  {
    var permutation := FisherYates<nat>(Range(n), draws);
    FisherYatesOrder(n, draws);
    var r := ShuffledPoints(n, draws);
    assert forall i :: 0 <= i < n ==> r[i] == permutation[i];
    assert r == permutation;
    forall i: nat ensures i in r <==> i < n {
      if i in r {
        var t :| 0 <= t < |r| && r[t] == i;
      }
    }
  }

  // ---------------------------------------------------------------------
  // The start node of a point (modules/filteredvamana.cpp:47-58)

  /** `find_if` by id over the point vector: the first index whose node
      carries `id`, or `|xs|` when none does. */
  function FindAt(g: Arena, xs: seq<nat>, id: nat): (t: nat)
    requires InArena(g, xs)
    ensures t <= |xs|
    ensures t < |xs| ==> g[xs[t]].id == id
    ensures forall u :: 0 <= u < t ==> g[xs[u]].id != id
    decreases |xs|
  {
    if |xs| == 0 then 0
    else if g[xs[0]].id == id then 0
    else 1 + FindAt(g, xs[1..], id)
  }

  /** `S_Fx`: the node whose id is the filter's medoid, when the filter
      has a medoid and such a node is in the vector; otherwise nothing. */
  function Seeds(g: Arena, points: seq<nat>, medoids: map<real, nat>, f: real): (S: seq<Option<nat>>)
    requires InArena(g, points)
    ensures |S| <= 1
    ensures forall k :: 0 <= k < |S| ==> S[k].Some? && S[k].value in points && f in medoids && g[S[k].value].id == medoids[f]
    ensures S == [] <==> (f !in medoids || forall t :: 0 <= t < |points| ==> g[points[t]].id != medoids[f])
  {
    if f in medoids then
      var t := FindAt(g, points, medoids[f]);
      if t < |points| then [Some(points[t])] else []
    else []
  }

  // ---------------------------------------------------------------------
  // One point (modules/filteredvamana.cpp:46-87)

  /** One neighbour `q` of the reverse-edge loop: `p` joins `q`'s set, and
      a set grown past `R` has `q`'s own list re-pruned with the set's
      members as candidates.  The prune takes its list by value, so the
      set rebuilt from that list is the set it was. */
  function LinkStep(g: Arena, G: Adjacency, p: nat, q: nat, alpha: real, R: nat): (r: Result<(Arena, Adjacency), Error>)
    requires ValidRefs(g) && Uniform(g) && p < |g| && q < |g| && AdjWithin(G, g)
    ensures r.Ok? ==> SameData(g, r.value.0) && ValidRefs(r.value.0) && Uniform(r.value.0)
    ensures r.Ok? ==> r.value.1 == G[q := Include(Lookup(G, q), p)] && AdjWithin(r.value.1, g)
  {
    var set_q := Include(Lookup(G, q), p);
    assert InArena(g, set_q) by {
      forall t | 0 <= t < |set_q| ensures set_q[t] < |g| {
        assert set_q[t] in Lookup(G, q) || set_q[t] == p;
      }
    }
    var G1 := G[q := set_q];
    if |set_q| > R then
      match FRP.FilteredRobustPruneAt(g, q, set_q, alpha, R)
      case Err(e) => Err(e)
      case Ok(g1) => SameDataKeepsUniform(g, g1); Ok((g1, G1))
    else Ok((g, G1))
  }

  /** The reverse-edge loop over the neighbours `ns` of `p` in the map. */
  function ReverseLinks(g: Arena, G: Adjacency, p: nat, ns: seq<nat>, alpha: real, R: nat): (r: Result<(Arena, Adjacency), Error>)
    requires ValidRefs(g) && Uniform(g) && p < |g| && InArena(g, ns) && AdjWithin(G, g)
    ensures r.Ok? ==> SameData(g, r.value.0) && ValidRefs(r.value.0) && AdjWithin(r.value.1, g)
    decreases |ns|
  {
    if |ns| == 0 then Ok((g, G))
    else match LinkStep(g, G, p, ns[0], alpha, R)
      case Err(e) => Err(e)
      case Ok(step) =>
        var h := ReverseLinks(step.0, step.1, p, ns[1..], alpha, R);
        if h.Ok? then SameDataTransitive(g, step.0, h.value.0); h else h
  }

  /** `H` holds every key and every edge of `G`. */
  predicate Grown(G: Adjacency, H: Adjacency) {
    forall q :: q in G ==> q in H && forall x :: x in G[q] ==> x in H[q]
  }

  lemma GrownTransitive(F: Adjacency, G: Adjacency, H: Adjacency)
    requires Grown(F, G) && Grown(G, H)
    ensures Grown(F, H)
  {
  }

  /** The reverse-edge loop adds `p` to the set of every listed neighbour
      and loses no key or edge. */
  lemma {:induction false} ReverseLinksAdds(g: Arena, G: Adjacency, p: nat, ns: seq<nat>, alpha: real, R: nat)
    requires ValidRefs(g) && Uniform(g) && p < |g| && InArena(g, ns) && AdjWithin(G, g)
    requires ReverseLinks(g, G, p, ns, alpha, R).Ok?
    ensures Grown(G, ReverseLinks(g, G, p, ns, alpha, R).value.1)
    ensures forall t :: 0 <= t < |ns| ==>
      ns[t] in ReverseLinks(g, G, p, ns, alpha, R).value.1 && p in ReverseLinks(g, G, p, ns, alpha, R).value.1[ns[t]]
    decreases |ns|
  {
    if |ns| > 0 {
      var q := ns[0];
      var step := LinkStep(g, G, p, q, alpha, R).value;
      var H := ReverseLinks(step.0, step.1, p, ns[1..], alpha, R).value.1;
      assert ReverseLinks(g, G, p, ns, alpha, R).value.1 == H;
      ReverseLinksAdds(step.0, step.1, p, ns[1..], alpha, R);
      assert Grown(G, step.1);
      GrownTransitive(G, step.1, H);
      forall t | 0 <= t < |ns| ensures ns[t] in H && p in H[ns[t]] {
        if t > 0 {
          assert ns[t] == ns[1..][t - 1];
        } else {
          assert p in step.1[q];
        }
      }
    }
  }

  /** With no neighbours to visit the loop changes nothing. */
  lemma ReverseLinksNone(g: Arena, G: Adjacency, p: nat, alpha: real, R: nat)
    requires ValidRefs(g) && Uniform(g) && p < |g| && AdjWithin(G, g)
    ensures ReverseLinks(g, G, p, [], alpha, R) == Ok((g, G))
  {
  }

  /** What the loop over the points keeps: valid nodes with a first
      coordinate, and a vector and map naming nodes of the arena. */
  predicate Ready(g: Arena, G: Adjacency, points: seq<nat>) {
    ValidRefs(g) && Uniform(g) && FGS.HasFirst(g) && InArena(g, points) && AdjWithin(G, g)
  }

  lemma Carry(g: Arena, h: Arena, G: Adjacency, H: Adjacency, points: seq<nat>)
    requires Ready(g, G, points) && SameData(g, h) && ValidRefs(h) && AdjWithin(H, g)
    ensures Ready(h, H, points)
  {
    SameDataKeepsUniform(g, h);
  }

  /** `FilteredGreedySearch(S_Fx, point, 0, L, {point->filter})`: asked
      for the 0 nearest admitted nodes, the search returns none. */
  method SearchFrom(g: Arena, points: seq<nat>, medoids: map<real, nat>, p: nat, L: nat) returns (V: seq<nat>)
    requires Ready(g, map[], points) && p < |g|
    ensures V == []
  {
    var S := Seeds(g, points, medoids, g[p].filter);
    assert GS.Fits(g, g[p].coords);
    V := FGS.FilteredGreedySearch(g, S, g[p].coords, 0, L, {g[p].filter});
  }

  /** Lines 64-87 for the point at `p` with search result `V`: append `V`
      to `p`'s list, prune `p` with `V`, record `V` in the map, and add
      the reverse edges for `p`'s neighbours in the map. */
  function Place(g: Arena, G: Adjacency, p: nat, V: seq<nat>, alpha: real, R: nat): (r: Result<(Arena, Adjacency), Error>)
    requires ValidRefs(g) && Uniform(g) && p < |g| && InArena(g, V) && AdjWithin(G, g)
    ensures r.Ok? ==> SameData(g, r.value.0) && ValidRefs(r.value.0) && AdjWithin(r.value.1, g)
  {
    var g1 := SetOut(g, p, g[p].out + V);
    SameDataKeepsUniform(g, g1);
    match FRP.FilteredRobustPruneAt(g1, p, V, alpha, R)
    case Err(e) => Err(e)
    case Ok(g2) =>
      SameDataKeepsUniform(g1, g2);
      SameDataTransitive(g, g1, g2);
      var set_p := IncludeAll(Lookup(G, p), V);
      assert InArena(g, set_p) by {
        forall t | 0 <= t < |set_p| ensures set_p[t] < |g| {
          assert set_p[t] in Lookup(G, p) || set_p[t] in V;
        }
      }
      var G1 := G[p := set_p];
      var h := ReverseLinks(g2, G1, p, set_p, alpha, R);
      if h.Ok? then SameDataTransitive(g, g2, h.value.0); h else h
  }

  /** With nothing found and an edgeless map, placing a point only
      re-prunes its own list and adds it as a key. */
  lemma PlaceEdgeless(g: Arena, G: Adjacency, p: nat, alpha: real, R: nat)
    requires ValidRefs(g) && Uniform(g) && p < |g| && AdjWithin(G, g) && NoEdges(G)
    ensures var pruned := FRP.FilteredRobustPruneAt(g, p, [], alpha, R);
      Place(g, G, p, [], alpha, R) == if pruned.Err? then Err(pruned.error) else Ok((pruned.value, G[p := []]))
  {
    assert g[p].(out := g[p].out + []) == g[p];
    assert SetOut(g, p, g[p].out + []) == g;
    assert IncludeAll(Lookup(G, p), []) == [];
    var pruned := FRP.FilteredRobustPruneAt(g, p, [], alpha, R);
    if pruned.Ok? {
      ReverseLinksNone(pruned.value, G[p := []], p, alpha, R);
    }
  }

  /** The body of the loop over the points for the point at `p`: search,
      then place the point with what the search found. */
  method InsertPoint(g: Arena, G: Adjacency, points: seq<nat>, medoids: map<real, nat>, p: nat,
                     L: nat, R: nat, alpha: real) returns (r: Result<(Arena, Adjacency), Error>)
    requires Ready(g, G, points) && p < |g|
    ensures r == Place(g, G, p, [], alpha, R)
  {
    var V := SearchFrom(g, points, medoids, p, L);
    r := Place(g, G, p, V, alpha, R);
  }

  // ---------------------------------------------------------------------
  // FilteredVamana (modules/filteredvamana.cpp:30-91)

  /** The loop creating an empty set for every point. */
  function EmptySets(ps: seq<nat>): (G: Adjacency)
    ensures forall q :: q in G <==> q in ps
    ensures NoEdges(G)
  {
    if |ps| == 0 then map[] else EmptySets(ps[..|ps| - 1])[ps[|ps| - 1] := []]
  }

  /** What the loop over the points `ps` computes: each point placed in
      turn with the empty search result. */
  function Sweep(g: Arena, G: Adjacency, ps: seq<nat>, alpha: real, R: nat): (r: Result<(Arena, Adjacency), Error>)
    requires ValidRefs(g) && Uniform(g) && InArena(g, ps) && AdjWithin(G, g)
    ensures r.Ok? ==> SameData(g, r.value.0) && ValidRefs(r.value.0) && AdjWithin(r.value.1, g)
    decreases |ps|
  {
    if |ps| == 0 then Ok((g, G))
    else match Place(g, G, ps[0], [], alpha, R)
      case Err(e) => Err(e)
      case Ok(step) =>
        SameDataKeepsUniform(g, step.0);
        var h := Sweep(step.0, step.1, ps[1..], alpha, R);
        if h.Ok? then SameDataTransitive(g, step.0, h.value.0); h else h
  }

  /** The loop over the points `ps` in vector order. */
  method Pass(g: Arena, G: Adjacency, points: seq<nat>, medoids: map<real, nat>, ps: seq<nat>,
              L: nat, R: nat, alpha: real) returns (r: Result<(Arena, Adjacency), Error>)
    requires Ready(g, G, points) && InArena(g, ps)
    ensures r == Sweep(g, G, ps, alpha, R)
  {
    var h, H := g, G;
    var i := 0;
    while i < |ps|
      invariant 0 <= i <= |ps|
      invariant SameData(g, h) && Ready(h, H, points)
      invariant Sweep(g, G, ps, alpha, R) == Sweep(h, H, ps[i..], alpha, R)
    {
      var step := InsertPoint(h, H, points, medoids, ps[i], L, R, alpha);
      if step.Err? {
        return Err(step.error);
      }
      assert ps[i..][1..] == ps[i + 1..];
      SameDataTransitive(g, h, step.value.0);
      Carry(h, step.value.0, H, step.value.1, points);
      h, H := step.value.0, step.value.1;
      i := i + 1;
    }
    r := Ok((h, H));
  }

  /** The reference definition of a sweep through an edgeless map, on the
      nodes: each point in turn has its own list re-pruned. */
  function PruneEach(g: Arena, ps: seq<nat>, alpha: real, R: nat): (r: Result<Arena, Error>)
    requires ValidRefs(g) && Uniform(g) && InArena(g, ps)
    ensures r.Ok? ==> SameData(g, r.value) && ValidRefs(r.value)
    decreases |ps|
  {
    if |ps| == 0 then Ok(g)
    else match FRP.FilteredRobustPruneAt(g, ps[0], [], alpha, R)
      case Err(e) => Err(e)
      case Ok(g1) =>
        SameDataKeepsUniform(g, g1);
        var h := PruneEach(g1, ps[1..], alpha, R);
        if h.Ok? then SameDataTransitive(g, g1, h.value); h else h
  }

  /** The reference definition of a sweep through an edgeless map, on the
      map: each point in turn becomes a key with an empty set. */
  function AddKeys(G: Adjacency, ps: seq<nat>): (H: Adjacency)
    ensures forall q :: q in H <==> q in G || q in ps
    ensures NoEdges(G) ==> NoEdges(H)
    decreases |ps|
  {
    if |ps| == 0 then G else AddKeys(G[ps[0] := []], ps[1..])
  }

  /** A sweep through an edgeless map is the reference definition: no
      edge is ever recorded and no reverse edge added. */
  lemma {:induction false} SweepEdgeless(g: Arena, G: Adjacency, ps: seq<nat>, alpha: real, R: nat)
    requires ValidRefs(g) && Uniform(g) && InArena(g, ps) && AdjWithin(G, g) && NoEdges(G)
    ensures var r := Sweep(g, G, ps, alpha, R);
      && (r.Ok? <==> PruneEach(g, ps, alpha, R).Ok?)
      && (r.Ok? ==> r.value == (PruneEach(g, ps, alpha, R).value, AddKeys(G, ps)))
    decreases |ps|
  {
    if |ps| > 0 {
      PlaceEdgeless(g, G, ps[0], alpha, R);
      var pruned := FRP.FilteredRobustPruneAt(g, ps[0], [], alpha, R);
      if pruned.Ok? {
        SameDataKeepsUniform(g, pruned.value);
        SweepEdgeless(pruned.value, G[ps[0] := []], ps[1..], alpha, R);
      }
    }
  }

  /** After a point's turn its list is within `R` (for `R` at least 1) and
      does not name the point itself. */
  predicate Settled(g: Arena, i: nat, R: nat)
    requires i < |g|
  {
    (R >= 1 ==> |g[i].out| <= R) && i !in g[i].out
  }

  /** Re-pruning some points leaves every other node as it was. */
  lemma {:induction false} PruneEachOthers(g: Arena, ps: seq<nat>, alpha: real, R: nat, i: nat)
    requires ValidRefs(g) && Uniform(g) && InArena(g, ps)
    requires PruneEach(g, ps, alpha, R).Ok? && i < |g| && i !in ps
    ensures PruneEach(g, ps, alpha, R).value[i] == g[i]
    decreases |ps|
  {
    if |ps| > 0 {
      var g1 := FRP.FilteredRobustPruneAt(g, ps[0], [], alpha, R).value;
      SameDataKeepsUniform(g, g1);
      PruneEachOthers(g1, ps[1..], alpha, R, i);
    }
  }

  /** Re-pruning one point settles it. */
  lemma PruneOneSettles(g: Arena, p: nat, alpha: real, R: nat)
    requires ValidRefs(g) && Uniform(g) && p < |g|
    requires FRP.FilteredRobustPruneAt(g, p, [], alpha, R).Ok?
    ensures Settled(FRP.FilteredRobustPruneAt(g, p, [], alpha, R).value, p, R)
  {
    var out := FRP.FilteredRobustPruneAt(g, p, [], alpha, R).value[p].out;
    assert p !in out by {
      assert forall k :: 0 <= k < |out| ==> out[k] != p;
    }
  }

  /** Re-pruning distinct points settles the first of them. */
  lemma PruneEachSettlesFirst(g: Arena, ps: seq<nat>, alpha: real, R: nat)
    requires ValidRefs(g) && Uniform(g) && InArena(g, ps) && NoDup(ps)
    requires PruneEach(g, ps, alpha, R).Ok? && |ps| > 0
    ensures Settled(PruneEach(g, ps, alpha, R).value, ps[0], R)
  {
    var p := ps[0];
    var g1 := FRP.FilteredRobustPruneAt(g, p, [], alpha, R).value;
    SameDataKeepsUniform(g, g1);
    PruneOneSettles(g, p, alpha, R);
    assert p !in ps[1..];
    PruneEachOthers(g1, ps[1..], alpha, R, p);
  }

  /** Re-pruning distinct points settles each of them. */
  lemma {:induction false} PruneEachSettles(g: Arena, ps: seq<nat>, alpha: real, R: nat, t: nat)
    requires ValidRefs(g) && Uniform(g) && InArena(g, ps) && NoDup(ps)
    requires PruneEach(g, ps, alpha, R).Ok? && t < |ps|
    ensures Settled(PruneEach(g, ps, alpha, R).value, ps[t], R)
    decreases |ps|
  {
    if t == 0 {
      PruneEachSettlesFirst(g, ps, alpha, R);
    } else {
      var g1 := FRP.FilteredRobustPruneAt(g, ps[0], [], alpha, R).value;
      SameDataKeepsUniform(g, g1);
      assert NoDup(ps[1..]);
      PruneEachSettles(g1, ps[1..], alpha, R, t - 1);
      assert ps[1..][t - 1] == ps[t];
    }
  }

  /** Re-pruning every node once leaves every list within `R` (for `R` at
      least 1) and without a self-loop. */
  lemma PruneAllSettles(g: Arena, ps: seq<nat>, alpha: real, R: nat)
    requires ValidRefs(g) && Uniform(g) && InArena(g, ps) && NoDup(ps)
    requires forall i: nat :: i in ps <==> i < |g|
    requires PruneEach(g, ps, alpha, R).Ok?
    ensures var h := PruneEach(g, ps, alpha, R).value;
      (R >= 1 ==> DegreeAtMost(h, R)) && NoSelfLoops(h)
  {
    var h := PruneEach(g, ps, alpha, R).value;
    forall i | 0 <= i < |h| ensures (R >= 1 ==> |h[i].out| <= R) && i !in h[i].out {
      assert i in ps;
      var t :| 0 <= t < |ps| && ps[t] == i;
      PruneEachSettles(g, ps, alpha, R, t);
    }
    assert NoSelfLoops(h);
  }

  /** Re-pruning nodes without edges succeeds and changes nothing. */
  lemma {:induction false} PruneEachFresh(g: Arena, ps: seq<nat>, alpha: real, R: nat)
    requires ValidRefs(g) && Uniform(g) && InArena(g, ps) && Fresh(g)
    ensures PruneEach(g, ps, alpha, R) == Ok(g)
    decreases |ps|
  {
    if |ps| > 0 {
      FRP.FilteredRobustPruneEmpty(g, ps[0], alpha, R);
      assert SetOut(g, ps[0], []) == g;
      PruneEachFresh(g, ps[1..], alpha, R);
    }
  }

  /** `FilteredVamana(databasePoints, k, L, R, alpha, tau)`: the shuffled
      point vector, the nodes with their updated lists, and the returned
      graph.  `filterOrder` is the iteration order of the set of filters
      inside findmedoid, `medoidDraws` its random draws, `draws` those of
      the shuffle.  The source's `k` is never read and is left out.

      The shuffled vector holds every point once; the returned graph has
      every point as a key and no edge at all; every node's list ends
      within `R` (for `R` at least 1) and without a self-loop; and nodes
      without edges come back unchanged. */
  method FilteredVamana(g: Arena, L: nat, R: nat, alpha: real, tau: nat, filterOrder: seq<real>,
                        medoidDraws: seq<seq<nat>>, draws: seq<nat>) returns (r: Result<(seq<nat>, Arena, Adjacency), Error>)
    requires ValidRefs(g) && Uniform(g) && FGS.HasFirst(g)
    requires NoDup(filterOrder) && FM.Listed(filterOrder) == FM.Filters(g)
    ensures FM.FindMedoid(g, tau, filterOrder, medoidDraws).Err? ==>
      r == Err(FM.FindMedoid(g, tau, filterOrder, medoidDraws).error)
    ensures FM.FindMedoid(g, tau, filterOrder, medoidDraws).Ok? && |draws| < Needed(|g|) ==> r == Err(DrawsExhausted)
    ensures r.Ok? ==> |r.value.0| == |g| && SameData(g, r.value.1) && ValidRefs(r.value.1)
    ensures r.Ok? ==> NoDup(r.value.0) && forall i: nat :: i in r.value.0 <==> i < |g|
    ensures r.Ok? ==> NoEdges(r.value.2) && forall q: nat :: q in r.value.2 <==> q < |g|
    ensures r.Ok? ==> (R >= 1 ==> DegreeAtMost(r.value.1, R)) && NoSelfLoops(r.value.1)
    ensures Fresh(g) ==> (r.Ok? <==> FM.FindMedoid(g, tau, filterOrder, medoidDraws).Ok? && Needed(|g|) <= |draws|)
    ensures Fresh(g) && r.Ok? ==> r.value.1 == g
  {
    var found := FM.FindMedoid(g, tau, filterOrder, medoidDraws);
    if found.Err? {
      return Err(found.error);
    }
    if |draws| < Needed(|g|) {
      return Err(DrawsExhausted);
    }
    var points := ShuffledPoints(|g|, draws);
    ShuffledPointsPermutes(|g|, draws);
    var G := EmptySets(points);
    var res := Pass(g, G, points, found.value, points, L, R, alpha);
    SweepEdgeless(g, G, points, alpha, R);
    if Fresh(g) {
      PruneEachFresh(g, points, alpha, R);
    }
    if res.Err? {
      return Err(res.error);
    }
    PruneAllSettles(g, points, alpha, R);
    r := Ok((points, res.value.0, res.value.1));
  }
}
