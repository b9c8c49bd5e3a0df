/** The stitched builder of modules/stichedvamana.cpp: a Vamana build on
    the nodes of every tag, followed by a global filtered prune of every
    node.

    The per-tag build runs on a subset of the arena given as a list of
    positions; the nodes it links are the arena's own, so edges made for
    one tag stay when the next tag is built.  Random choices come from one
    list of draws consumed in the source's order: the random initial
    graph, the k-means seeds of the medoid, then the Fisher–Yates order.
    The rejection loop of the initial graph, which the source repeats
    until it succeeds, fails with `DrawsExhausted` when its draws run out. */
module StitchedVamana {
  import opened Wrappers
  import opened Graph
  import opened Shuffle
  import GS = GreedySearch
  import RP = RobustPrune
  import FRP = FilteredRobustPrune
  import Medoid
  import Vamana

  // ---------------------------------------------------------------------
  // Counting distinct values

  /** `xs` without the occurrences of `v`. */
  function Without(xs: seq<nat>, v: nat): (r: seq<nat>)
    ensures forall x :: x in r <==> x in xs && x != v
    ensures NoDup(xs) ==> |r| + (if v in xs then 1 else 0) >= |xs|
    ensures NoDup(xs) ==> NoDup(r)
  {
    if |xs| == 0 then []
    else
      var rest := Without(xs[1..], v);
      assert NoDup(xs) ==> NoDup(xs[1..]) && xs[0] !in xs[1..];
      if xs[0] == v then rest else [xs[0]] + rest
  }

  /** Distinct values below `n` other than `id` number at most `n`, one
      fewer when `id` is itself below `n`. */
  lemma {:induction false} DistinctBelow(xs: seq<nat>, n: nat, id: nat)
    requires NoDup(xs)
    requires forall t :: 0 <= t < |xs| ==> xs[t] < n && xs[t] != id
    ensures |xs| + (if id < n then 1 else 0) <= n
    decreases n
  {
    if |xs| > 0 {
      assert xs[0] < n;
      var ys := Without(xs, n - 1);
      forall t | 0 <= t < |ys| ensures ys[t] < n - 1 && ys[t] != id {
        assert ys[t] in xs;
      }
      DistinctBelow(ys, n - 1, id);
    }
  }

  /** Rejection sampling succeeds only when there are `R` admissible
      indices: below `n` and other than `id`. */
  lemma PickNeedsRoom(n: nat, id: nat, R: nat, draws: seq<nat>)
    requires n > 0
    requires Vamana.Pick(n, id, R, draws, []).Ok?
    ensures R + (if id < n then 1 else 0) <= n
  {
    var chosen := Vamana.Pick(n, id, R, draws, []).value.0;
    DistinctBelow(chosen, n, id);
  }

  // ---------------------------------------------------------------------
  // initializeRandomGraph (modules/stichedvamana.cpp:4-18)

  /** The node at `sub[t]` has had `R` members of `sub` appended, none of
      them the member at the index equal to its id when the members are
      distinct. */
  predicate AddedAt(g: Arena, h: Arena, sub: seq<nat>, t: nat, R: nat)
    requires InArena(g, sub) && |h| == |g| && t < |sub|
  {
    var before, after := g[sub[t]], h[sub[t]];
    && |after.out| == |before.out| + R
    && after.out[..|before.out|] == before.out
    && forall k :: |before.out| <= k < |after.out| ==>
         && after.out[k] in sub
         && (NoDup(sub) && before.id < |sub| ==> after.out[k] != sub[before.id])
  }

  /** The loop over the first `i` members of the subset.  For member
      `sub[t]` the index drawn is compared with the node's id, and the
      node stored is the subset member at that index. */
  function InitTo(g: Arena, sub: seq<nat>, i: nat, R: nat, draws: seq<nat>): (r: Result<(Arena, seq<nat>), Error>)
    requires InArena(g, sub) && i <= |sub|
    ensures r.Ok? ==> SameData(g, r.value.0)
    ensures r.Ok? && ValidRefs(g) ==> ValidRefs(r.value.0)
    ensures r.Ok? ==> forall j :: 0 <= j < |g| && j !in sub[..i] ==> r.value.0[j] == g[j]
    ensures r.Err? ==> r.error == DrawsExhausted
  {
    if i == 0 then Ok((g, draws))
    else match InitTo(g, sub, i - 1, R, draws)
      case Err(e) => Err(e)
      case Ok(prev) =>
        var (g1, rest) := prev;
        var p := sub[i - 1];
        match Vamana.Pick(|sub|, g1[p].id, R, rest, [])
        case Err(e) => Err(e)
        case Ok(pr) =>
          var h := SetOut(g1, p, g1[p].out + Gather(sub, pr.0));
          assert sub[..i] == sub[..i - 1] + [p];
          SameDataTransitive(g, g1, h);
          Ok((h, pr.1))
  }

  /** The random graph over the subset: its loop over every member. */
  function InitializeRandomGraph(g: Arena, sub: seq<nat>, R: nat, draws: seq<nat>): (r: Result<(Arena, seq<nat>), Error>)
    requires InArena(g, sub)
    ensures r.Ok? ==> SameData(g, r.value.0) && (ValidRefs(g) ==> ValidRefs(r.value.0))
    ensures r.Ok? && Uniform(g) ==> Uniform(r.value.0)
    ensures r.Ok? ==> forall j :: 0 <= j < |g| && j !in sub ==> r.value.0[j] == g[j]
    ensures r.Err? ==> r.error == DrawsExhausted
  {
    assert sub[..|sub|] == sub;
    var r := InitTo(g, sub, |sub|, R, draws);
    if r.Ok? && Uniform(g) then
      SameDataKeepsUniform(g, r.value.0);
      r
    else r
  }

  /** `AddedAt` reads only the node at `sub[t]` before and after. */
  lemma AddedAtSame(g: Arena, g': Arena, h: Arena, h': Arena, sub: seq<nat>, t: nat, R: nat)
    requires InArena(g, sub) && |g'| == |g| && |h| == |g| && |h'| == |g| && t < |sub|
    requires g'[sub[t]] == g[sub[t]] && h'[sub[t]] == h[sub[t]]
    requires AddedAt(g, h, sub, t, R)
    ensures AddedAt(g', h', sub, t, R)
  {
  }

  /** One member's step appends its `R` members. */
  lemma PickAdds(g: Arena, sub: seq<nat>, t: nat, R: nat, rest: seq<nat>)
    requires InArena(g, sub) && t < |sub|
    requires Vamana.Pick(|sub|, g[sub[t]].id, R, rest, []).Ok?
    ensures var p := sub[t];
      AddedAt(g, SetOut(g, p, g[p].out + Gather(sub, Vamana.Pick(|sub|, g[p].id, R, rest, []).value.0)), sub, t, R)
  {
    var p := sub[t];
    var added := Gather(sub, Vamana.Pick(|sub|, g[p].id, R, rest, []).value.0);
    var h := SetOut(g, p, g[p].out + added);
    assert h[p].out[..|g[p].out|] == g[p].out;
    assert forall k :: |g[p].out| <= k < |h[p].out| ==> h[p].out[k] == added[k - |g[p].out|];
  }

  /** Every one of the first `i` members gets its `R` appended members,
      when the members are distinct. */
  lemma {:induction false} InitToAdds(g: Arena, sub: seq<nat>, i: nat, R: nat, draws: seq<nat>)
    requires InArena(g, sub) && i <= |sub| && NoDup(sub)
    requires InitTo(g, sub, i, R, draws).Ok?
    ensures forall t :: 0 <= t < i ==> AddedAt(g, InitTo(g, sub, i, R, draws).value.0, sub, t, R)
  {
    if i > 0 {
      InitToAdds(g, sub, i - 1, R, draws);
      var (g1, rest) := InitTo(g, sub, i - 1, R, draws).value;
      var p := sub[i - 1];
      var h := InitTo(g, sub, i, R, draws).value.0;
      assert h == SetOut(g1, p, g1[p].out + Gather(sub, Vamana.Pick(|sub|, g1[p].id, R, rest, []).value.0));
      PickAdds(g1, sub, i - 1, R, rest);
      assert p !in sub[..i - 1];
      AddedAtSame(g1, g, h, h, sub, i - 1, R);
      forall t | 0 <= t < i - 1 ensures AddedAt(g, h, sub, t, R) {
        assert sub[t] != p;
        AddedAtSame(g, g, g1, h, sub, t, R);
      }
    }
  }

  /** The random graph keeps references valid; started from nodes without
      edges it gives every node at most `R` edges, and with the members'
      ids equal to their indices it adds no self-loop. */
  lemma InitShape(g: Arena, sub: seq<nat>, R: nat, draws: seq<nat>)
    requires InArena(g, sub) && NoDup(sub) && InitializeRandomGraph(g, sub, R, draws).Ok?
    ensures var h := InitializeRandomGraph(g, sub, R, draws).value.0;
      && (Fresh(g) ==> DegreeAtMost(h, R))
      && (IdsArePositions(g, sub) && NoSelfLoops(g) ==> NoSelfLoops(h))
  {
    InitToAdds(g, sub, |sub|, R, draws);
    var h := InitializeRandomGraph(g, sub, R, draws).value.0;
    assert sub[..|sub|] == sub;
    forall i | 0 <= i < |h| && i in sub
      ensures |h[i].out| == |g[i].out| + R
      ensures forall k :: 0 <= k < |h[i].out| && IdsArePositions(g, sub) && NoSelfLoops(g) ==> h[i].out[k] != i
    {
      var t :| 0 <= t < |sub| && sub[t] == i;
      assert AddedAt(g, h, sub, t, R);
      forall k | 0 <= k < |g[i].out| ensures h[i].out[k] == g[i].out[k] {
        assert h[i].out[..|g[i].out|][k] == h[i].out[k];
      }
    }
  }

  /** Once the first member's loop cannot finish, the whole loop fails. */
  lemma {:induction false} InitToStalls(g: Arena, sub: seq<nat>, i: nat, R: nat, draws: seq<nat>)
    requires InArena(g, sub) && 0 < i <= |sub|
    requires Vamana.Pick(|sub|, g[sub[0]].id, R, draws, []).Err?
    ensures InitTo(g, sub, i, R, draws).Err?
  {
    if i > 1 {
      InitToStalls(g, sub, i - 1, R, draws);
    } else {
      assert InitTo(g, sub, 0, R, draws) == Ok((g, draws));
    }
  }

  /** Without the guard on `R` the loop cannot finish when the first
      member has fewer than `R` admissible indices, whatever the draws:
      with that member's id one of the subset's indices this is any `R`
      of at least the subset's size. */
  lemma InitStalls(g: Arena, sub: seq<nat>, R: nat, draws: seq<nat>)
    requires InArena(g, sub) && |sub| > 0
    requires R + (if g[sub[0]].id < |sub| then 1 else 0) > |sub|
    ensures InitializeRandomGraph(g, sub, R, draws) == Err(DrawsExhausted)
  {
    if Vamana.Pick(|sub|, g[sub[0]].id, R, draws, []).Ok? {
      PickNeedsRoom(|sub|, g[sub[0]].id, R, draws);
    }
    InitToStalls(g, sub, |sub|, R, draws);
  }

  // ---------------------------------------------------------------------
  // VamanaIndexingAlgorithm (modules/stichedvamana.cpp:20-80)

  /** One reverse edge `q -> p`: `p` is appended to `q`'s list, and when
      the list had `R` or more entries `q` is re-pruned with its own list
      as candidates, so the pool holds that list twice.  Either way `q`
      ends within `R`. */
  function ReverseStep(g: Arena, p: nat, q: nat, alpha: real, R: nat): (h: Arena)
    requires ValidRefs(g) && Uniform(g) && p < |g| && q < |g|
    ensures SameData(g, h) && ValidRefs(h)
    ensures forall j :: 0 <= j < |g| && j != q ==> h[j] == g[j]
    ensures |h[q].out| <= R
    ensures |g[q].out| + 1 <= R ==> h[q].out == g[q].out + [p]
  {
    var g1 := SetOut(g, q, g[q].out + [p]);
    assert ValidRefs(g1);
    if |g[q].out| + 1 > R then
      SameDataKeepsUniform(g, g1);
      var h := RP.RobustPruneAt(g1, q, g1[q].out, alpha, R);
      SameDataTransitive(g, g1, h);
      h
    else g1
  }

  /** The reverse edges for `p` to each of `qs` in turn.  Each `q` ends
      within `R`, and nodes not listed are untouched. */
  function Reverse(g: Arena, p: nat, qs: seq<nat>, alpha: real, R: nat): (h: Arena)
    requires ValidRefs(g) && Uniform(g) && p < |g| && InArena(g, qs)
    ensures SameData(g, h) && ValidRefs(h)
    ensures forall j :: 0 <= j < |g| && j !in qs ==> h[j] == g[j]
    ensures forall j :: 0 <= j < |g| && (j in qs || |g[j].out| <= R) ==> |h[j].out| <= R
    decreases |qs|
  {
    if |qs| == 0 then g
    else
      var g1 := ReverseStep(g, p, qs[0], alpha, R);
      SameDataKeepsUniform(g, g1);
      var h := Reverse(g1, p, qs[1..], alpha, R);
      assert forall j :: j in qs <==> j == qs[0] || j in qs[1..];
      SameDataTransitive(g, g1, h);
      h
  }

  /** The search of the loop body (lines 59-60): from `s`, the single
      node nearest `p`. */
  function Search(g: Arena, s: nat, p: nat, L: nat): (V: seq<nat>)
    requires ValidRefs(g) && Uniform(g) && s < |g| && p < |g|
    ensures |V| <= 1 && InArena(g, V)
  {
    assert GS.Fits(g, g[p].coords);
    Vamana.SearchInArena(g, s, g[p].coords, 1, L);
    GS.GreedySearch(g, Some(s), g[p].coords, 1, L)
  }

  /** The rest of the loop body (lines 62-78): prune `p` with `V` and its
      current list, then add the reverse edges to the new list.  `p` ends
      within `R`, and a node within `R` stays within it. */
  function Link(g: Arena, p: nat, V: seq<nat>, alpha: real, R: nat): (h: Arena)
    requires ValidRefs(g) && Uniform(g) && p < |g| && InArena(g, V)
    ensures SameData(g, h) && ValidRefs(h)
    ensures |h[p].out| <= R
    ensures forall j :: 0 <= j < |g| && |g[j].out| <= R ==> |h[j].out| <= R
  {
    var g1 := RP.RobustPruneAt(g, p, V, alpha, R);
    SameDataKeepsUniform(g, g1);
    var h := Reverse(g1, p, g1[p].out, alpha, R);
    SameDataTransitive(g, g1, h);
    h
  }

  /** The loop body for `p` (lines 57-78). */
  function Insert(g: Arena, s: nat, p: nat, L: nat, alpha: real, R: nat): (h: Arena)
    requires ValidRefs(g) && Uniform(g) && s < |g| && p < |g|
    ensures SameData(g, h) && ValidRefs(h)
    ensures forall j :: 0 <= j < |g| && (j == p || |g[j].out| <= R) ==> |h[j].out| <= R
  {
    Link(g, p, Search(g, s, p, L), alpha, R)
  }

  /** Insert the nodes of `order` in turn: every inserted node ends within
      `R`, and a node within `R` stays within it. */
  function Build(g: Arena, s: nat, order: seq<nat>, L: nat, alpha: real, R: nat): (h: Arena)
    requires ValidRefs(g) && Uniform(g) && s < |g| && InArena(g, order)
    ensures SameData(g, h) && ValidRefs(h)
    ensures forall j :: 0 <= j < |g| && (j in order || |g[j].out| <= R) ==> |h[j].out| <= R
    decreases |order|
  {
    if |order| == 0 then g
    else
      var g1 := Insert(g, s, order[0], L, alpha, R);
      SameDataKeepsUniform(g, g1);
      var h := Build(g1, s, order[1..], L, alpha, R);
      SameDataTransitive(g, g1, h);
      assert forall x :: x in order ==> x == order[0] || x in order[1..];
      h
  }

  /** The nodes a subset lists, in its order. */
  function Members(g: Arena, sub: seq<nat>): (nodes: seq<Node>)
    requires InArena(g, sub)
    ensures |nodes| == |sub|
    ensures forall t :: 0 <= t < |sub| ==> nodes[t] == g[sub[t]]
  {
    seq(|sub|, t requires 0 <= t < |sub| => g[sub[t]])
  }

  lemma MembersSameDims(g: Arena, sub: seq<nat>)
    requires Uniform(g) && InArena(g, sub)
    ensures Medoid.SameDims(Members(g, sub))
  {
    var nodes := Members(g, sub);
    if |nodes| > 0 {
      assert forall t :: 0 <= t < |nodes| ==> Medoid.Points(nodes)[t] == g[sub[t]].coords;
    }
  }

  lemma GatherContains(sub: seq<nat>, js: seq<nat>, i: nat)
    requires forall t :: 0 <= t < |js| ==> js[t] < |sub|
    requires i in js
    ensures i < |sub| && sub[i] in Gather(sub, js)
  {
    var u :| 0 <= u < |js| && js[u] == i;
    assert Gather(sub, js)[u] == sub[i];
  }

  /** The insertion loop of VamanaIndexingAlgorithm: the members at the
      indices of `order`, which lists every index below `n`, are inserted
      in turn from the start node `s`.  Each of the first `n` members ends
      within `R`, and a node already within `R` stays within it. */
  method InsertMembers(g: Arena, sub: seq<nat>, s: nat, order: seq<nat>, n: nat, L: nat, alpha: real, R: nat)
    returns (h: Arena)
    requires ValidRefs(g) && Uniform(g) && InArena(g, sub) && s < |g| && n <= |sub|
    requires forall t :: 0 <= t < |order| ==> order[t] < |sub|
    requires forall i :: 0 <= i < n ==> i in order
    ensures SameData(g, h) && ValidRefs(h)
    ensures forall t :: 0 <= t < n ==> |h[sub[t]].out| <= R
    ensures forall j :: 0 <= j < |g| && |g[j].out| <= R ==> |h[j].out| <= R
  {
    var visit := Gather(sub, order);
    h := Build(g, s, visit, L, alpha, R);
    forall t | 0 <= t < n ensures sub[t] in visit {
      GatherContains(sub, order, t);
    }
  }

  /** approximateMedoid on the subset's nodes: the id of one of them. */
  function SubsetMedoid(g: Arena, sub: seq<nat>, k: int, draws: seq<nat>): (r: Result<nat, Error>)
    requires Uniform(g) && InArena(g, sub)
    ensures |sub| == 0 ==> r == Err(EmptyInput)
    ensures r.Ok? ==> exists t :: 0 <= t < |sub| && r.value == g[sub[t]].id
    ensures r.Ok? ==> 0 < k <= |sub| && k <= |draws|
  {
    MembersSameDims(g, sub);
    Medoid.ApproximateMedoid(Members(g, sub), k, draws)
  }

  /** The start node and visiting order of VamanaIndexingAlgorithm: the
      index equal to the approximate medoid's id, then a Fisher–Yates order
      of the indices below `n`.  approximateMedoid throws unless the subset
      has at least `k` members, and an id that is not an index of the
      subset, or an `n` beyond it, indexes past its end. */
  method StartAndOrder(g: Arena, sub: seq<nat>, k: int, n: int, draws: seq<nat>)
    returns (r: Result<(nat, seq<nat>, seq<nat>), Error>)
    requires Uniform(g) && InArena(g, sub)
    ensures k > |sub| ==> r.Err?
    ensures (forall t :: 0 <= t < |sub| ==> g[sub[t]].id >= |sub|) ==> r.Err?
    ensures r.Ok? ==> var (m, order, rest) := r.value;
      && m < |sub| && 0 <= n <= |sub| && |order| == n && NoDup(order)
      && (forall t :: 0 <= t < n ==> order[t] < n)
      && (forall i :: 0 <= i < n ==> i in order)
  {
    var m := SubsetMedoid(g, sub, k, draws);
    if m.Err? {
      return Err(m.error);
    }
    if m.value >= |sub| || n < 0 || n > |sub| {
      return Err(OutOfRange);
    }
    var rest := draws[k..];
    if |rest| < Needed(n) {
      return Err(DrawsExhausted);
    }
    FisherYatesOrder(n, rest);
    r := Ok((m.value, FisherYates<nat>(Range(n), rest), rest[Needed(n)..]));
  }

  /** VamanaIndexingAlgorithm on the nodes `sub`: the random graph over
      the subset, then, unless `n` is 0, the first `n` members inserted
      from the start node.  The draws left over come back with the
      nodes. */
  method SubsetBuild(g: Arena, sub: seq<nat>, k: int, L: nat, R: nat, alpha: real, n: int, draws: seq<nat>)
    returns (r: Result<(Arena, seq<nat>), Error>)
    requires ValidRefs(g) && Uniform(g) && InArena(g, sub)
    ensures InitializeRandomGraph(g, sub, R, draws).Err? ==> r == Err(DrawsExhausted)
    ensures n == 0 ==> r == InitializeRandomGraph(g, sub, R, draws)
    ensures n != 0 && k > |sub| ==> r.Err?
    ensures n != 0 && (forall t :: 0 <= t < |sub| ==> g[sub[t]].id >= |sub|) ==> r.Err?
    ensures r.Ok? ==> SameData(g, r.value.0) && ValidRefs(r.value.0) && n <= |sub|
    ensures r.Ok? ==> forall t :: 0 <= t < n ==> |r.value.0[sub[t]].out| <= R
    ensures r.Ok? && Fresh(g) && NoDup(sub) ==> DegreeAtMost(r.value.0, R)
  {
    var init := InitializeRandomGraph(g, sub, R, draws);
    if init.Err? {
      return Err(init.error);
    }
    var (g1, rest) := init.value;
    if Fresh(g) && NoDup(sub) {
      InitShape(g, sub, R, draws);
    }
    if n == 0 {
      return init;
    }
    var so := StartAndOrder(g1, sub, k, n, rest);
    if so.Err? {
      return Err(so.error);
    }
    var (m, order, rest2) := so.value;
    var h := InsertMembers(g1, sub, sub[m], order, n, L, alpha, R);
    SameDataTransitive(g, g1, h);
    r := Ok((h, rest2));
  }

  // ---------------------------------------------------------------------
  // StitchedVamana (modules/stichedvamana.cpp:82-118)

  /** The graph the builders return: a node's position to the positions of
      its out-neighbours. */
  type DirectedGraph = map<nat, set<nat>>

  /** The positions a list names. */
  function Targets(xs: seq<nat>): set<nat> {
    set x | x in xs
  }

  /** Every tag of every node. */
  function Labels(g: Arena): set<string> {
    set i, t | 0 <= i < |g| && t in g[i].tags :: t
  }

  /** The positions below `n` of the nodes carrying `tag`, in order. */
  function SubsetBelow(g: Arena, tag: string, n: nat): (r: seq<nat>)
    requires n <= |g|
    ensures forall x: nat :: x in r <==> x < n && tag in g[x].tags
    ensures forall a, b :: 0 <= a < b < |r| ==> r[a] < r[b]
  {
    if n == 0 then []
    else
      var r := SubsetBelow(g, tag, n - 1);
      assert forall k :: 0 <= k < |r| ==> r[k] in r && r[k] < n - 1;
      if tag in g[n - 1].tags then r + [n - 1] else r
  }

  /** The nodes of one tag, in arena order: exactly those carrying it,
      each once. */
  function Subset(g: Arena, tag: string): (r: seq<nat>)
    ensures forall x: nat :: x in r <==> x < |g| && tag in g[x].tags
    ensures InArena(g, r) && NoDup(r)
  {
    var r := SubsetBelow(g, tag, |g|);
    assert forall k :: 0 <= k < |r| ==> r[k] in r;
    r
  }

  /** The subset depends only on the tags, which the builders keep. */
  lemma {:induction false} SubsetBelowSameData(g: Arena, h: Arena, tag: string, n: nat)
    requires SameData(g, h) && n <= |g|
    ensures SubsetBelow(g, tag, n) == SubsetBelow(h, tag, n)
  {
    if n > 0 {
      SubsetBelowSameData(g, h, tag, n - 1);
    }
  }

  lemma SubsetSameData(g: Arena, h: Arena, tag: string)
    requires SameData(g, h)
    ensures Subset(g, tag) == Subset(h, tag)
  {
    SubsetBelowSameData(g, h, tag, |g|);
  }

  /** Lines 104-106: every member's entry becomes the set of its current
      out-neighbours; the other entries stay. */
  function Record(G: DirectedGraph, g: Arena, sub: seq<nat>): (H: DirectedGraph)
    requires InArena(g, sub)
    ensures forall x :: x in H <==> x in G || x in sub
    ensures forall x :: x in sub ==> H[x] == Targets(g[x].out)
    ensures forall x :: x in G && x !in sub ==> H[x] == G[x]
    decreases |sub|
  {
    if |sub| == 0 then G
    else
      assert forall x :: x in sub <==> x == sub[0] || x in sub[1..];
      Record(G[sub[0] := Targets(g[sub[0]].out)], g, sub[1..])
  }

  /** Lines 95-106 for one tag: the nodes carrying it are built with
      k = 100 and n = 100, then recorded.  Fewer than 100 such nodes make
      approximateMedoid throw. */
  method BuildTag(g: Arena, G: DirectedGraph, tag: string, alpha: real, L: nat, R: nat, draws: seq<nat>)
    returns (r: Result<(Arena, DirectedGraph, seq<nat>), Error>)
    requires ValidRefs(g) && Uniform(g)
    ensures |Subset(g, tag)| < 100 ==> r.Err?
    ensures r.Ok? ==> SameData(g, r.value.0) && ValidRefs(r.value.0)
    ensures r.Ok? ==> forall x :: x in r.value.1 <==> x in G || x in Subset(g, tag)
    ensures r.Ok? ==> forall x :: x in Subset(g, tag) ==> r.value.1[x] == Targets(r.value.0[x].out)
  {
    var sub := Subset(g, tag);
    var built := SubsetBuild(g, sub, 100, L, R, alpha, 100, draws);
    if built.Err? {
      return Err(built.error);
    }
    var (h, rest) := built.value;
    r := Ok((h, Record(G, h, sub), rest));
  }

  /** Recording the subset of tag `i` extends the keys from the nodes of
      the earlier tags to those of the first `i + 1`. */
  lemma Covered(g: Arena, labels: seq<string>, i: nat, G: DirectedGraph, H: DirectedGraph)
    requires i < |labels|
    requires forall x :: x in G <==> exists t :: 0 <= t < i && x in Subset(g, labels[t])
    requires forall x :: x in H <==> x in G || x in Subset(g, labels[i])
    ensures forall x :: x in H <==> exists t :: 0 <= t < i + 1 && x in Subset(g, labels[t])
  {
    forall x ensures x in H <==> exists t :: 0 <= t < i + 1 && x in Subset(g, labels[t]) {
      if exists t :: 0 <= t < i + 1 && x in Subset(g, labels[t]) {
        var t :| 0 <= t < i + 1 && x in Subset(g, labels[t]);
        assert t < i ==> x in G;
      }
    }
  }

  /** Lines 93-107: for every tag, in the order `labels` gives the
      source's hash set, the nodes carrying it are built with k = 100 and
      n = 100 and recorded.  A tag with fewer than 100 nodes makes
      approximateMedoid throw. */
  method BuildTags(g: Arena, alpha: real, L: nat, R: nat, labels: seq<string>, draws: seq<nat>)
    returns (r: Result<(Arena, DirectedGraph), Error>)
    requires ValidRefs(g) && Uniform(g)
    ensures labels == [] ==> r == Ok((g, map[]))
    ensures forall t :: 0 <= t < |labels| && |Subset(g, labels[t])| < 100 ==> r.Err?
    ensures r.Ok? ==> SameData(g, r.value.0) && ValidRefs(r.value.0)
    ensures r.Ok? ==> forall x :: x in r.value.1 <==> exists t :: 0 <= t < |labels| && x in Subset(g, labels[t])
  {
    var h, G: DirectedGraph, rest := g, map[], draws;
    var i := 0;
    while i < |labels|
      invariant i <= |labels|
      invariant SameData(g, h) && ValidRefs(h) && Uniform(h)
      invariant forall x :: x in G <==> exists t :: 0 <= t < i && x in Subset(g, labels[t])
      invariant forall t :: 0 <= t < i ==> |Subset(g, labels[t])| >= 100
      invariant i == 0 ==> h == g && G == map[]
    {
      SubsetSameData(g, h, labels[i]);
      var built := BuildTag(h, G, labels[i], alpha, L, R, rest);
      if built.Err? {
        return Err(built.error);
      }
      var (h', G', rest') := built.value;
      assert |Subset(g, labels[i])| >= 100;
      assert forall t :: 0 <= t < i + 1 ==> |Subset(g, labels[t])| >= 100;
      SameDataTransitive(g, h, h');
      SameDataKeepsUniform(g, h');
      Covered(g, labels, i, G, G');
      h, G, rest := h', G', rest';
      i := i + 1;
    }
    r := Ok((h, G));
  }

  /** Line 111: one node pruned with its own out-neighbours as candidates;
      it ends without itself and, for a positive bound, within it, and no
      other node changes. */
  method PruneNode(g: Arena, p: nat, alpha: real, Rs: nat) returns (r: Result<Arena, Error>)
    requires ValidRefs(g) && Uniform(g) && p < |g|
    ensures r.Ok? ==> SameData(g, r.value) && ValidRefs(r.value)
    ensures r.Ok? ==> forall j :: 0 <= j < |g| && j != p ==> r.value[j] == g[j]
    ensures r.Ok? ==> p !in r.value[p].out && (Rs >= 1 ==> |r.value[p].out| <= Rs)
  {
    r := FRP.FilteredRobustPruneAt(g, p, g[p].out, alpha, Rs);
    if r.Ok? {
      assert forall k :: 0 <= k < |r.value[p].out| ==> r.value[p].out[k] != p;
    }
  }

  /** Lines 109-115: every node in turn is pruned by FilteredRobustPrune
      with its own out-neighbours as candidates, and its entry becomes the
      set of what is left. */
  method PruneAll(g: Arena, G: DirectedGraph, alpha: real, Rs: nat) returns (r: Result<(Arena, DirectedGraph), Error>)
    requires ValidRefs(g) && Uniform(g)
    ensures r.Ok? ==> SameData(g, r.value.0) && ValidRefs(r.value.0)
    ensures |g| == 0 ==> r == Ok((g, G))
    ensures r.Ok? ==> forall x: nat :: x in r.value.1 <==> x in G || x < |g|
    ensures r.Ok? ==> forall x :: 0 <= x < |g| ==>
      && r.value.1[x] == Targets(r.value.0[x].out)
      && x !in r.value.0[x].out
      && (Rs >= 1 ==> |r.value.0[x].out| <= Rs)
  {
    var h: Arena, H: DirectedGraph := g, G;
    var j := 0;
    while j < |g|
      invariant j <= |g|
      invariant SameData(g, h) && ValidRefs(h) && Uniform(h)
      invariant forall x: nat :: x in H <==> x in G || x < j
      invariant j == 0 ==> h == g && H == G
      invariant forall x :: 0 <= x < j ==>
        && H[x] == Targets(h[x].out)
        && x !in h[x].out
        && (Rs >= 1 ==> |h[x].out| <= Rs)
    {
      var pruned := PruneNode(h, j, alpha, Rs);
      if pruned.Err? {
        return Err(pruned.error);
      }
      SameDataTransitive(g, h, pruned.value);
      SameDataKeepsUniform(g, pruned.value);
      h := pruned.value;
      H := H[j := Targets(h[j].out)];
      j := j + 1;
    }
    r := Ok((h, H));
  }

  /** The stitched build: the per-tag builds, then the global prune.  The
      labels list every tag once, in the order of the source's hash set. */
  method StitchedVamana(g: Arena, alpha: real, L: nat, R: nat, Rs: nat, labels: seq<string>, draws: seq<nat>)
    returns (r: Result<(Arena, DirectedGraph), Error>)
    requires ValidRefs(g) && Uniform(g)
    requires NoDup(labels) && |labels| == |Labels(g)| && forall l :: l in labels <==> l in Labels(g)
    ensures |g| == 0 ==> r == Ok((g, map[]))
    ensures forall l :: l in Labels(g) && |Subset(g, l)| < 100 ==> r.Err?
    ensures r.Ok? ==> SameData(g, r.value.0) && ValidRefs(r.value.0)
    ensures r.Ok? ==> forall x: nat :: x in r.value.1 <==> x < |g|
    ensures r.Ok? ==> forall x :: 0 <= x < |g| ==>
      && r.value.1[x] == Targets(r.value.0[x].out)
      && x !in r.value.0[x].out
      && (Rs >= 1 ==> |r.value.0[x].out| <= Rs)
  {
    if |g| == 0 {
      assert Labels(g) == {};
    }
    var built := BuildTags(g, alpha, L, R, labels, draws);
    if built.Err? {
      return Err(built.error);
    }
    var (h, G) := built.value;
    SameDataKeepsUniform(g, h);
    r := PruneAll(h, G, alpha, Rs);
    if r.Ok? {
      SameDataTransitive(g, h, r.value.0);
    }
  }
}
