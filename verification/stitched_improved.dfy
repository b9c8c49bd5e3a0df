/** The stitched builder of modules/stitched_vamana_with_improvements.cpp.

    The nodes are grouped by filter value.  The distinct filters, in the
    iteration order of the source's hash set (a parameter), are swapped
    into a random order; for every pair of them `R_stitched` random edges
    are added in each direction between the two groups.  Every group is
    then built by the Vamana builder of modules/vamana.cpp, and finally
    every node is pruned by FilteredRobustPrune and loses the neighbours
    whose filter differs from its own.  Random choices come from one list
    of draws consumed in that order. */
module StitchedImproved {
  import opened Wrappers
  import opened Graph
  import opened Shuffle
  import FRP = FilteredRobustPrune
  import FM = FindMedoid
  import SV = StitchedVamana
  import Vamana

  // ---------------------------------------------------------------------
  // Grouping by filter (lines 5-11)

  /** `commonFilter[f]`: the positions of the nodes with filter `f`, in
      input order. */
  function Group(g: Arena, f: real): seq<nat> {
    FM.MatchingAt(g, f, |g|)
  }

  /** Strictly ascending. */
  predicate Increasing(r: seq<nat>) {
    forall a, b :: 0 <= a < b < |r| ==> r[a] < r[b]
  }

  lemma {:induction false} MatchingAtIncreasing(g: Arena, f: real, n: nat)
    requires n <= |g|
    ensures Increasing(FM.MatchingAt(g, f, n))
    decreases n
  {
    if n > 0 {
      MatchingAtIncreasing(g, f, n - 1);
      var prev := FM.MatchingAt(g, f, n - 1);
      var r := FM.MatchingAt(g, f, n);
      assert r == prev + (if g[n - 1].filter == f then [n - 1] else []);
      forall a, b | 0 <= a < b < |r| ensures r[a] < r[b] {
        assert r[a] == prev[a];
        if b >= |prev| {
          assert r[b] == n - 1 && prev[a] < n - 1;
        } else {
          assert r[b] == prev[b];
        }
      }
    }
  }

  /** A group holds exactly the nodes with its filter, each once, and is
      never empty for a filter some node carries. */
  lemma GroupShape(g: Arena, f: real)
    ensures forall x: nat :: x in Group(g, f) <==> x < |g| && g[x].filter == f
    ensures InArena(g, Group(g, f)) && NoDup(Group(g, f))
    ensures f in FM.Filters(g) ==> |Group(g, f)| > 0
  {
    var r := Group(g, f);
    MatchingAtIncreasing(g, f, |g|);
    forall x: nat ensures x in r <==> x < |g| && g[x].filter == f {
      if x < |g| && g[x].filter == f {
        FM.MatchingAtComplete(g, f, |g|, x);
      }
      if x in r {
        var t :| 0 <= t < |r| && r[t] == x;
      }
    }
    if f in FM.Filters(g) {
      var i :| 0 <= i < |g| && g[i].filter == f;
      FM.MatchingAtComplete(g, f, |g|, i);
    }
  }

  /** The groups of the distinct filters partition the nodes: every node
      is in the group of exactly one listed filter. */
  lemma GroupsPartition(g: Arena, filters: seq<real>, x: nat)
    requires FM.Listed(filters) == FM.Filters(g) && NoDup(filters) && x < |g|
    ensures exists t :: 0 <= t < |filters| && x in Group(g, filters[t])
    ensures forall t :: 0 <= t < |filters| && x in Group(g, filters[t]) ==> filters[t] == g[x].filter
  {
    assert g[x].filter in FM.Filters(g);
    var t :| 0 <= t < |filters| && filters[t] == g[x].filter;
    GroupShape(g, filters[t]);
    forall u | 0 <= u < |filters| && x in Group(g, filters[u]) ensures filters[u] == g[x].filter {
      GroupShape(g, filters[u]);
    }
  }

  // ---------------------------------------------------------------------
  // The filter order (lines 16-22)

  /** For `i` from `from` up, position `i` is swapped with position
      `draw % |s|`. */
  function SwapFrom<T>(s: seq<T>, from: nat, draws: seq<nat>): (r: seq<T>)
    requires from <= |s| && |s| - from <= |draws|
    ensures |r| == |s|
    decreases |s| - from
  {
    if from == |s| then s
    else SwapFrom(Swap(s, from, draws[0] % |s|), from + 1, draws[1..])
  }

  /** The shuffled filter list; it consumes one draw per filter. */
  function SwapShuffle<T>(s: seq<T>, draws: seq<nat>): (r: seq<T>)
    requires |s| <= |draws|
    ensures |r| == |s|
  {
    SwapFrom(s, 0, draws)
  }

  lemma {:induction false} SwapFromPermutes<T>(s: seq<T>, from: nat, draws: seq<nat>)
    requires from <= |s| && |s| - from <= |draws|
    ensures multiset(SwapFrom(s, from, draws)) == multiset(s)
    decreases |s| - from
  {
    if from < |s| {
      var j := draws[0] % |s|;
      SwapPermutes(s, from, j);
      SwapFromPermutes(Swap(s, from, j), from + 1, draws[1..]);
    }
  }

  /** The shuffled filters are the distinct filters again, each once. */
  lemma SwapShufflePermutes(filters: seq<real>, draws: seq<nat>)
    requires |filters| <= |draws| && NoDup(filters)
    ensures var r := SwapShuffle(filters, draws);
      && multiset(r) == multiset(filters)
      && NoDup(r) && FM.Listed(r) == FM.Listed(filters)
  {
    var r := SwapShuffle(filters, draws);
    SwapFromPermutes(filters, 0, draws);
    forall a, b | 0 <= a < b < |r| ensures r[a] != r[b] {
      if r[a] == r[b] {
        CountedTwice(r, a, b);
        assert multiset(filters)[r[a]] >= 2;
        NoDupOnce(filters, r[a]);
      }
    }
    forall f ensures f in FM.Listed(r) <==> f in FM.Listed(filters) {
      assert f in r <==> f in multiset(r);
      assert f in filters <==> f in multiset(filters);
      if f in r {
        var t :| 0 <= t < |r| && r[t] == f;
      }
      if f in filters {
        var t :| 0 <= t < |filters| && filters[t] == f;
      }
    }
  }

  /** A list without repetitions holds each of its elements once. */
  lemma {:induction false} NoDupOnce<T>(s: seq<T>, x: T)
    requires NoDup(s)
    ensures multiset(s)[x] <= 1
    decreases |s|
  {
    if |s| > 0 {
      assert s == [s[0]] + s[1..];
      assert NoDup(s[1..]);
      NoDupOnce(s[1..], x);
      if x == s[0] {
        assert x !in s[1..];
      }
    }
  }

  // ---------------------------------------------------------------------
  // Edges between the groups (lines 24-40)

  /** `p` comes before `q` in the order of the two nested loops. */
  predicate Before(p: (nat, nat), q: (nat, nat)) {
    p.0 < q.0 || (p.0 == q.0 && p.1 < q.1)
  }

  /** The index pairs `(a, b)` with `i <= a < b < n`, in the order of the
      two nested loops: the outer loop over `a`, the inner over `b`. */
  function PairsFrom(i: nat, n: nat): (r: seq<(nat, nat)>)
    ensures forall p :: p in r <==> i <= p.0 < p.1 < n
    ensures forall a, b :: 0 <= a < b < |r| ==> Before(r[a], r[b])
    decreases n - i
  {
    if i >= n then []
    else
      var row := seq(n - i - 1, t requires 0 <= t < n - i - 1 => (i, i + 1 + t));
      var r := PairsFrom(i + 1, n);
      assert forall t :: 0 <= t < |r| ==> r[t] in r;
      forall p: (nat, nat) ensures p in row <==> i == p.0 < p.1 < n {
        if p in row {
          var t :| 0 <= t < |row| && row[t] == p;
        }
        if i == p.0 < p.1 < n {
          assert row[p.1 - i - 1] == p;
        }
      }
      row + r
  }

  /** Every pair `(i, j)` with `i < j < n`, each once, in loop order. */
  function Pairs(n: nat): (r: seq<(nat, nat)>)
    ensures forall p :: p in r <==> p.0 < p.1 < n
    ensures NoDup(r)
  {
    PairsFrom(0, n)
  }

  /** There are `n(n-1)/2` pairs. */
  lemma {:induction false} PairsFromCount(i: nat, n: nat)
    requires i <= n
    ensures 2 * |PairsFrom(i, n)| == (n - i) * (n - i - 1)
    decreases n - i
  {
    if i < n {
      PairsFromCount(i + 1, n);
      assert (n - i) * (n - i - 1) == (n - i - 1) * (n - i - 2) + 2 * (n - i - 1);
    }
  }

  /** The sum of the out-degrees of the first `n` nodes. */
  function EdgeSum(g: Arena, n: nat): nat
    requires n <= |g|
  {
    if n == 0 then 0 else EdgeSum(g, n - 1) + |g[n - 1].out|
  }

  /** The number of edges. */
  function EdgeCount(g: Arena): nat {
    EdgeSum(g, |g|)
  }

  lemma {:induction false} EdgeSumSetOut(g: Arena, i: nat, out: seq<nat>, n: nat)
    requires i < |g| && n <= |g|
    ensures EdgeSum(SetOut(g, i, out), n) + (if i < n then |g[i].out| else 0)
         == EdgeSum(g, n) + (if i < n then |out| else 0)
    decreases n
  {
    if n > 0 {
      EdgeSumSetOut(g, i, out, n - 1);
    }
  }

  /** Replacing one list changes the count by the difference in length. */
  lemma EdgeCountSetOut(g: Arena, i: nat, out: seq<nat>)
    requires i < |g|
    ensures EdgeCount(SetOut(g, i, out)) + |g[i].out| == EdgeCount(g) + |out|
  {
    EdgeSumSetOut(g, i, out, |g|);
  }

  /** `y` is in the other one of the groups `A`, `B` than `x`. */
  predicate Across(x: nat, y: nat, A: seq<nat>, B: seq<nat>) {
    (x in A && y in B) || (x in B && y in A)
  }

  /** The list `after` of node `x` is `before` followed by edges to the
      other group. */
  predicate Extended(before: seq<nat>, after: seq<nat>, x: nat, A: seq<nat>, B: seq<nat>) {
    && |before| <= |after| && after[..|before|] == before
    && forall y :: y in after[|before|..] ==> Across(x, y, A, B)
  }

  lemma ExtendedTransitive(xs: seq<nat>, ys: seq<nat>, zs: seq<nat>, x: nat, A: seq<nat>, B: seq<nat>)
    requires Extended(xs, ys, x, A, B) && Extended(ys, zs, x, A, B)
    ensures Extended(xs, zs, x, A, B)
  {
    assert zs[..|xs|] == zs[..|ys|][..|xs|];
    assert zs[|xs|..] == ys[|xs|..] + zs[|ys|..];
  }

  /** Every list of `h` is the list of `g` followed by edges from one of
      the groups `A`, `B` to the other. */
  predicate Crosses(g: Arena, h: Arena, A: seq<nat>, B: seq<nat>) {
    && |h| == |g|
    && forall x :: 0 <= x < |g| ==> Extended(g[x].out, h[x].out, x, A, B)
  }

  lemma CrossesTransitive(g: Arena, h: Arena, k: Arena, A: seq<nat>, B: seq<nat>)
    requires Crosses(g, h, A, B) && Crosses(h, k, A, B)
    ensures Crosses(g, k, A, B)
  {
    forall x | 0 <= x < |g| ensures Extended(g[x].out, k[x].out, x, A, B) {
      ExtendedTransitive(g[x].out, h[x].out, k[x].out, x, A, B);
    }
  }

  /** Two distinct new edges `a -> b` and `b -> a` between the groups. */
  lemma BridgeCrosses(g: Arena, a: nat, b: nat, A: seq<nat>, B: seq<nat>)
    requires a < |g| && b < |g| && a in A && b in B && a != b
    ensures Crosses(g, Bridge(g, a, b), A, B)
    ensures EdgeCount(Bridge(g, a, b)) == EdgeCount(g) + 2
  {
    var g1 := SetOut(g, a, g[a].out + [b]);
    EdgeCountSetOut(g, a, g[a].out + [b]);
    EdgeCountSetOut(g1, b, g1[b].out + [a]);
    var h := Bridge(g, a, b);
    forall x | 0 <= x < |g| ensures Extended(g[x].out, h[x].out, x, A, B) {
      if x == a {
        assert h[a].out[|g[a].out|..] == [b];
      } else if x == b {
        assert h[b].out[|g[b].out|..] == [a];
      } else {
        assert h[x].out[|g[x].out|..] == [];
      }
    }
  }

  /** One iteration of lines 30-38: a random member `a` of `A` and `b` of
      `B` get the edges `a -> b` and `b -> a`. */
  function Bridge(g: Arena, a: nat, b: nat): (h: Arena)
    requires a < |g| && b < |g|
    ensures SameData(g, h)
    ensures ValidRefs(g) ==> ValidRefs(h)
    ensures a != b ==> h[a].out == g[a].out + [b] && h[b].out == g[b].out + [a]
    ensures forall x :: 0 <= x < |g| && x != a && x != b ==> h[x] == g[x]
  {
    var g1 := SetOut(g, a, g[a].out + [b]);
    SetOut(g1, b, g1[b].out + [a])
  }

  /** The `k` iterations for the pair of groups `A`, `B`, each taking two
      draws.  The loop stops when a group is empty. */
  function Connect(g: Arena, A: seq<nat>, B: seq<nat>, k: nat, draws: seq<nat>): (r: Result<(Arena, seq<nat>), Error>)
    requires InArena(g, A) && InArena(g, B)
    ensures r.Ok? ==> SameData(g, r.value.0) && (ValidRefs(g) ==> ValidRefs(r.value.0))
    ensures r.Err? ==> r.error == DrawsExhausted
    decreases k
  {
    if k == 0 || |A| == 0 || |B| == 0 then Ok((g, draws))
    else if |draws| < 2 then Err(DrawsExhausted)
    else
      var h := Bridge(g, A[draws[0] % |A|], B[draws[1] % |B|]);
      var r := Connect(h, A, B, k - 1, draws[2..]);
      if r.Ok? then SameDataTransitive(g, h, r.value.0); r else r
  }

  /** Between two disjoint, non-empty groups the pair gets exactly `2k`
      new edges, each from one group to the other, appended after the
      edges already there. */
  lemma {:induction false} ConnectEdges(g: Arena, A: seq<nat>, B: seq<nat>, k: nat, draws: seq<nat>)
    requires InArena(g, A) && InArena(g, B) && |A| > 0 && |B| > 0
    requires forall x :: x in A ==> x !in B
    requires Connect(g, A, B, k, draws).Ok?
    ensures EdgeCount(Connect(g, A, B, k, draws).value.0) == EdgeCount(g) + 2 * k
    ensures Crosses(g, Connect(g, A, B, k, draws).value.0, A, B)
    decreases k
  {
    if k > 0 {
      var a, b := A[draws[0] % |A|], B[draws[1] % |B|];
      assert a in A && b in B;
      var h := Bridge(g, a, b);
      BridgeCrosses(g, a, b, A, B);
      var r := Connect(h, A, B, k - 1, draws[2..]);
      assert Connect(g, A, B, k, draws) == r;
      ConnectEdges(h, A, B, k - 1, draws[2..]);
      CrossesTransitive(g, h, r.value.0, A, B);
    }
  }

  /** `groups[t]` is a non-empty list of nodes with filter `fs[t]`, and
      the filters are distinct. */
  predicate Grouped(g: Arena, groups: seq<seq<nat>>, fs: seq<real>) {
    && |groups| == |fs| && NoDup(fs)
    && forall t :: 0 <= t < |groups| ==>
         && |groups[t]| > 0 && InArena(g, groups[t])
         && forall x :: x in groups[t] ==> g[x].filter == fs[t]
  }

  lemma GroupedSameData(g: Arena, h: Arena, groups: seq<seq<nat>>, fs: seq<real>)
    requires Grouped(g, groups, fs) && SameData(g, h)
    ensures Grouped(h, groups, fs)
  {
  }

  /** Lines 24-40: for every pair `(i, j)` of `ps`, `k` iterations
      between the groups at `i` and `j`. */
  function ConnectAll(g: Arena, groups: seq<seq<nat>>, ps: seq<(nat, nat)>, k: nat, draws: seq<nat>)
    : (r: Result<(Arena, seq<nat>), Error>)
    requires forall t :: 0 <= t < |groups| ==> InArena(g, groups[t])
    requires forall t :: 0 <= t < |ps| ==> ps[t].0 < |groups| && ps[t].1 < |groups|
    ensures r.Ok? ==> SameData(g, r.value.0) && (ValidRefs(g) ==> ValidRefs(r.value.0))
    ensures r.Err? ==> r.error == DrawsExhausted
    decreases |ps|
  {
    if |ps| == 0 then Ok((g, draws))
    else match Connect(g, groups[ps[0].0], groups[ps[0].1], k, draws)
      case Err(e) => Err(e)
      case Ok(c) =>
        GroupsInArena(g, c.0, groups);
        var r := ConnectAll(c.0, groups, ps[1..], k, c.1);
        if r.Ok? then SameDataTransitive(g, c.0, r.value.0); r else r
  }

  lemma GroupsInArena(g: Arena, h: Arena, groups: seq<seq<nat>>)
    requires |h| == |g| && forall t :: 0 <= t < |groups| ==> InArena(g, groups[t])
    ensures forall t :: 0 <= t < |groups| ==> InArena(h, groups[t])
  {
  }

  /** One step of `ConnectAll`: the first pair, then the rest. */
  lemma ConnectAllStep(g: Arena, groups: seq<seq<nat>>, ps: seq<(nat, nat)>, k: nat, draws: seq<nat>)
    requires forall t :: 0 <= t < |groups| ==> InArena(g, groups[t])
    requires forall t :: 0 <= t < |ps| ==> ps[t].0 < |groups| && ps[t].1 < |groups|
    requires |ps| > 0 && ConnectAll(g, groups, ps, k, draws).Ok?
    ensures Connect(g, groups[ps[0].0], groups[ps[0].1], k, draws).Ok?
    ensures var c := Connect(g, groups[ps[0].0], groups[ps[0].1], k, draws).value;
            && |c.0| == |g|
            && ConnectAll(c.0, groups, ps[1..], k, c.1) == ConnectAll(g, groups, ps, k, draws)
  {
  }

  /** Every list of `h` is the list of `g` followed by edges to nodes of
      another filter. */
  predicate Mixes(g: Arena, h: Arena) {
    && |h| == |g|
    && forall x :: 0 <= x < |g| ==> MixedAt(g, g[x].out, h[x].out, x)
  }

  predicate MixedAt(g: Arena, before: seq<nat>, after: seq<nat>, x: nat)
    requires x < |g|
  {
    && |before| <= |after| && after[..|before|] == before
    && forall y :: y in after[|before|..] ==> y < |g| && g[y].filter != g[x].filter
  }

  lemma CrossesMixes(g: Arena, h: Arena, groups: seq<seq<nat>>, fs: seq<real>, i: nat, j: nat)
    requires Grouped(g, groups, fs) && i < j < |groups|
    requires Crosses(g, h, groups[i], groups[j])
    ensures Mixes(g, h)
  {
    assert fs[i] != fs[j];
    forall x | 0 <= x < |g| ensures MixedAt(g, g[x].out, h[x].out, x) {
      assert Extended(g[x].out, h[x].out, x, groups[i], groups[j]);
    }
  }

  lemma MixesTransitive(g: Arena, h: Arena, k: Arena)
    requires Mixes(g, h) && Mixes(h, k) && SameData(g, h)
    ensures Mixes(g, k)
  {
    forall x | 0 <= x < |g| ensures MixedAt(g, g[x].out, k[x].out, x) {
      var xs, ys, zs := g[x].out, h[x].out, k[x].out;
      assert MixedAt(h, ys, zs, x);
      assert zs[..|xs|] == zs[..|ys|][..|xs|];
      assert zs[|xs|..] == ys[|xs|..] + zs[|ys|..];
    }
  }

  lemma GroupedDisjoint(g: Arena, groups: seq<seq<nat>>, fs: seq<real>, i: nat, j: nat)
    requires Grouped(g, groups, fs) && i < j < |groups|
    ensures |groups[i]| > 0 && |groups[j]| > 0
    ensures forall x :: x in groups[i] ==> x !in groups[j]
  {
    assert fs[i] != fs[j];
  }

  /** Over distinct, non-empty groups, every pair of `ps` adds `2k`
      edges. */
  lemma {:induction false} ConnectAllCount(g: Arena, groups: seq<seq<nat>>, fs: seq<real>, ps: seq<(nat, nat)>,
                                           k: nat, draws: seq<nat>)
    requires Grouped(g, groups, fs)
    requires forall t :: 0 <= t < |ps| ==> ps[t].0 < ps[t].1 < |groups|
    requires ConnectAll(g, groups, ps, k, draws).Ok?
    ensures EdgeCount(ConnectAll(g, groups, ps, k, draws).value.0) == EdgeCount(g) + 2 * k * |ps|
    decreases |ps|
  {
    if |ps| > 0 {
      var (i, j) := ps[0];
      GroupedDisjoint(g, groups, fs, i, j);
      ConnectAllStep(g, groups, ps, k, draws);
      var c := Connect(g, groups[i], groups[j], k, draws).value;
      assert EdgeCount(c.0) == EdgeCount(g) + 2 * k by {
        ConnectEdges(g, groups[i], groups[j], k, draws);
      }
      GroupedSameData(g, c.0, groups, fs);
      ConnectAllCount(c.0, groups, fs, ps[1..], k, c.1);
      assert 2 * k + 2 * k * (|ps| - 1) == 2 * k * |ps|;
    }
  }

  /** Every edge the pairs add joins two nodes of different filters, and
      the edges already there stay in front. */
  lemma {:induction false} ConnectAllMixes(g: Arena, groups: seq<seq<nat>>, fs: seq<real>, ps: seq<(nat, nat)>,
                                           k: nat, draws: seq<nat>)
    requires Grouped(g, groups, fs)
    requires forall t :: 0 <= t < |ps| ==> ps[t].0 < ps[t].1 < |groups|
    requires ConnectAll(g, groups, ps, k, draws).Ok?
    ensures Mixes(g, ConnectAll(g, groups, ps, k, draws).value.0)
    decreases |ps|
  {
    if |ps| == 0 {
      forall x | 0 <= x < |g| ensures MixedAt(g, g[x].out, g[x].out, x) {
        assert g[x].out[|g[x].out|..] == [];
      }
    } else {
      var (i, j) := ps[0];
      GroupedDisjoint(g, groups, fs, i, j);
      ConnectAllStep(g, groups, ps, k, draws);
      var c := Connect(g, groups[i], groups[j], k, draws).value;
      ConnectEdges(g, groups[i], groups[j], k, draws);
      CrossesMixes(g, c.0, groups, fs, i, j);
      GroupedSameData(g, c.0, groups, fs);
      ConnectAllMixes(c.0, groups, fs, ps[1..], k, c.1);
      MixesTransitive(g, c.0, ConnectAll(c.0, groups, ps[1..], k, c.1).value.0);
    }
  }

  lemma Scaled(k: nat, p: nat, n: nat)
    requires 2 * p == n * (n - 1)
    ensures 2 * k * p == k * n * (n - 1)
  {
    assert 2 * k * p == k * (2 * p);
    assert k * n * (n - 1) == k * (n * (n - 1));
  }

  /** Lines 24-40 over the groups of `fs`: `Rs` edges each way for every
      pair of groups. */
  method ConnectPairs(g: Arena, groups: seq<seq<nat>>, fs: seq<real>, Rs: nat, draws: seq<nat>)
    returns (r: Result<(Arena, seq<nat>), Error>)
    requires ValidRefs(g) && Grouped(g, groups, fs)
    ensures |groups| == 0 ==> r == Ok((g, draws))
    ensures r.Err? ==> r.error == DrawsExhausted
    ensures r.Ok? ==> SameData(g, r.value.0) && ValidRefs(r.value.0)
    ensures r.Ok? ==> EdgeCount(r.value.0) == EdgeCount(g) + Rs * |groups| * (|groups| - 1)
    ensures r.Ok? ==> Mixes(g, r.value.0)
  {
    var ps := Pairs(|groups|);
    r := ConnectAll(g, groups, ps, Rs, draws);
    if r.Ok? {
      ConnectAllCount(g, groups, fs, ps, Rs, draws);
      ConnectAllMixes(g, groups, fs, ps, Rs, draws);
      PairsFromCount(0, |groups|);
      Scaled(Rs, |ps|, |groups|);
    }
  }

  /** Lines 16-40: the distinct filters swapped into a random order, then
      `Rs` edges each way between the groups of every pair of them.  Comes
      back with the order and the draws left over. */
  method Interconnect(g: Arena, filters: seq<real>, Rs: nat, draws: seq<nat>)
    returns (r: Result<(Arena, seq<real>, seq<nat>), Error>)
    requires ValidRefs(g) && NoDup(filters) && FM.Listed(filters) == FM.Filters(g)
    ensures |draws| < |filters| ==> r == Err(DrawsExhausted)
    ensures |filters| == 0 ==> r == Ok((g, [], draws))
    ensures r.Err? ==> r.error == DrawsExhausted
    ensures r.Ok? ==> multiset(r.value.1) == multiset(filters)
    ensures r.Ok? ==> SameData(g, r.value.0) && ValidRefs(r.value.0)
    ensures r.Ok? ==> EdgeCount(r.value.0) == EdgeCount(g) + Rs * |filters| * (|filters| - 1)
    ensures r.Ok? ==> Mixes(g, r.value.0)
  {
    if |draws| < |filters| {
      return Err(DrawsExhausted);
    }
    var order := SwapShuffle(filters, draws);
    SwapShufflePermutes(filters, draws);
    var groups := seq(|order|, t requires 0 <= t < |order| => Group(g, order[t]));
    forall t | 0 <= t < |groups|
      ensures |groups[t]| > 0 && InArena(g, groups[t])
      ensures forall x :: x in groups[t] ==> g[x].filter == order[t]
    {
      assert order[t] in FM.Listed(order);
      GroupShape(g, order[t]);
    }
    assert Grouped(g, groups, order);
    var c := ConnectPairs(g, groups, order, Rs, draws[|filters|..]);
    if c.Err? {
      return Err(c.error);
    }
    r := Ok((c.value.0, order, c.value.1));
  }

  // ---------------------------------------------------------------------
  // One group built (line 45, with modules/vamana.cpp:4-129)

  /** The random graph of modules/vamana.cpp over a group: nothing happens
      when `R` is at least the group's size, otherwise every member gets `R`
      members appended. */
  function GroupInit(g: Arena, sub: seq<nat>, R: nat, draws: seq<nat>): (r: Result<(Arena, seq<nat>), Error>)
    requires InArena(g, sub)
    ensures R >= |sub| ==> r == Ok((g, draws))
    ensures R < |sub| ==> r == SV.InitializeRandomGraph(g, sub, R, draws)
    ensures r.Ok? ==> SameData(g, r.value.0) && (ValidRefs(g) ==> ValidRefs(r.value.0))
    ensures r.Ok? && Uniform(g) ==> Uniform(r.value.0)
    ensures r.Ok? ==> forall j :: 0 <= j < |g| && j !in sub ==> r.value.0[j] == g[j]
    ensures r.Err? ==> r.error == DrawsExhausted
  {
    if R >= |sub| then Ok((g, draws)) else SV.InitializeRandomGraph(g, sub, R, draws)
  }

  /** The subset size the call on line 45 passes for the medoid sample. */
  const SampleSize: int := 3500

  /** Line 45: VamanaIndexingAlgorithm of modules/vamana.cpp on one
      group, with `n` its size, medoid case 1 and a sample of up to 3500.
      The group's nodes keep their positions in the whole arena, so
      searches and reverse edges follow the edges into other groups exactly
      as the pointers do.  The builder prunes with FilteredRobustPrune, so
      afterwards every member is capped, and a node capped before stays
      so; with enough draws only the pruner can make it fail. */
  method GroupBuild(g: Arena, sub: seq<nat>, L: nat, R: nat, alpha: real, draws: seq<nat>,
                    euclid: (seq<real>, seq<real>) -> real)
    returns (r: Result<(Arena, seq<nat>), Error>)
    requires ValidRefs(g) && Uniform(g) && InArena(g, sub)
    ensures r.Err? ==> r.error == DrawsExhausted || FRP.PruneFailure(r.error)
    ensures R >= |sub| && |draws| >= Vamana.SubsetSize(SampleSize, |sub|) + Needed(|sub|) && r.Err? ==>
      FRP.PruneFailure(r.error)
    ensures r.Ok? ==> SameData(g, r.value.0) && ValidRefs(r.value.0)
    ensures r.Ok? ==> forall t :: 0 <= t < |sub| ==> Vamana.Capped(r.value.0, sub[t], R)
    ensures r.Ok? ==> forall j :: 0 <= j < |g| && Vamana.Capped(g, j, R) ==> Vamana.Capped(r.value.0, j, R)
  {
    var init := GroupInit(g, sub, R, draws);
    if init.Err? {
      return Err(init.error);
    }
    var (g1, rest) := init.value;
    var n := |sub|;
    if n == 0 {
      return init;
    }
    var nodes := SV.Members(g1, sub);
    SameDataKeepsUniform(g, g1);
    var start := Vamana.StartNode(nodes, n, 1, SampleSize, rest, euclid);
    if start.Err? {
      return Err(DrawsExhausted);
    }
    var (m, rest2) := start.value;
    if |rest2| < Needed(n) {
      return Err(DrawsExhausted);
    }
    FisherYatesOrder(n, rest2);
    var order := FisherYates<nat>(Range(n), rest2);
    var visit := Gather(sub, order);
    var built := Vamana.Build(g1, sub[m], visit, L, alpha, R);
    if built.Err? {
      return Err(built.error);
    }
    var h := built.value;
    SameDataTransitive(g, g1, h);
    forall t | 0 <= t < n ensures Vamana.Capped(h, sub[t], R) {
      SV.GatherContains(sub, order, t);
      Vamana.BuildCaps(g1, sub[m], visit, L, alpha, R, sub[t]);
    }
    forall j | 0 <= j < |g| && Vamana.Capped(g, j, R) ensures Vamana.Capped(h, j, R) {
      if j in sub {
        var t :| 0 <= t < |sub| && sub[t] == j;
      } else {
        assert g1[j] == g[j];
        Vamana.BuildCaps(g1, sub[m], visit, L, alpha, R, j);
      }
    }
    r := Ok((h, rest2[Needed(n)..]));
  }

  /** Every listed node is capped. */
  predicate AllCapped(g: Arena, xs: seq<nat>, R: nat) {
    forall x :: x in xs ==> x < |g| && Vamana.Capped(g, x, R)
  }

  /** Lines 44-46: every group built in turn, in the order the filters
      are listed. */
  method BuildGroups(g: Arena, groups: seq<seq<nat>>, L: nat, R: nat, alpha: real, draws: seq<nat>,
                     euclid: (seq<real>, seq<real>) -> real)
    returns (r: Result<(Arena, seq<nat>), Error>)
    requires ValidRefs(g) && Uniform(g)
    requires forall t :: 0 <= t < |groups| ==> InArena(g, groups[t])
    ensures groups == [] ==> r == Ok((g, draws))
    ensures r.Err? ==> r.error == DrawsExhausted || FRP.PruneFailure(r.error)
    ensures r.Ok? ==> SameData(g, r.value.0) && ValidRefs(r.value.0)
    ensures r.Ok? ==> forall t :: 0 <= t < |groups| ==> AllCapped(r.value.0, groups[t], R)
  {
    var h, rest := g, draws;
    var u := 0;
    while u < |groups|
      invariant u <= |groups|
      invariant SameData(g, h) && ValidRefs(h) && Uniform(h)
      invariant u == 0 ==> h == g && rest == draws
      invariant forall t :: 0 <= t < u ==> AllCapped(h, groups[t], R)
    {
      GroupsInArena(g, h, groups);
      var built := GroupBuild(h, groups[u], L, R, alpha, rest, euclid);
      if built.Err? {
        return Err(built.error);
      }
      var h' := built.value.0;
      forall t | 0 <= t < u + 1 ensures AllCapped(h', groups[t], R) {
        if t < u {
          assert AllCapped(h, groups[t], R);
        } else {
          assert forall x :: x in groups[u] ==> exists k :: 0 <= k < |groups[u]| && groups[u][k] == x;
        }
      }
      SameDataTransitive(g, h, h');
      SameDataKeepsUniform(g, h');
      h, rest := h', built.value.1;
      u := u + 1;
    }
    r := Ok((h, rest));
  }

  // ---------------------------------------------------------------------
  // Prune and erase (lines 50-57)

  /** The remove_if of lines 53-56: the neighbours whose filter is `f`, in
      their order. */
  function KeepFilter(g: Arena, xs: seq<nat>, f: real): (r: seq<nat>)
    requires InArena(g, xs)
    ensures forall y :: y in r <==> y in xs && y < |g| && g[y].filter == f
    ensures |r| <= |xs| && InArena(g, r)
  {
    if |xs| == 0 then []
    else
      var rest := KeepFilter(g, xs[1..], f);
      assert forall y :: y in xs <==> y == xs[0] || y in xs[1..];
      if g[xs[0]].filter == f then [xs[0]] + rest else rest
  }

  /** `a` is `b` with some elements left out, the rest in their order. */
  predicate SubsequenceOf<T(==)>(a: seq<T>, b: seq<T>)
    decreases |b|
  {
    if |a| == 0 then true
    else if |b| == 0 then false
    else if a[0] == b[0] then SubsequenceOf(a[1..], b[1..])
    else SubsequenceOf(a, b[1..])
  }

  /** The erase keeps the surviving neighbours in their relative order. */
  lemma {:induction false} KeepFilterOrder(g: Arena, xs: seq<nat>, f: real)
    requires InArena(g, xs)
    ensures SubsequenceOf(KeepFilter(g, xs, f), xs)
    decreases |xs|
  {
    if |xs| > 0 {
      KeepFilterOrder(g, xs[1..], f);
      var rest := KeepFilter(g, xs[1..], f);
      if g[xs[0]].filter == f {
        assert ([xs[0]] + rest)[1..] == rest;
      } else if |rest| > 0 {
        assert rest[0] in rest;
      }
    }
  }

  /** Erasing twice erases nothing more. */
  lemma {:induction false} KeepFilterIdempotent(g: Arena, xs: seq<nat>, f: real)
    requires InArena(g, xs)
    ensures KeepFilter(g, KeepFilter(g, xs, f), f) == KeepFilter(g, xs, f)
    decreases |xs|
  {
    if |xs| > 0 {
      KeepFilterIdempotent(g, xs[1..], f);
      var rest := KeepFilter(g, xs[1..], f);
      if g[xs[0]].filter == f {
        assert ([xs[0]] + rest)[1..] == rest;
      }
    }
  }

  /** The node's list once pruned and erased: only neighbours of its own
      filter, not itself, and for a positive bound at most `Rs`. */
  predicate Settled(g: Arena, x: nat, Rs: nat)
    requires x < |g|
  {
    && (forall y :: y in g[x].out ==> y < |g| && g[y].filter == g[x].filter)
    && x !in g[x].out
    && (Rs >= 1 ==> |g[x].out| <= Rs)
  }

  /** Lines 51-56 for node `p`: FilteredRobustPrune with its own
      out-neighbours, then the neighbours of another filter erased. */
  method PruneAndErase(g: Arena, p: nat, alpha: real, Rs: nat) returns (r: Result<Arena, Error>)
    requires ValidRefs(g) && Uniform(g) && p < |g|
    ensures r.Ok? ==> SameData(g, r.value) && ValidRefs(r.value)
    ensures r.Ok? ==> forall j :: 0 <= j < |g| && j != p ==> r.value[j] == g[j]
    ensures r.Ok? ==> Settled(r.value, p, Rs)
  {
    var pruned := SV.PruneNode(g, p, alpha, Rs);
    if pruned.Err? {
      return pruned;
    }
    var h := pruned.value;
    var kept := KeepFilter(h, h[p].out, h[p].filter);
    assert forall k :: 0 <= k < |kept| ==> kept[k] in kept;
    var h' := SetOut(h, p, kept);
    SameDataTransitive(g, h, h');
    r := Ok(h');
  }

  /** Lines 50-57: every node in turn. */
  method PruneAndEraseAll(g: Arena, alpha: real, Rs: nat) returns (r: Result<Arena, Error>)
    requires ValidRefs(g) && Uniform(g)
    ensures |g| == 0 ==> r == Ok(g)
    ensures r.Ok? ==> SameData(g, r.value) && ValidRefs(r.value)
    ensures r.Ok? ==> forall x :: 0 <= x < |g| ==> Settled(r.value, x, Rs)
  {
    var h := g;
    var j := 0;
    while j < |g|
      invariant j <= |g|
      invariant SameData(g, h) && ValidRefs(h) && Uniform(h)
      invariant forall x :: 0 <= x < j ==> Settled(h, x, Rs)
    {
      var done := PruneAndErase(h, j, alpha, Rs);
      if done.Err? {
        return done;
      }
      forall x | 0 <= x < j + 1 ensures Settled(done.value, x, Rs) {
        if x < j {
          assert Settled(h, x, Rs);
          assert done.value[x] == h[x];
        }
      }
      SameDataTransitive(g, h, done.value);
      SameDataKeepsUniform(g, done.value);
      h := done.value;
      j := j + 1;
    }
    r := Ok(h);
  }

  // ---------------------------------------------------------------------
  // The whole builder (lines 3-60)

  /** Without nodes there is no filter to list. */
  lemma NoFilters(g: Arena, filters: seq<real>)
    requires FM.Listed(filters) == FM.Filters(g)
    ensures |g| == 0 ==> |filters| == 0
  {
    if |filters| > 0 {
      assert filters[0] in FM.Listed(filters);
    }
  }

  /** StitchedVamana_WithImprovement.  `filters` lists every distinct
      filter once, in the iteration order of the source's hash set; the
      draws stand for the successive values of `rand()`. */
  method StitchedImproved(g: Arena, alpha: real, L: nat, R: nat, Rs: nat, filters: seq<real>, draws: seq<nat>,
                          euclid: (seq<real>, seq<real>) -> real)
    returns (r: Result<Arena, Error>)
    requires ValidRefs(g) && Uniform(g)
    requires NoDup(filters) && FM.Listed(filters) == FM.Filters(g)
    ensures |g| == 0 ==> r == Ok(g)
    ensures |draws| < |filters| ==> r == Err(DrawsExhausted)
    ensures r.Ok? ==> SameData(g, r.value) && ValidRefs(r.value)
    ensures r.Ok? ==> forall x :: 0 <= x < |g| ==> Settled(r.value, x, Rs)
  {
    NoFilters(g, filters);
    var ic := Interconnect(g, filters, Rs, draws);
    if ic.Err? {
      return Err(ic.error);
    }
    var (h, _, rest) := ic.value;
    SameDataKeepsUniform(g, h);
    var groups := seq(|filters|, t requires 0 <= t < |filters| => Group(g, filters[t]));
    forall t | 0 <= t < |groups| ensures InArena(h, groups[t]) {
      GroupShape(g, filters[t]);
    }
    var built := BuildGroups(h, groups, L, R, alpha, rest, euclid);
    if built.Err? {
      return Err(built.error);
    }
    var k := built.value.0;
    SameDataTransitive(g, h, k);
    SameDataKeepsUniform(g, k);
    r := PruneAndEraseAll(k, alpha, Rs);
    if r.Ok? {
      SameDataTransitive(g, k, r.value);
    }
  }
}
