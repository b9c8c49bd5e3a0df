/** The beam search of modules/greedysearch.cpp.

    The search list `L` holds entries `(d, p)`: arena position `p` with its
    squared distance `d` to the query, which is the source's distance cache
    kept beside the entry.  `V` is the visited set. */
module GreedySearch {
  import opened Wrappers
  import opened Graph
  import opened Distance
  import opened Selection

  type Entry = (real, nat)

  /** Every node can be measured against the query: `euclidean` reads the
      query at each of the node's coordinate positions. */
  predicate Fits(g: Arena, q: seq<real>) {
    forall i :: 0 <= i < |g| ==> |g[i].coords| <= |q|
  }

  function Dist(g: Arena, q: seq<real>, i: nat): real
    requires Fits(g, q) && i < |g|
  {
    SqDist(g[i].coords, q)
  }

  /** Every entry names a node and carries that node's distance. */
  predicate Cached(g: Arena, q: seq<real>, L: seq<Entry>)
    requires Fits(g, q)
  {
    forall e :: e in L ==> e.1 < |g| && e.0 == Dist(g, q, e.1)
  }

  /** Some entry of `L` has not been visited: the loop condition. */
  predicate HasUnvisited(L: seq<Entry>, V: set<nat>) {
    exists k :: 0 <= k < |L| && L[k].1 !in V
  }

  /** The position in `L` of the first unvisited entry with the smallest
      distance; ties go to the earlier entry because the scan replaces the
      candidate only on a strictly smaller distance. */
  function Closest(L: seq<Entry>, V: set<nat>): (r: Option<nat>)
    ensures r.None? <==> !HasUnvisited(L, V)
    ensures r.Some? ==> r.value < |L| && L[r.value].1 !in V
    ensures r.Some? ==> forall k :: 0 <= k < |L| && L[k].1 !in V ==> L[r.value].0 <= L[k].0
    ensures r.Some? ==> forall k :: 0 <= k < r.value && L[k].1 !in V ==> L[r.value].0 < L[k].0
  {
    if |L| == 0 then None
    else
      var last := |L| - 1;
      var c := Closest(L[..last], V);
      assert forall k :: 0 <= k < last ==> L[..last][k] == L[k];
      if L[last].1 in V then c
      else if c.None? || L[last].0 < L[c.value].0 then Some(last)
      else c
  }

  /** The entries for the out-neighbours `ns` of the node being visited that
      are not in `W`, in order. */
  function Expand(g: Arena, q: seq<real>, ns: seq<nat>, W: set<nat>): (r: seq<Entry>)
    requires Fits(g, q) && InArena(g, ns)
    ensures Cached(g, q, r)
    ensures forall k :: 0 <= k < |r| ==> r[k].1 in ns && r[k].1 !in W
  {
    if |ns| == 0 then []
    else
      var rest := Expand(g, q, ns[1..], W);
      assert forall n :: n in ns[1..] ==> n in ns;
      if ns[0] in W then rest
      else
        var r := [(Dist(g, q, ns[0]), ns[0])] + rest;
        assert forall k :: 0 < k < |r| ==> r[k] == rest[k - 1];
        r
  }

  /** Every out-neighbour outside `W` gets an entry: the position of the
      entry for `n`. */
  lemma {:induction false} ExpandComplete(g: Arena, q: seq<real>, ns: seq<nat>, W: set<nat>, n: nat) returns (k: nat)
    requires Fits(g, q) && InArena(g, ns)
    requires n in ns && n !in W
    ensures k < |Expand(g, q, ns, W)| && Expand(g, q, ns, W)[k] == (Dist(g, q, n), n)
    decreases |ns|
  {
    var r := Expand(g, q, ns, W);
    if n == ns[0] {
      k := 0;
    } else {
      assert n in ns[1..];
      var rest := Expand(g, q, ns[1..], W);
      var j := ExpandComplete(g, q, ns[1..], W, n);
      if ns[0] in W {
        k := j;
      } else {
        assert r[j + 1] == rest[j];
        k := j + 1;
      }
    }
  }

  /** `x` is the start node or an out-neighbour of a visited node. */
  predicate Reached(g: Arena, s: nat, V: set<nat>, x: nat) {
    x == s || exists v :: v in V && v < |g| && x in g[v].out
  }

  /** One iteration of the while loop: visit the closest unvisited entry,
      append its out-neighbours that are still unvisited, and trim the list
      back to `listSize` entries when it grew past it. */
  function Step(g: Arena, q: seq<real>, L: seq<Entry>, V: set<nat>, listSize: nat): (r: (seq<Entry>, set<nat>))
    requires ValidRefs(g) && Fits(g, q) && Cached(g, q, L) && HasUnvisited(L, V)
    ensures var p := L[Closest(L, V).value].1;
      && p !in V && r.1 == V + {p}
      && (forall e :: e in r.0 ==> e in L || (e.1 in g[p].out && e.1 !in r.1))
    ensures Cached(g, q, r.0)
    ensures |r.0| <= listSize
  {
    var p := L[Closest(L, V).value].1;
    var W := V + {p};
    var grown := L + Expand(g, q, g[p].out, W);
    var kept := Truncate(grown, listSize);
    TruncateKeepsNearest(grown, listSize);
    (kept, W)
  }

  lemma ReachedGrows(g: Arena, s: nat, V: set<nat>, W: set<nat>, x: nat)
    requires V <= W && Reached(g, s, V, x)
    ensures Reached(g, s, W, x)
  {
    if x != s {
      var v :| v in V && v < |g| && x in g[v].out;
      assert v in W;
    }
  }

  /** What the search keeps true: every entry and every visited node was
      reached from the start. */
  predicate Traced(g: Arena, s: nat, L: seq<Entry>, V: set<nat>) {
    && (forall e :: e in L ==> Reached(g, s, V, e.1))
    && (forall v :: v in V ==> Reached(g, s, V, v))
  }

  lemma StepTraced(g: Arena, q: seq<real>, s: nat, L: seq<Entry>, V: set<nat>, listSize: nat)
    requires ValidRefs(g) && Fits(g, q) && Cached(g, q, L) && HasUnvisited(L, V)
    requires Traced(g, s, L, V)
    ensures Traced(g, s, Step(g, q, L, V, listSize).0, Step(g, q, L, V, listSize).1)
  {
    var j := Closest(L, V).value;
    var p := L[j].1;
    var (L2, V2) := Step(g, q, L, V, listSize);
    assert L[j] in L;
    assert p < |g|;
    forall e | e in L2 ensures Reached(g, s, V2, e.1) {
      if e in L {
        ReachedGrows(g, s, V, V2, e.1);
      } else {
        assert p in V2 && e.1 in g[p].out;
      }
    }
    forall v | v in V2 ensures Reached(g, s, V2, v) {
      if v in V {
        ReachedGrows(g, s, V, V2, v);
      } else {
        assert v == p;
        ReachedGrows(g, s, V, V2, p);
      }
    }
  }

  /** The arena positions, the universe the visited set grows in. */
  function Positions(g: Arena): set<nat> {
    set i | i in Range(|g|)
  }

  /** The while loop of `GreedySearch`, run until every entry of the list
      has been visited. */
  function Explore(g: Arena, q: seq<real>, L: seq<Entry>, V: set<nat>, listSize: nat): (r: (seq<Entry>, set<nat>))
    requires ValidRefs(g) && Fits(g, q) && Cached(g, q, L)
    ensures V <= r.1
    ensures !HasUnvisited(r.0, r.1)
    ensures Cached(g, q, r.0)
    ensures r == (L, V) || |r.0| <= listSize
    ensures forall v :: v in r.1 && v !in V ==> v < |g|
    ensures HasUnvisited(L, V) ==> L[Closest(L, V).value].1 in r.1
    decreases Positions(g) - V
  {
    match Closest(L, V)
    case None => (L, V)
    case Some(j) =>
      var (L2, V2) := Step(g, q, L, V, listSize);
      assert L[j] in L && Range(|g|)[L[j].1] == L[j].1;
      Explore(g, q, L2, V2, listSize)
  }

  lemma {:induction false} ExploreTraced(g: Arena, q: seq<real>, s: nat, L: seq<Entry>, V: set<nat>, listSize: nat)
    requires ValidRefs(g) && Fits(g, q) && Cached(g, q, L)
    requires Traced(g, s, L, V)
    ensures Traced(g, s, Explore(g, q, L, V, listSize).0, Explore(g, q, L, V, listSize).1)
    decreases Positions(g) - V
  {
    if HasUnvisited(L, V) {
      var j := Closest(L, V).value;
      var (L2, V2) := Step(g, q, L, V, listSize);
      StepTraced(g, q, s, L, V, listSize);
      assert L[j] in L && Range(|g|)[L[j].1] == L[j].1;
      ExploreTraced(g, q, s, L2, V2, listSize);
    }
  }

  /** The list the search ends with, and its visited set, from start `s`:
      every entry is visited, and at most `listSize` remain unless the
      first visit was never made. */
  function Run(g: Arena, s: nat, q: seq<real>, listSize: nat): (r: (seq<Entry>, set<nat>))
    requires ValidRefs(g) && Fits(g, q) && s < |g|
    ensures !HasUnvisited(r.0, r.1)
    ensures Cached(g, q, r.0)
    ensures |r.0| <= listSize || r.0 == [(Dist(g, q, s), s)]
    ensures forall v :: v in r.1 ==> v < |g|
    ensures s in r.1
  {
    var L := [(Dist(g, q, s), s)];
    assert L[0].1 == s && s !in {};
    Explore(g, q, L, {}, listSize)
  }

  /** Whatever the list size, the search visits the start node, and every
      entry it ends with was reached from the start through visited nodes. */
  lemma RunTraced(g: Arena, s: nat, q: seq<real>, listSize: nat)
    requires ValidRefs(g) && Fits(g, q) && s < |g|
    ensures Traced(g, s, Run(g, s, q, listSize).0, Run(g, s, q, listSize).1)
  {
    ExploreTraced(g, q, s, [(Dist(g, q, s), s)], {}, listSize);
  }

  /** The answer both searches return from their final list `L`: the
      positions of its `k` entries nearest to the query (all of them when
      the list is no longer), each as often as the list has it, and none
      farther than an entry left out. */
  function Answer(g: Arena, q: seq<real>, L: seq<Entry>, k: nat): (r: seq<nat>)
    requires Fits(g, q) && Cached(g, q, L)
    ensures |r| == (if |L| <= k then |L| else k)
    ensures forall i :: 0 <= i < |r| ==> r[i] < |g| && (Dist(g, q, r[i]), r[i]) in L
    ensures forall i, e :: 0 <= i < |r| && e in L && e.1 !in r ==> Dist(g, q, r[i]) <= e.0
  {
    var kept := Truncate(L, k);
    TruncateKeepsNearest(L, k);
    var r := Values<nat>(kept);
    forall i | 0 <= i < |r| ensures r[i] < |g| && kept[i] == (Dist(g, q, r[i]), r[i]) && kept[i] in L {
      assert kept[i] in kept;
    }
    forall i, e | 0 <= i < |r| && e in L && e.1 !in r ensures Dist(g, q, r[i]) <= e.0 {
      assert kept[i] in kept;
      assert e !in kept;
    }
    r
  }

  /** The answer is drawn from the list, each position at most as often
      as the list has it. */
  lemma AnswerSub(g: Arena, q: seq<real>, L: seq<Entry>, k: nat)
    requires Fits(g, q) && Cached(g, q, L)
    ensures multiset(Answer(g, q, L, k)) <= multiset(Values(L))
  {
    TruncateValuesSub<nat>(L, k);
  }

  /** `GreedySearch(s, x_q, k, list_size)`: the `k` entries of the final
      list nearest to the query (all of them when the list is no longer),
      as arena positions, each as often as the list has it; `None` is the
      null start pointer. */
  function GreedySearch(g: Arena, s: Option<nat>, q: seq<real>, k: nat, listSize: nat): (r: seq<nat>)
    requires ValidRefs(g) && Fits(g, q) && (s.Some? ==> s.value < |g|)
    ensures s.None? ==> r == []
    ensures |r| <= k
    ensures s.Some? ==> var (L, V) := Run(g, s.value, q, listSize);
      && |r| == (if |L| <= k then |L| else k)
      && (forall i :: 0 <= i < |r| ==> r[i] in V)
      && (forall i, e :: 0 <= i < |r| && e in L && e.1 !in r ==> Dist(g, q, r[i]) <= e.0)
  {
    match s
    case None => []
    case Some(start) =>
      var (L, V) := Run(g, start, q, listSize);
      var kept := Truncate(L, k);
      TruncateKeepsNearest(L, k);
      var r := Values(kept);
      forall i | 0 <= i < |r| ensures r[i] in V && kept[i] in L {
        assert kept[i] in kept;
      }
      forall i, e | 0 <= i < |r| && e in L && e.1 !in r ensures Dist(g, q, r[i]) <= e.0 {
        assert kept[i] in kept;
      }
      r
  }

  /** From a start node the search returns the shared answer over its
      final list; in particular it names each node at most as often as
      that list does. */
  lemma GreedySearchSub(g: Arena, s: nat, q: seq<real>, k: nat, listSize: nat)
    requires ValidRefs(g) && Fits(g, q) && s < |g|
    ensures GreedySearch(g, Some(s), q, k, listSize) == Answer(g, q, Run(g, s, q, listSize).0, k)
    ensures multiset(GreedySearch(g, Some(s), q, k, listSize)) <= multiset(Values(Run(g, s, q, listSize).0))
  {
    AnswerSub(g, q, Run(g, s, q, listSize).0, k);
  }

  /** Keeping one entry keeps a nearest one. */
  lemma TruncateOne(s: seq<Entry>)
    requires |s| >= 1
    ensures |Truncate(s, 1)| == 1 && Truncate(s, 1)[0] in s
    ensures forall e :: e in s ==> Truncate(s, 1)[0].0 <= e.0
  {
    var kept := Truncate(s, 1);
    TruncateKeepsNearest(s, 1);
    forall e | e in s ensures kept[0].0 <= e.0 {
      assert kept[0] in kept;
      if e != kept[0] {
        assert kept == [kept[0]];
      }
    }
  }

  /** With k = 1 the answer is a single entry of the final list that is
      nearest to the query among its entries. */
  lemma GreedySearchOne(g: Arena, s: nat, q: seq<real>, listSize: nat)
    requires ValidRefs(g) && Fits(g, q) && s < |g|
    requires |Run(g, s, q, listSize).0| >= 1
    ensures var L := Run(g, s, q, listSize).0;
      && |Truncate(L, 1)| == 1
      && var e := Truncate(L, 1)[0];
      && e in L && GreedySearch(g, Some(s), q, 1, listSize) == [e.1]
      && forall x :: x in L ==> e.0 <= x.0
  {
    var L := Run(g, s, q, listSize).0;
    TruncateOne(L);
    var kept := Truncate(L, 1);
    assert kept == [kept[0]];
    assert Values(kept) == [kept[0].1] + Values([]);
  }

  /** The arena of tests/greedysearch_test.cpp: the origin with
      out-neighbours (1,1) and (2,2). */
  function ExampleArena(): Arena {
    [Node(0, 0.0, {}, [0.0, 0.0], [1, 2]),
     Node(1, 0.0, {}, [1.0, 1.0], []),
     Node(2, 0.0, {}, [2.0, 2.0], [])]
  }

  lemma ExampleDistances(g: Arena, q: seq<real>)
    requires g == ExampleArena() && q == [0.5, 0.5]
    ensures Fits(g, q)
    ensures Dist(g, q, 0) == 0.5
    ensures Dist(g, q, 1) == 0.5
    ensures Dist(g, q, 2) == 4.5
  {
    assert SqDist([0.0], [0.5]) == 0.25;
    assert SqDist([1.0], [0.5]) == 0.25;
    assert SqDist([2.0], [0.5]) == 2.25;
  }

  lemma ExampleClosest0()
    ensures Closest([(0.5, 0)], {}) == Some(0)
  {
    assert [(0.5, 0)][..0] == [];
  }

  lemma ExampleExpand(g: Arena, q: seq<real>)
    requires g == ExampleArena() && q == [0.5, 0.5]
    ensures Fits(g, q) && InArena(g, [1, 2])
    ensures Expand(g, q, [1, 2], {0}) == [(0.5, 1), (4.5, 2)]
  {
    ExampleDistances(g, q);
    assert [1, 2][1..] == [2] && [2][1..] == [];
    assert Expand(g, q, [], {0}) == [];
    assert Expand(g, q, [2], {0}) == [(4.5, 2)];
  }

  lemma ExampleValid(g: Arena, q: seq<real>)
    requires g == ExampleArena() && q == [0.5, 0.5]
    ensures ValidRefs(g)
  {
  }

  lemma ExampleStep0(g: Arena, q: seq<real>)
    requires g == ExampleArena() && q == [0.5, 0.5]
    ensures ValidRefs(g) && Fits(g, q)
    ensures Cached(g, q, [(0.5, 0)]) && HasUnvisited([(0.5, 0)], {})
    ensures Step(g, q, [(0.5, 0)], {}, 3) == ([(0.5, 0), (0.5, 1), (4.5, 2)], {0})
  {
    ExampleValid(g, q);
    ExampleDistances(g, q);
    ExampleClosest0();
    ExampleExpand(g, q);
    assert [(0.5, 0)][0].1 == 0;
    assert g[0].out == [1, 2];
    var W: set<nat> := {} + {0};
    assert W == {0};
    var grown := [(0.5, 0)] + Expand(g, q, g[0].out, W);
    assert grown == [(0.5, 0), (0.5, 1), (4.5, 2)];
    assert Truncate(grown, 3) == grown;
  }

  lemma ExampleStep1(g: Arena, q: seq<real>)
    requires g == ExampleArena() && q == [0.5, 0.5]
    ensures ValidRefs(g) && Fits(g, q)
    ensures Cached(g, q, [(0.5, 0), (0.5, 1), (4.5, 2)])
    ensures HasUnvisited([(0.5, 0), (0.5, 1), (4.5, 2)], {0})
    ensures Step(g, q, [(0.5, 0), (0.5, 1), (4.5, 2)], {0}, 3)
         == ([(0.5, 0), (0.5, 1), (4.5, 2)], {0, 1})
  {
    ExampleValid(g, q);
    ExampleDistances(g, q);
    var L1 := [(0.5, 0), (0.5, 1), (4.5, 2)];
    assert L1[1].1 !in {0};
    assert L1[..2] == [(0.5, 0), (0.5, 1)] && L1[..2][..1] == [(0.5, 0)] && [(0.5, 0)][..0] == [];
    assert Closest(L1, {0}) == Some(1);
    var W: set<nat> := {0} + {1};
    assert W == {0, 1};
    assert g[1].out == [];
    assert Expand(g, q, [], W) == [];
    assert L1 + [] == L1;
  }

  lemma ExampleStep2(g: Arena, q: seq<real>)
    requires g == ExampleArena() && q == [0.5, 0.5]
    ensures ValidRefs(g) && Fits(g, q)
    ensures Cached(g, q, [(0.5, 0), (0.5, 1), (4.5, 2)])
    ensures HasUnvisited([(0.5, 0), (0.5, 1), (4.5, 2)], {0, 1})
    ensures Step(g, q, [(0.5, 0), (0.5, 1), (4.5, 2)], {0, 1}, 3)
         == ([(0.5, 0), (0.5, 1), (4.5, 2)], {0, 1, 2})
  {
    ExampleValid(g, q);
    ExampleDistances(g, q);
    var L1 := [(0.5, 0), (0.5, 1), (4.5, 2)];
    assert L1[2].1 !in {0, 1};
    assert L1[..2] == [(0.5, 0), (0.5, 1)] && L1[..2][..1] == [(0.5, 0)] && [(0.5, 0)][..0] == [];
    assert Closest(L1, {0, 1}) == Some(2);
    var W: set<nat> := {0, 1} + {2};
    assert W == {0, 1, 2};
    assert g[2].out == [];
    assert Expand(g, q, [], W) == [];
    assert L1 + [] == L1;
  }

  lemma ExampleExplore2(g: Arena, q: seq<real>)
    requires g == ExampleArena() && q == [0.5, 0.5]
    ensures ValidRefs(g) && Fits(g, q)
    ensures Cached(g, q, [(0.5, 0), (0.5, 1), (4.5, 2)])
    ensures Explore(g, q, [(0.5, 0), (0.5, 1), (4.5, 2)], {0, 1}, 3)
         == ([(0.5, 0), (0.5, 1), (4.5, 2)], {0, 1, 2})
  {
    ExampleStep2(g, q);
    var L1 := [(0.5, 0), (0.5, 1), (4.5, 2)];
    assert Closest(L1, {0, 1}).Some?;
    assert Closest(L1, {0, 1, 2}) == None;
  }

  lemma ExampleExplore1(g: Arena, q: seq<real>)
    requires g == ExampleArena() && q == [0.5, 0.5]
    ensures ValidRefs(g) && Fits(g, q)
    ensures Cached(g, q, [(0.5, 0), (0.5, 1), (4.5, 2)])
    ensures Explore(g, q, [(0.5, 0), (0.5, 1), (4.5, 2)], {0}, 3)
         == ([(0.5, 0), (0.5, 1), (4.5, 2)], {0, 1, 2})
  {
    ExampleStep1(g, q);
    ExampleExplore2(g, q);
    var L1 := [(0.5, 0), (0.5, 1), (4.5, 2)];
    assert Closest(L1, {0}).Some?;
  }

  lemma ExampleRun(g: Arena, q: seq<real>)
    requires g == ExampleArena() && q == [0.5, 0.5]
    ensures ValidRefs(g) && Fits(g, q)
    ensures Run(g, 0, q, 3) == ([(0.5, 0), (0.5, 1), (4.5, 2)], {0, 1, 2})
  {
    ExampleStep0(g, q);
    ExampleExplore1(g, q);
    ExampleDistances(g, q);
    assert Closest([(0.5, 0)], {}).Some?;
  }

  /** The example of tests/greedysearch_test.cpp: query (0.5,0.5), k = 1,
      list size 3.  The start node and (1,1) are equally near the query, so
      the single answer is one of them; which one depends on the tie order,
      which `nth_element` leaves open. */
  lemma GreedySearchExample(g: Arena, q: seq<real>)
    requires g == ExampleArena() && q == [0.5, 0.5]
    ensures ValidRefs(g) && Fits(g, q)
    ensures var r := GreedySearch(g, Some(0), q, 1, 3);
      r == [0] || r == [1]
  {
    ExampleRun(g, q);
    var L := Run(g, 0, q, 3).0;
    GreedySearchOne(g, 0, q, 3);
    var e := Truncate(L, 1)[0];
    assert e.0 <= L[0].0;
  }
}
