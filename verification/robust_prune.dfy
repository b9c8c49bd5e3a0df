/** The neighbour pruning of modules/robustprune.cpp.

    The candidates and the node's current out-neighbours form the pool.
    Each pool entry is paired with its squared distance from the node (the
    source stores the distance in the candidate's `distance` field), the
    pool is sorted by it, and then the nearest remaining entry is kept
    repeatedly, every entry it dominates being dropped.  This variant
    scales the distance of the kept entry from the node, not its distance
    from the entry being examined. */
module RobustPrune {
  import opened Graph
  import opened Distance
  import opened Selection

  type Entry = (real, nat)

  /** The squared distance between the nodes at positions `a` and `b`. */
  function NodeDist(g: Arena, a: nat, b: nat): real
    requires Uniform(g) && a < |g| && b < |g|
  {
    SqDist(g[a].coords, g[b].coords)
  }

  /** The pool entries with their squared distance from node `p`. */
  function Keyed(g: Arena, p: nat, xs: seq<nat>): (r: seq<Entry>)
    requires Uniform(g) && p < |g| && InArena(g, xs)
    ensures Values(r) == xs
    ensures forall e :: e in r ==> e.1 < |g| && e.0 == NodeDist(g, p, e.1)
  {
    if |xs| == 0 then []
    else
      var e := (NodeDist(g, p, xs[0]), xs[0]);
      var rest := Keyed(g, p, xs[1..]);
      assert Values([e] + rest) == [e.1] + Values(rest);
      [e] + rest
  }

  /** No key of `s` is below `lo`. */
  predicate AtLeast(lo: real, s: seq<Entry>) {
    forall i :: 0 <= i < |s| ==> lo <= s[i].0
  }

  /** No entry of `s` is dominated through `dom` by an entry at key `c`. */
  predicate Spared(dom: (real, real) -> bool, c: real, s: seq<Entry>) {
    forall i :: 0 <= i < |s| ==> !dom(c, s[i].0)
  }

  lemma SubMembers(a: seq<Entry>, b: seq<Entry>)
    requires multiset(a) <= multiset(b)
    ensures forall i :: 0 <= i < |a| ==> a[i] in b
  {
    forall i | 0 <= i < |a| ensures a[i] in b {
      var x := a[i];
      assert x in multiset(a);
      assert multiset(a)[x] <= multiset(b)[x];
      assert x in multiset(b);
    }
  }

  lemma AtLeastSub(lo: real, a: seq<Entry>, b: seq<Entry>)
    requires multiset(a) <= multiset(b) && AtLeast(lo, b)
    ensures AtLeast(lo, a)
  {
    SubMembers(a, b);
  }

  lemma SparedSub(dom: (real, real) -> bool, c: real, a: seq<Entry>, b: seq<Entry>)
    requires multiset(a) <= multiset(b) && Spared(dom, c, b)
    ensures Spared(dom, c, a)
  {
    SubMembers(a, b);
  }

  /** The inner while loop: drop every entry `x` of `s` with
      `dom(c, x.0)`, where `c` is the kept entry's distance. */
  function Prune(dom: (real, real) -> bool, c: real, s: seq<Entry>): (r: seq<Entry>)
    ensures |r| <= |s|
    ensures Spared(dom, c, r)
  {
    if |s| == 0 then []
    else
      var rest := Prune(dom, c, s[1..]);
      if dom(c, s[0].0) then rest
      else
        var r := [s[0]] + rest;
        assert forall i :: 0 < i < |r| ==> r[i] == rest[i - 1];
        r
  }

  /** Putting the same entry in front of both sides keeps a sub-multiset. */
  lemma SubCons(h: Entry, a: seq<Entry>, b: seq<Entry>)
    requires multiset(a) <= multiset(b)
    ensures multiset([h] + a) <= multiset([h] + b)
  {
    assert multiset([h] + a) == multiset{h} + multiset(a);
    assert multiset([h] + b) == multiset{h} + multiset(b);
  }

  /** The front of a list followed by the rest is the whole list. */
  lemma SubTail(s: seq<Entry>, a: seq<Entry>)
    requires |s| > 0 && multiset(a) <= multiset(s[1..])
    ensures multiset(a) <= multiset(s) && multiset([s[0]] + a) <= multiset(s)
  {
    assert s == [s[0]] + s[1..];
    SubCons(s[0], a, s[1..]);
  }

  lemma SubTrans(a: multiset<Entry>, b: multiset<Entry>, c: multiset<Entry>)
    requires a <= b && b <= c
    ensures a <= c
  {
    forall x ensures a[x] <= c[x] {
      assert a[x] <= b[x];
    }
  }

  /** Pruning only drops entries. */
  lemma {:induction false} PruneSub(dom: (real, real) -> bool, c: real, s: seq<Entry>)
    ensures multiset(Prune(dom, c, s)) <= multiset(s)
    decreases |s|
  {
    if |s| > 0 {
      PruneSub(dom, c, s[1..]);
      SubTail(s, Prune(dom, c, s[1..]));
    }
  }

  /** Pruning drops nothing that `dom` spares. */
  lemma {:induction false} PruneKeeps(dom: (real, real) -> bool, c: real, s: seq<Entry>)
    ensures forall k :: 0 <= k < |s| && !dom(c, s[k].0) ==> s[k] in Prune(dom, c, s)
    decreases |s|
  {
    if |s| > 0 {
      PruneKeeps(dom, c, s[1..]);
      assert forall k :: 0 < k < |s| ==> s[k] == s[1..][k - 1];
    }
  }

  /** Putting an entry in front of a sorted list whose keys it does not
      exceed keeps the list sorted. */
  lemma ConsSorted(h: Entry, t: seq<Entry>)
    requires SortedByKey(t) && AtLeast(h.0, t)
    ensures SortedByKey([h] + t)
  {
    var r := [h] + t;
    forall i, j | 0 <= i < j < |r| ensures r[i].0 <= r[j].0 {
      assert r[j] == t[j - 1];
      if i > 0 {
        assert r[i] == t[i - 1];
      }
    }
  }

  /** The entries after the front of a sorted list are sorted and no smaller
      than it. */
  lemma SortedTail(s: seq<Entry>)
    requires |s| > 0 && SortedByKey(s)
    ensures SortedByKey(s[1..]) && AtLeast(s[0].0, s[1..])
  {
    assert forall k :: 0 <= k < |s| - 1 ==> s[1..][k] == s[k + 1];
  }

  /** Pruning keeps the order of what it keeps. */
  lemma {:induction false} PruneSorted(dom: (real, real) -> bool, c: real, s: seq<Entry>)
    requires SortedByKey(s)
    ensures SortedByKey(Prune(dom, c, s))
    decreases |s|
  {
    if |s| > 0 {
      var rest := Prune(dom, c, s[1..]);
      SortedTail(s);
      PruneSorted(dom, c, s[1..]);
      PruneSub(dom, c, s[1..]);
      AtLeastSub(s[0].0, rest, s[1..]);
      if !dom(c, s[0].0) {
        ConsSorted(s[0], rest);
      }
    }
  }

  /** No kept entry dominates, through `dom`, one kept after it. */
  predicate Diverse(dom: (real, real) -> bool, r: seq<Entry>) {
    forall i, j :: 0 <= i < j < |r| ==> !dom(r[i].0, r[j].0)
  }

  /** Putting an entry in front of a diverse list that it spares keeps the
      list diverse. */
  lemma ConsDiverse(dom: (real, real) -> bool, h: Entry, t: seq<Entry>)
    requires Diverse(dom, t) && Spared(dom, h.0, t)
    ensures Diverse(dom, [h] + t)
  {
    var r := [h] + t;
    forall i, j | 0 <= i < j < |r| ensures !dom(r[i].0, r[j].0) {
      assert r[j] == t[j - 1];
      if i > 0 {
        assert r[i] == t[i - 1];
      }
    }
  }

  /** The outer while loop: keep the front entry while there is room, drop
      what it dominates, repeat.  The pool arrives sorted by distance (see
      `SelectSorted`), so the front entry is the nearest remaining one. */
  function Select(dom: (real, real) -> bool, room: nat, s: seq<Entry>): (r: seq<Entry>)
    ensures |r| <= room
    ensures |s| > 0 && room > 0 ==> |r| > 0 && r[0] == s[0]
    decreases |s|
  {
    if |s| == 0 || room == 0 then []
    else [s[0]] + Select(dom, room - 1, Prune(dom, s[0].0, s[1..]))
  }

  /** One round of the outer loop. */
  lemma SelectUnfold(dom: (real, real) -> bool, room: nat, s: seq<Entry>)
    requires |s| > 0 && room > 0
    ensures Select(dom, room, s) == [s[0]] + Select(dom, room - 1, Prune(dom, s[0].0, s[1..]))
  {
  }

  /** Selection only drops entries. */
  lemma SubChain(s: seq<Entry>, rest: seq<Entry>, tail: seq<Entry>)
    requires |s| > 0
    requires multiset(tail) <= multiset(rest) && multiset(rest) <= multiset(s[1..])
    ensures multiset([s[0]] + tail) <= multiset(s)
  {
    SubTrans(multiset(tail), multiset(rest), multiset(s[1..]));
    SubTail(s, tail);
  }

  lemma {:induction false} SelectSub(dom: (real, real) -> bool, room: nat, s: seq<Entry>)
    ensures multiset(Select(dom, room, s)) <= multiset(s)
    decreases |s|
  {
    if |s| > 0 && room > 0 {
      var rest := Prune(dom, s[0].0, s[1..]);
      SelectSub(dom, room - 1, rest);
      PruneSub(dom, s[0].0, s[1..]);
      SubChain(s, rest, Select(dom, room - 1, rest));
    }
  }

  /** No kept entry dominates one kept after it. */
  lemma {:induction false} SelectDiverse(dom: (real, real) -> bool, room: nat, s: seq<Entry>)
    ensures Diverse(dom, Select(dom, room, s))
    decreases |s|
  {
    if |s| > 0 && room > 0 {
      var rest := Prune(dom, s[0].0, s[1..]);
      var tail := Select(dom, room - 1, rest);
      SelectUnfold(dom, room, s);
      SelectDiverse(dom, room - 1, rest);
      SelectSub(dom, room - 1, rest);
      SparedSub(dom, s[0].0, tail, rest);
      ConsDiverse(dom, s[0], tail);
    }
  }

  /** A selection from a sorted pool is sorted. */
  lemma {:induction false} SelectSorted(dom: (real, real) -> bool, room: nat, s: seq<Entry>)
    requires SortedByKey(s)
    ensures SortedByKey(Select(dom, room, s))
    decreases |s|
  {
    if |s| > 0 && room > 0 {
      var rest := Prune(dom, s[0].0, s[1..]);
      var tail := Select(dom, room - 1, rest);
      SelectUnfold(dom, room, s);
      SortedTail(s);
      PruneSorted(dom, s[0].0, s[1..]);
      SelectSorted(dom, room - 1, rest);
      PruneSub(dom, s[0].0, s[1..]);
      SelectSub(dom, room - 1, rest);
      AtLeastSub(s[0].0, rest, s[1..]);
      AtLeastSub(s[0].0, tail, rest);
      ConsSorted(s[0], tail);
    }
  }

  /** Some entry of `r` dominates `x` through `dom`. */
  predicate DominatedBy(dom: (real, real) -> bool, r: seq<Entry>, x: Entry)
    decreases |r|
  {
    |r| > 0 && (dom(r[0].0, x.0) || DominatedBy(dom, r[1..], x))
  }

  lemma {:induction false} DominatedByIff(dom: (real, real) -> bool, r: seq<Entry>, x: Entry)
    ensures DominatedBy(dom, r, x) <==> exists i :: 0 <= i < |r| && dom(r[i].0, x.0)
    decreases |r|
  {
    if |r| > 0 {
      DominatedByIff(dom, r[1..], x);
      if exists i :: 0 <= i < |r| && dom(r[i].0, x.0) {
        var i :| 0 <= i < |r| && dom(r[i].0, x.0);
        if i > 0 {
          assert r[1..][i - 1] == r[i];
        }
      }
      if DominatedBy(dom, r[1..], x) {
        var i :| 0 <= i < |r[1..]| && dom(r[1..][i].0, x.0);
        assert r[i + 1] == r[1..][i];
      }
    }
  }

  /** Why `x` may be missing from a selection `r` of at most `room`
      entries: it is there, the room is used up, or a kept entry dominates it. */
  predicate Covered(dom: (real, real) -> bool, room: nat, r: seq<Entry>, x: Entry) {
    x in r || |r| == room || DominatedBy(dom, r, x)
  }

  lemma CoveredCons(dom: (real, real) -> bool, room: nat, h: Entry, t: seq<Entry>, x: Entry)
    requires room > 0 && Covered(dom, room - 1, t, x)
    ensures Covered(dom, room, [h] + t, x)
  {
    var r := [h] + t;
    assert r[1..] == t;
    if x in t {
      assert x in r;
    }
  }

  /** Where an entry that the front of `s` spares sits after pruning. */
  lemma KeptIndex(dom: (real, real) -> bool, s: seq<Entry>, k: nat) returns (m: nat)
    requires 0 < k < |s| && !dom(s[0].0, s[k].0)
    ensures m < |Prune(dom, s[0].0, s[1..])| && Prune(dom, s[0].0, s[1..])[m] == s[k]
  {
    PruneKeeps(dom, s[0].0, s[1..]);
    assert s[1..][k - 1] == s[k];
    var rest := Prune(dom, s[0].0, s[1..]);
    m :| 0 <= m < |rest| && rest[m] == s[k];
  }

  /** Nothing is dropped without cause: the entry at `k` of the pool is
      kept, dominated by a kept entry, or left out for want of room. */
  lemma {:induction false} SelectCompleteAt(dom: (real, real) -> bool, room: nat, s: seq<Entry>, k: nat)
    requires k < |s|
    ensures Covered(dom, room, Select(dom, room, s), s[k])
    decreases |s|
  {
    if room > 0 {
      SelectUnfold(dom, room, s);
      var rest := Prune(dom, s[0].0, s[1..]);
      var tail := Select(dom, room - 1, rest);
      var r := [s[0]] + tail;
      assert r[0] == s[0];
      if k == 0 {
        assert s[k] in r;
      } else if dom(s[0].0, s[k].0) {
        assert DominatedBy(dom, r, s[k]);
      } else {
        var m := KeptIndex(dom, s, k);
        SelectCompleteAt(dom, room - 1, rest, m);
        CoveredCons(dom, room, s[0], tail, rest[m]);
      }
    } else {
      assert Select(dom, room, s) == [];
    }
  }

  /** The same for every entry of the pool. */
  lemma SelectComplete(dom: (real, real) -> bool, room: nat, s: seq<Entry>)
    ensures forall k :: 0 <= k < |s| ==> Covered(dom, room, Select(dom, room, s), s[k])
  {
    forall k | 0 <= k < |s| ensures Covered(dom, room, Select(dom, room, s), s[k]) {
      SelectCompleteAt(dom, room, s, k);
    }
  }

  /** The domination test of line 44 as a comparison of squared distances. */
  function DomBy(alpha: real): (real, real) -> bool {
    (x, y) => Dominates(alpha, x, y)
  }

  /** Positions sorted by distance from `p`, none dominated by an earlier one. */
  predicate SortedDiverse(g: Arena, p: nat, alpha: real, r: seq<nat>)
    requires Uniform(g) && p < |g| && InArena(g, r)
  {
    forall i, j :: 0 <= i < j < |r| ==>
      NodeDist(g, p, r[i]) <= NodeDist(g, p, r[j]) && !Dominates(alpha, NodeDist(g, p, r[i]), NodeDist(g, p, r[j]))
  }

  /** What a selection from keyed entries says about its positions. */
  lemma KeptValues(g: Arena, p: nat, alpha: real, keyed: seq<Entry>, kept: seq<Entry>)
    requires Uniform(g) && p < |g|
    requires forall e :: e in keyed ==> e.1 < |g| && e.0 == NodeDist(g, p, e.1)
    requires multiset(kept) <= multiset(keyed)
    requires SortedByKey(kept) && Diverse(DomBy(alpha), kept)
    ensures InArena(g, Values(kept)) && SortedDiverse(g, p, alpha, Values(kept))
  {
    SubMembers(kept, keyed);
    var r := Values(kept);
    forall i | 0 <= i < |r| ensures r[i] < |g| && NodeDist(g, p, r[i]) == kept[i].0 {
      var k :| 0 <= k < |keyed| && keyed[k] == kept[i];
    }
    forall i, j | 0 <= i < j < |r|
      ensures NodeDist(g, p, r[i]) <= NodeDist(g, p, r[j]) && !Dominates(alpha, NodeDist(g, p, r[i]), NodeDist(g, p, r[j]))
    {
      assert !DomBy(alpha)(kept[i].0, kept[j].0);
    }
  }

  /** `RobustPrune(node, candidates, a, max_neighbours)` for the node at
      position `p`: the new out-neighbour list. */
  function RobustPrune(g: Arena, p: nat, cands: seq<nat>, alpha: real, maxNeighbours: nat): (r: seq<nat>)
    requires ValidRefs(g) && Uniform(g) && p < |g| && InArena(g, cands)
    ensures |r| <= maxNeighbours
    ensures multiset(r) <= multiset(cands + g[p].out)
    ensures InArena(g, r) && SortedDiverse(g, p, alpha, r)
  {
    var pool := cands + g[p].out;
    var keyed := Keyed(g, p, pool);
    var sorted := SortByKey(keyed);
    var kept := Select(DomBy(alpha), maxNeighbours, sorted);
    SelectSorted(DomBy(alpha), maxNeighbours, sorted);
    SelectDiverse(DomBy(alpha), maxNeighbours, sorted);
    SelectSub(DomBy(alpha), maxNeighbours, sorted);
    KeptValues(g, p, alpha, keyed, kept);
    ValuesMultiset(kept, keyed);
    Values(kept)
  }

  /** `RobustPrune` applied to node `p`: only `p`'s out-neighbours change. */
  function RobustPruneAt(g: Arena, p: nat, cands: seq<nat>, alpha: real, maxNeighbours: nat): (h: Arena)
    requires ValidRefs(g) && Uniform(g) && p < |g| && InArena(g, cands)
    ensures SameData(g, h) && ValidRefs(h)
    ensures |h[p].out| <= maxNeighbours
    ensures forall j :: 0 <= j < |g| && j != p ==> h[j] == g[j]
  {
    SetOut(g, p, RobustPrune(g, p, cands, alpha, maxNeighbours))
  }

  /** Every entry of a rearrangement of the keyed pool names a pool member
      together with its distance from the node. */
  lemma PoolEntries(g: Arena, p: nat, pool: seq<nat>, s: seq<Entry>)
    requires Uniform(g) && p < |g| && InArena(g, pool)
    requires multiset(s) == multiset(Keyed(g, p, pool))
    ensures forall i :: 0 <= i < |s| ==> s[i].1 in pool && s[i].1 < |g| && s[i].0 == NodeDist(g, p, s[i].1)
  {
    var keyed := Keyed(g, p, pool);
    forall i | 0 <= i < |s| ensures s[i].1 in pool && s[i].1 < |g| && s[i].0 == NodeDist(g, p, s[i].1) {
      assert s[i] in multiset(keyed);
      var j :| 0 <= j < |keyed| && keyed[j] == s[i];
      assert Values(keyed)[j] == s[i].1;
    }
  }

  /** Every pool member has its entry in a rearrangement of the keyed pool. */
  lemma PoolCovered(g: Arena, p: nat, pool: seq<nat>, s: seq<Entry>)
    requires Uniform(g) && p < |g| && InArena(g, pool)
    requires multiset(s) == multiset(Keyed(g, p, pool))
    ensures forall x :: x in pool ==> (NodeDist(g, p, x), x) in s
  {
    var keyed := Keyed(g, p, pool);
    forall x | x in pool ensures (NodeDist(g, p, x), x) in s {
      var j :| 0 <= j < |pool| && pool[j] == x;
      var e := keyed[j];
      assert e.1 == x by {
        assert Values(keyed)[j] == e.1;
      }
      assert e in keyed;
      assert e in multiset(s);
    }
  }

  /** Pruning at an entry that dominates everything drops everything. */
  lemma {:induction false} PruneAll(dom: (real, real) -> bool, c: real, s: seq<Entry>)
    requires forall i :: 0 <= i < |s| ==> dom(c, s[i].0)
    ensures Prune(dom, c, s) == []
    decreases |s|
  {
    if |s| > 0 {
      assert forall i :: 0 <= i < |s| - 1 ==> s[1..][i] == s[i + 1];
      PruneAll(dom, c, s[1..]);
    }
  }

  /** When the front entry dominates all the others, it is kept alone. */
  lemma SelectAlone(dom: (real, real) -> bool, room: nat, s: seq<Entry>)
    requires |s| > 0 && room > 0
    requires forall i :: 0 < i < |s| ==> dom(s[0].0, s[i].0)
    ensures Select(dom, room, s) == [s[0]]
  {
    assert forall i :: 0 <= i < |s| - 1 ==> s[1..][i] == s[i + 1];
    PruneAll(dom, s[0].0, s[1..]);
    SelectUnfold(dom, room, s);
  }

  /** On a sorted sequence, `Select` keeps the front entry first, and no
      entry has a smaller key. */
  lemma SelectFront(dom: (real, real) -> bool, room: nat, s: seq<Entry>)
    requires SortedByKey(s) && |s| > 0 && room > 0
    ensures |Select(dom, room, s)| > 0 && Select(dom, room, s)[0] == s[0]
    ensures forall i :: 0 <= i < |s| ==> s[0].0 <= s[i].0
  {
    assert forall i :: 0 < i < |s| ==> s[0].0 <= s[i].0;
  }

  /** The pipeline of `RobustPrune` on any pool and dominance test keeps a
      nearest pool member first. */
  lemma NearestKeptFirst(g: Arena, p: nat, pool: seq<nat>, dom: (real, real) -> bool, room: nat)
    requires Uniform(g) && p < |g| && InArena(g, pool) && |pool| > 0 && room > 0
    ensures var r := Values(Select(dom, room, SortByKey(Keyed(g, p, pool))));
      && |r| > 0 && r[0] in pool
      && forall x :: x in pool ==> NodeDist(g, p, r[0]) <= NodeDist(g, p, x)
  {
    var s := SortByKey(Keyed(g, p, pool));
    PoolEntries(g, p, pool, s);
    PoolCovered(g, p, pool, s);
    SelectFront(dom, room, s);
    forall x | x in pool ensures s[0].0 <= NodeDist(g, p, x) {
      var m :| 0 <= m < |s| && s[m] == (NodeDist(g, p, x), x);
    }
  }

  /** With a non-empty pool and room for one neighbour, the first kept
      neighbour is a pool member nearest to the node. */
  lemma RobustPruneNearestFirst(g: Arena, p: nat, cands: seq<nat>, alpha: real, maxNeighbours: nat)
    requires ValidRefs(g) && Uniform(g) && p < |g| && InArena(g, cands)
    requires |cands + g[p].out| > 0 && maxNeighbours > 0
    ensures var r := RobustPrune(g, p, cands, alpha, maxNeighbours);
      && |r| > 0 && r[0] in cands + g[p].out
      && forall x :: x in cands + g[p].out ==> NodeDist(g, p, r[0]) <= NodeDist(g, p, x)
  {
    var pool := cands + g[p].out;
    assert RobustPrune(g, p, cands, alpha, maxNeighbours) == Values(Select(DomBy(alpha), maxNeighbours, SortByKey(Keyed(g, p, pool))));
    NearestKeptFirst(g, p, pool, DomBy(alpha), maxNeighbours);
  }

  /** `alpha * 0 <= d` for every distance `d`: an entry at distance zero
      dominates everything. */
  lemma ZeroDominates(alpha: real, y: real)
    requires y >= 0.0
    ensures DomBy(alpha)(0.0, y)
  {
    assert alpha * alpha * 0.0 == 0.0;
  }

  /** When the node is in the pool, nothing else in it is at distance zero,
      and distance zero dominates everything, the node alone is kept. */
  lemma AloneAtZero(g: Arena, p: nat, pool: seq<nat>, dom: (real, real) -> bool, room: nat)
    requires Uniform(g) && p < |g| && InArena(g, pool) && p in pool && room > 0
    requires forall x :: x in pool && NodeDist(g, p, x) == 0.0 ==> x == p
    requires forall y :: y >= 0.0 ==> dom(0.0, y)
    ensures Values(Select(dom, room, SortByKey(Keyed(g, p, pool)))) == [p]
  {
    var s := SortByKey(Keyed(g, p, pool));
    PoolEntries(g, p, pool, s);
    PoolCovered(g, p, pool, s);
    SelectFront(dom, room, s);
    SqDistSelf(g[p].coords);
    var m :| 0 <= m < |s| && s[m] == (NodeDist(g, p, p), p);
    assert s[0].0 == 0.0;
    assert s[0].1 == p;
    forall i | 0 < i < |s| ensures dom(s[0].0, s[i].0) {
      assert s[i].0 >= 0.0;
    }
    SelectAlone(dom, room, s);
    assert Values([s[0]]) == [p] + Values([]);
  }

  /** The node itself is not removed from the pool: when it is a candidate
      and nothing else in the pool is at distance zero from it, it is the
      only neighbour kept, a self-loop. */
  lemma RobustPruneSelfLoop(g: Arena, p: nat, cands: seq<nat>, alpha: real, maxNeighbours: nat)
    requires ValidRefs(g) && Uniform(g) && p < |g| && InArena(g, cands)
    requires p in cands && maxNeighbours > 0
    requires forall x :: x in cands + g[p].out && NodeDist(g, p, x) == 0.0 ==> x == p
    ensures RobustPrune(g, p, cands, alpha, maxNeighbours) == [p]
  {
    var pool := cands + g[p].out;
    assert RobustPrune(g, p, cands, alpha, maxNeighbours) == Values(Select(DomBy(alpha), maxNeighbours, SortByKey(Keyed(g, p, pool))));
    forall y | y >= 0.0 ensures DomBy(alpha)(0.0, y) {
      ZeroDominates(alpha, y);
    }
    AloneAtZero(g, p, pool, DomBy(alpha), maxNeighbours);
  }

  /** For `alpha > 1` a positive distance does not dominate itself. */
  lemma SelfNotDominated(alpha: real, d: real)
    requires alpha > 1.0 && d > 0.0
    ensures !DomBy(alpha)(d, d)
  {
    PositiveProduct(alpha - 1.0, alpha + 1.0);
    assert alpha * alpha - 1.0 > 0.0;
    PositiveProduct(alpha * alpha - 1.0, d);
    assert alpha * alpha * d - d > 0.0;
  }

  /** Duplicates survive: with `alpha > 1`, a candidate listed twice at a
      positive distance is kept twice. */
  lemma RobustPruneDuplicates(g: Arena, p: nat, x: nat, alpha: real, maxNeighbours: nat)
    requires ValidRefs(g) && Uniform(g) && p < |g| && x < |g| && g[p].out == []
    requires alpha > 1.0 && NodeDist(g, p, x) > 0.0 && maxNeighbours >= 2
    ensures RobustPrune(g, p, [x, x], alpha, maxNeighbours) == [x, x]
  {
    var e := (NodeDist(g, p, x), x);
    var pool := [x, x] + g[p].out;
    assert pool == [x, x];
    var sorted := SortByKey(Keyed(g, p, pool));
    PoolEntries(g, p, pool, sorted);
    assert sorted == [e, e];
    var dom := DomBy(alpha);
    assert RobustPrune(g, p, [x, x], alpha, maxNeighbours) == Values(Select(dom, maxNeighbours, sorted));
    SelfNotDominated(alpha, e.0);
    assert Prune(dom, e.0, [e]) == [e];
    assert sorted[1..] == [e];
    SelectUnfold(dom, maxNeighbours, sorted);
    SelectUnfold(dom, maxNeighbours - 1, [e]);
    assert Select(dom, maxNeighbours, sorted) == [e, e];
    assert Values([e, e]) == [x] + Values([e]);
    assert Values([e]) == [x] + Values([]);
  }
}
