/** The filtered beam search of modules/filteredgreedysearch.cpp.

    Unlike the plain search it picks the next node from a priority queue of
    every entry ever pushed, and it admits a node only when the node's
    first coordinate is one of the query's filter values.  The queue is a
    sequence of entries; its minimum is taken by distance, with the arena
    position breaking ties where the source compares pointers. */
module FilteredGreedySearch {
  import opened Wrappers
  import opened Graph
  import opened Selection
  import opened GreedySearch

  /** Every node has a first coordinate: the source reads `coords[0]` of
      every node it meets. */
  predicate HasFirst(g: Arena) {
    forall i :: 0 <= i < |g| ==> |g[i].coords| >= 1
  }

  /** The filter test of lines 14 and 44. */
  predicate Admit(g: Arena, F: set<real>, i: nat)
    requires HasFirst(g) && i < |g|
  {
    g[i].coords[0] in F
  }

  /** Every entry names an admitted node and carries its distance. */
  predicate Good(g: Arena, q: seq<real>, F: set<real>, L: seq<Entry>)
    requires HasFirst(g) && Fits(g, q)
  {
    Cached(g, q, L) && forall e :: e in L ==> Admit(g, F, e.1)
  }

  /** The queue order: distance first, then position. */
  predicate Before(a: Entry, b: Entry) {
    a.0 < b.0 || (a.0 == b.0 && a.1 <= b.1)
  }

  /** The position of the queue's top, the entry `pq.top()` returns. */
  function Top(pq: seq<Entry>): (r: nat)
    requires |pq| > 0
    ensures r < |pq|
    ensures forall k :: 0 <= k < |pq| ==> Before(pq[r], pq[k])
  {
    if |pq| == 1 then 0
    else
      var t := Top(pq[1..]) + 1;
      assert forall k :: 1 <= k < |pq| ==> pq[k] == pq[1..][k - 1];
      if Before(pq[0], pq[t]) then 0 else t
  }

  /** The start entries: the non-null nodes of `S` that pass the filter,
      in order. */
  function Start(g: Arena, q: seq<real>, F: set<real>, S: seq<Option<nat>>): (r: seq<Entry>)
    requires HasFirst(g) && Fits(g, q)
    requires forall k :: 0 <= k < |S| && S[k].Some? ==> S[k].value < |g|
    ensures Good(g, q, F, r)
    ensures forall e :: e in r ==> Some(e.1) in S
    ensures forall k :: 0 <= k < |S| && S[k].Some? && Admit(g, F, S[k].value) ==>
      exists e :: e in r && e.1 == S[k].value
  {
    if |S| == 0 then []
    else
      var rest := Start(g, q, F, S[1..]);
      assert forall k :: 1 <= k < |S| ==> S[k] == S[1..][k - 1];
      if S[0].Some? && Admit(g, F, S[0].value) then
        var e := (Dist(g, q, S[0].value), S[0].value);
        assert e in [e] + rest;
        [e] + rest
      else rest
  }

  /** The entries pushed for the out-neighbours `ns` of the node being
      visited: those not in `W` that pass the filter, in order. */
  function Admitted(g: Arena, q: seq<real>, F: set<real>, ns: seq<nat>, W: set<nat>): (r: seq<Entry>)
    requires HasFirst(g) && Fits(g, q) && InArena(g, ns)
    ensures Good(g, q, F, r)
    ensures forall e :: e in r ==> e.1 in ns && e.1 !in W
    ensures forall n :: n in ns && n !in W && Admit(g, F, n) ==> exists e :: e in r && e.1 == n
  {
    if |ns| == 0 then []
    else
      var rest := Admitted(g, q, F, ns[1..], W);
      assert forall n :: n in ns ==> n == ns[0] || n in ns[1..];
      if ns[0] !in W && Admit(g, F, ns[0]) then
        var e := (Dist(g, q, ns[0]), ns[0]);
        assert e in [e] + rest;
        [e] + rest
      else rest
  }

  /** Every unvisited entry of the list is still queued, so the queue is not
      empty while the loop runs. */
  predicate QueueCovers(L: seq<Entry>, V: set<nat>, pq: seq<Entry>) {
    forall e :: e in L && e.1 !in V ==> e in pq
  }

  datatype State = State(L: seq<Entry>, V: set<nat>, pq: seq<Entry>)

  predicate Inv(g: Arena, q: seq<real>, F: set<real>, st: State)
    requires HasFirst(g) && Fits(g, q)
  {
    && Good(g, q, F, st.L) && Good(g, q, F, st.pq)
    && QueueCovers(st.L, st.V, st.pq)
  }

  /** `pq.top()` followed by `pq.pop()`: the top entry and the rest. */
  function Pop(pq: seq<Entry>): (r: (Entry, seq<Entry>))
    requires |pq| > 0
    ensures r.0 in pq && |r.1| == |pq| - 1
    ensures forall x :: x in pq ==> Before(r.0, x)
    ensures forall x :: x in r.1 ==> x in pq
    ensures forall x :: x in pq && x != r.0 ==> x in r.1
    ensures multiset(r.1) + multiset{r.0} == multiset(pq)
  {
    var t := Top(pq);
    assert pq == pq[..t] + [pq[t]] + pq[t + 1..];
    (pq[t], pq[..t] + pq[t + 1..])
  }

  /** While an unvisited entry is listed the queue is not empty. */
  lemma QueueNonEmpty(L: seq<Entry>, V: set<nat>, pq: seq<Entry>)
    requires QueueCovers(L, V, pq) && HasUnvisited(L, V)
    ensures |pq| > 0
  {
    var e :| e in L && e.1 !in V;
    assert e in pq;
  }

  /** Skipping a visited top keeps the invariant. */
  lemma SkipInv(g: Arena, q: seq<real>, F: set<real>, st: State)
    requires HasFirst(g) && Fits(g, q) && Inv(g, q, F, st) && |st.pq| > 0
    requires Pop(st.pq).0.1 in st.V
    ensures Inv(g, q, F, State(st.L, st.V, Pop(st.pq).1))
  {
    var parts := Pop(st.pq);
    forall x | x in parts.1 ensures x in st.pq {
    }
    forall x | x in st.L && x.1 !in st.V ensures x in parts.1 {
      assert x in st.pq && x != parts.0;
    }
  }

  /** Visiting an unvisited top keeps the invariant. */
  lemma VisitInv(g: Arena, q: seq<real>, F: set<real>, st: State, pushed: seq<Entry>, listSize: nat)
    requires HasFirst(g) && Fits(g, q) && Inv(g, q, F, st) && |st.pq| > 0
    requires Pop(st.pq).0.1 !in st.V && Good(g, q, F, pushed)
    ensures Inv(g, q, F, State(Truncate(st.L + pushed, listSize), st.V + {Pop(st.pq).0.1}, Pop(st.pq).1 + pushed))
  {
    var parts := Pop(st.pq);
    var top, rest := parts.0, parts.1;
    var W := st.V + {top.1};
    var L := Truncate(st.L + pushed, listSize);
    TruncateKeepsNearest(st.L + pushed, listSize);
    assert Good(g, q, F, st.L + pushed);
    assert Good(g, q, F, rest + pushed);
    forall x | x in L && x.1 !in W ensures x in rest + pushed {
      assert x in st.L + pushed;
      if x in st.L {
        assert x in st.pq && x != top;
      }
    }
  }

  /** One iteration of the while loop: pop the top of the queue; skip it if
      it was visited, otherwise visit it, push its admitted unvisited
      out-neighbours onto both the list and the queue, and trim the list. */
  function Step(g: Arena, q: seq<real>, F: set<real>, st: State, listSize: nat): (r: State)
    requires ValidRefs(g) && HasFirst(g) && Fits(g, q) && Inv(g, q, F, st)
    requires |st.pq| > 0
    ensures Inv(g, q, F, r)
    ensures var top := Pop(st.pq).0;
      && (top.1 in st.V ==> r.V == st.V && r.L == st.L && |r.pq| < |st.pq|)
      && (top.1 !in st.V ==> r.V == st.V + {top.1} && |r.L| <= listSize)
  {
    var parts := Pop(st.pq);
    var top := parts.0;
    if top.1 in st.V then
      SkipInv(g, q, F, st);
      State(st.L, st.V, parts.1)
    else
      var pushed := Admitted(g, q, F, g[top.1].out, st.V + {top.1});
      VisitInv(g, q, F, st, pushed, listSize);
      State(Truncate(st.L + pushed, listSize), st.V + {top.1}, parts.1 + pushed)
  }

  /** The while loop of lines 28-58. */
  function Explore(g: Arena, q: seq<real>, F: set<real>, st: State, listSize: nat): (r: State)
    requires ValidRefs(g) && HasFirst(g) && Fits(g, q) && Inv(g, q, F, st)
    ensures Inv(g, q, F, r)
    ensures st.V <= r.V
    ensures !HasUnvisited(r.L, r.V)
    ensures r.V == st.V ==> r.L == st.L
    ensures r.V != st.V ==> |r.L| <= listSize
    ensures forall v :: v in r.V && v !in st.V ==> v < |g| && Admit(g, F, v)
    decreases Positions(g) - st.V, |st.pq|
  {
    if !HasUnvisited(st.L, st.V) then st
    else
      QueueNonEmpty(st.L, st.V, st.pq);
      var next := Step(g, q, F, st, listSize);
      var top := Pop(st.pq).0;
      assert top in st.pq && Range(|g|)[top.1] == top.1;
      Explore(g, q, F, next, listSize)
  }

  /** The state the while loop ends in, started from the admitted start
      nodes with nothing visited: every listed entry is visited, and every
      visited node is admitted. */
  function Final(g: Arena, q: seq<real>, F: set<real>, S: seq<Option<nat>>, listSize: nat): (st: State)
    requires ValidRefs(g) && HasFirst(g) && Fits(g, q)
    requires forall i :: 0 <= i < |S| && S[i].Some? ==> S[i].value < |g|
    ensures Inv(g, q, F, st) && !HasUnvisited(st.L, st.V)
    ensures forall v :: v in st.V ==> v < |g| && Admit(g, F, v)
    ensures Start(g, q, F, S) == [] ==> st.L == []
  {
    var L0 := Start(g, q, F, S);
    Explore(g, q, F, State(L0, {}, L0), listSize)
  }

  /** `FilteredGreedySearch(S, x_q, k, list_size, F_q)` as arena
      positions; `None` entries of `S` are null pointers.  The answer is
      the `k` entries of the final list nearest to the query (all of them
      when the list is no longer), each as often as the list has it, and
      nothing it leaves out is nearer. */
  function FilteredGreedySearch(g: Arena, S: seq<Option<nat>>, q: seq<real>, k: nat, listSize: nat, F: set<real>): (r: seq<nat>)
    requires ValidRefs(g) && HasFirst(g) && Fits(g, q)
    requires forall i :: 0 <= i < |S| && S[i].Some? ==> S[i].value < |g|
    ensures |r| <= k
    ensures forall i :: 0 <= i < |r| ==> r[i] < |g| && Admit(g, F, r[i])
    ensures Start(g, q, F, S) == [] ==> r == []
    ensures var L := Final(g, q, F, S, listSize).L;
      && |r| == (if |L| <= k then |L| else k)
      && multiset(r) <= multiset(Values(L))
      && (forall i, e :: 0 <= i < |r| && e in L && e.1 !in r ==> Dist(g, q, r[i]) <= e.0)
  {
    var st := Final(g, q, F, S, listSize);
    var r := Answer(g, q, st.L, k);
    AnswerSub(g, q, st.L, k);
    forall i | 0 <= i < |r| ensures r[i] < |g| && Admit(g, F, r[i]) {
      assert (Dist(g, q, r[i]), r[i]) in st.L;
    }
    r
  }
}
