/** Per-filter start points, modules/findmedoid.cpp.

    For every distinct filter value the source samples up to `tau` of the
    points carrying it and picks the sampled point used least often so
    far, counting uses per point id.  The iteration order of the hash set
    of filters is a parameter, the shuffle behind the sampling is the
    Fisher–Yates pass of module Shuffle with one list of draws per filter,
    and filters match by equality. */
module FindMedoid {
  import opened Wrappers
  import opened Graph
  import opened Shuffle
  import Medoid

  /** The distinct filter values of the points. */
  function Filters(P: seq<Node>): set<real> {
    set i | 0 <= i < |P| :: P[i].filter
  }

  /** The values an iteration order visits. */
  function Listed(order: seq<real>): set<real> {
    set t | 0 <= t < |order| :: order[t]
  }

  lemma ListedCons(order: seq<real>)
    requires |order| > 0
    ensures Listed(order) == {order[0]} + Listed(order[1..])
  {
    forall f | f in Listed(order) ensures f in {order[0]} + Listed(order[1..]) {
      var t :| 0 <= t < |order| && order[t] == f;
      if t > 0 {
        assert order[1..][t - 1] == f;
      }
    }
    forall f | f in Listed(order[1..]) ensures f in Listed(order) {
      var t :| 0 <= t < |order[1..]| && order[1..][t] == f;
      assert order[t + 1] == f;
    }
  }

  /** The ids of the points. */
  function IdSet(P: seq<Node>): set<nat> {
    set t | 0 <= t < |P| :: P[t].id
  }

  /** Positions of the points with filter `f`, ascending. */
  function MatchingAt(P: seq<Node>, f: real, n: nat): (r: seq<nat>)
    requires n <= |P|
    ensures |r| <= n
    ensures forall t :: 0 <= t < |r| ==> r[t] < n && P[r[t]].filter == f
    decreases n
  {
    if n == 0 then []
    else MatchingAt(P, f, n - 1) + (if P[n - 1].filter == f then [n - 1] else [])
  }

  lemma {:induction false} MatchingAtComplete(P: seq<Node>, f: real, n: nat, i: nat)
    requires n <= |P| && i < n && P[i].filter == f
    ensures i in MatchingAt(P, f, n)
    decreases n
  {
    if i < n - 1 {
      MatchingAtComplete(P, f, n - 1, i);
    }
  }

  /** P_f: the ids of the points with filter `f`, in input order
      (modules/findmedoid.cpp:23-30). */
  function Matching(P: seq<Node>, f: real): (r: seq<nat>)
    ensures |r| == |MatchingAt(P, f, |P|)|
    ensures forall t :: 0 <= t < |r| ==> r[t] == P[MatchingAt(P, f, |P|)[t]].id
  {
    var at := MatchingAt(P, f, |P|);
    seq(|at|, t requires 0 <= t < |at| => P[at[t]].id)
  }

  /** Every filter of the input is carried by some point, so the warning
      branch for an empty P_f (modules/findmedoid.cpp:32-35) is never taken. */
  lemma MatchingNonEmpty(P: seq<Node>, f: real)
    requires f in Filters(P)
    ensures |Matching(P, f)| > 0
  {
    var i :| 0 <= i < |P| && P[i].filter == f;
    MatchingAtComplete(P, f, |P|, i);
  }

  /** R_f: all of P_f when it has at most `tau` ids, otherwise the first
      `tau` after a shuffle (modules/findmedoid.cpp:38-45). */
  function Sample(Pf: seq<nat>, tau: nat, draws: seq<nat>): (r: Result<seq<nat>, Error>)
    ensures r.Err? <==> |Pf| > tau && |draws| < Needed(|Pf|)
    ensures r.Err? ==> r.error == DrawsExhausted
    ensures r.Ok? ==> |r.value| == if |Pf| <= tau then |Pf| else tau
  {
    if |Pf| <= tau then Ok(Pf)
    else if |draws| < Needed(|Pf|) then Err(DrawsExhausted)
    else Ok(FisherYates(Pf, draws)[..tau])
  }

  /** The sample is drawn from P_f: no id more often than P_f has it. */
  lemma SampleFromMatches(Pf: seq<nat>, tau: nat, draws: seq<nat>)
    requires Sample(Pf, tau, draws).Ok?
    ensures multiset(Sample(Pf, tau, draws).value) <= multiset(Pf)
  {
    if |Pf| > tau {
      var s := FisherYates(Pf, draws);
      FisherYatesPermutes(Pf, draws);
      assert s == s[..tau] + s[tau..];
      assert multiset(s) == multiset(s[..tau]) + multiset(s[tau..]);
    }
  }

  /** Every id of the input has a counter. */
  predicate Counted(P: seq<Node>, T: map<nat, nat>) {
    forall i :: 0 <= i < |P| ==> P[i].id in T
  }

  /** The medoid map and the usage counters. */
  datatype Usage = Usage(medoids: map<real, nat>, counts: map<nat, nat>)

  /** Position in `R` of the first sampled id with the smallest counter:
      `min_element` under `T[a] < T[b]` (modules/findmedoid.cpp:48-52). */
  function LeastUsed(R: seq<nat>, T: map<nat, nat>): (t: nat)
    requires |R| > 0 && forall u :: 0 <= u < |R| ==> R[u] in T
    ensures t < |R|
    ensures forall u :: 0 <= u < |R| ==> T[R[t]] <= T[R[u]]
    ensures forall u :: 0 <= u < t ==> T[R[t]] < T[R[u]]
  {
    var keys := seq(|R|, u requires 0 <= u < |R| => T[R[u]] as real);
    assert forall u :: 0 <= u < |R| ==> keys[u] == T[R[u]] as real;
    Medoid.FirstMin(keys)
  }

  /** One filter's turn (modules/findmedoid.cpp:22-57).  With `tau = 0`
      the sample is empty and dereferencing `min_element`'s end is
      undefined. */
  function Visit(P: seq<Node>, tau: nat, f: real, draws: seq<nat>, T: map<nat, nat>, M: map<real, nat>): (r: Result<Usage, Error>)
    requires Counted(P, T)
  {
    var Pf := Matching(P, f);
    assert forall u :: 0 <= u < |Pf| ==> Pf[u] in T;
    if |Pf| == 0 then Ok(Usage(M, T))
    else match Sample(Pf, tau, draws)
      case Err(e) => Err(e)
      case Ok(R) =>
        if |R| == 0 then Err(OutOfRange)
        else
          SampleFromMatches(Pf, tau, draws);
          assert forall u :: 0 <= u < |R| ==> R[u] in multiset(Pf);
          var p := R[LeastUsed(R, T)];
          Ok(Usage(M[f := p], T[p := T[p] + 1]))
  }

  /** A turn for a filter some point carries fails exactly for `tau = 0`
      or too few draws. */
  lemma VisitFails(P: seq<Node>, tau: nat, f: real, draws: seq<nat>, T: map<nat, nat>, M: map<real, nat>)
    requires Counted(P, T) && f in Filters(P)
    ensures Visit(P, tau, f, draws, T, M).Err? <==> tau == 0 || Sample(Matching(P, f), tau, draws).Err?
  {
    MatchingNonEmpty(P, f);
  }

  /** A successful turn maps `f` to a sampled id with the smallest counter
      in the sample, first on ties, increments exactly that counter and
      leaves every other entry alone. */
  lemma VisitChooses(P: seq<Node>, tau: nat, f: real, draws: seq<nat>, T: map<nat, nat>, M: map<real, nat>) returns (R: seq<nat>, t: nat)
    requires Counted(P, T) && f in Filters(P)
    requires Visit(P, tau, f, draws, T, M).Ok?
    ensures Sample(Matching(P, f), tau, draws) == Ok(R)
    ensures t < |R| && forall u :: 0 <= u < |R| ==> R[u] in T
    ensures forall u :: 0 <= u < |R| ==> T[R[t]] <= T[R[u]]
    ensures forall u :: 0 <= u < t ==> T[R[t]] < T[R[u]]
    ensures R[t] in Matching(P, f)
    ensures var u := Visit(P, tau, f, draws, T, M).value;
      && u.medoids == M[f := R[t]]
      && u.counts.Keys == T.Keys
      && u.counts[R[t]] == T[R[t]] + 1
      && (forall x :: x in T && x != R[t] ==> u.counts[x] == T[x])
  {
    MatchingNonEmpty(P, f);
    var Pf := Matching(P, f);
    R := Sample(Pf, tau, draws).value;
    SampleFromMatches(Pf, tau, draws);
    assert forall u :: 0 <= u < |R| ==> R[u] in multiset(Pf);
    assert forall u :: 0 <= u < |Pf| ==> Pf[u] in T;
    t := LeastUsed(R, T);
    assert R[t] in multiset(Pf);
  }

  /** The remaining filters in turn. */
  function Loop(P: seq<Node>, tau: nat, order: seq<real>, draws: seq<seq<nat>>, T: map<nat, nat>, M: map<real, nat>): (r: Result<Usage, Error>)
    requires Counted(P, T)
    decreases |order|
  {
    if |order| == 0 then Ok(Usage(M, T))
    else
      var d := if |draws| > 0 then draws[0] else [];
      var rest := if |draws| > 0 then draws[1..] else [];
      match Visit(P, tau, order[0], d, T, M)
      case Err(e) => Err(e)
      case Ok(u) =>
        VisitCounted(P, tau, order[0], d, T, M);
        Loop(P, tau, order[1..], rest, u.counts, u.medoids)
  }

  lemma VisitCounted(P: seq<Node>, tau: nat, f: real, draws: seq<nat>, T: map<nat, nat>, M: map<real, nat>)
    requires Counted(P, T)
    requires Visit(P, tau, f, draws, T, M).Ok?
    ensures Counted(P, Visit(P, tau, f, draws, T, M).value.counts)
  {
  }

  /** Each map entry names a point carrying its filter. */
  predicate Sound(P: seq<Node>, M: map<real, nat>) {
    forall f :: f in M ==> M[f] in Matching(P, f)
  }

  /** The remaining filters each gain an entry, earlier entries stay
      sound, and no other key appears. */
  lemma {:induction false} LoopMaps(P: seq<Node>, tau: nat, order: seq<real>, draws: seq<seq<nat>>, T: map<nat, nat>, M: map<real, nat>)
    requires Counted(P, T) && Sound(P, M)
    requires forall t :: 0 <= t < |order| ==> order[t] in Filters(P)
    requires Loop(P, tau, order, draws, T, M).Ok?
    ensures Loop(P, tau, order, draws, T, M).value.medoids.Keys == M.Keys + Listed(order)
    ensures Sound(P, Loop(P, tau, order, draws, T, M).value.medoids)
    decreases |order|
  {
    if |order| > 0 {
      var d := if |draws| > 0 then draws[0] else [];
      var rest := if |draws| > 0 then draws[1..] else [];
      var R, t := VisitChooses(P, tau, order[0], d, T, M);
      var u := Visit(P, tau, order[0], d, T, M).value;
      assert Sound(P, u.medoids);
      VisitCounted(P, tau, order[0], d, T, M);
      LoopMaps(P, tau, order[1..], rest, u.counts, u.medoids);
      ListedCons(order);
    }
  }

  /** findmedoid.  `order` is the iteration order of the set of filters:
      each distinct filter exactly once. */
  function FindMedoid(P: seq<Node>, tau: nat, order: seq<real>, draws: seq<seq<nat>>): (r: Result<map<real, nat>, Error>)
    requires NoDup(order) && Listed(order) == Filters(P)
  {
    var T := map i | i in IdSet(P) :: 0;
    match Loop(P, tau, order, draws, T, map[])
    case Err(e) => Err(e)
    case Ok(u) => Ok(u.medoids)
  }

  /** Every distinct filter gets an entry and no other key appears; each
      entry is the id of a point carrying that filter. */
  lemma FindMedoidMaps(P: seq<Node>, tau: nat, order: seq<real>, draws: seq<seq<nat>>)
    requires NoDup(order) && Listed(order) == Filters(P)
    requires FindMedoid(P, tau, order, draws).Ok?
    ensures FindMedoid(P, tau, order, draws).value.Keys == Filters(P)
    ensures forall f :: f in FindMedoid(P, tau, order, draws).value ==>
      FindMedoid(P, tau, order, draws).value[f] in Matching(P, f)
  {
    var T := map i | i in IdSet(P) :: 0;
    assert forall t :: 0 <= t < |order| ==> order[t] in Filters(P);
    LoopMaps(P, tau, order, draws, T, map[]);
  }

  /** With at least one point, `tau = 0` fails: the first filter's sample
      is empty. */
  lemma FindMedoidZeroTau(P: seq<Node>, order: seq<real>, draws: seq<seq<nat>>)
    requires NoDup(order) && Listed(order) == Filters(P)
    requires |P| > 0
    ensures FindMedoid(P, 0, order, draws).Err?
  {
    var T := map i | i in IdSet(P) :: 0;
    assert P[0].filter in Filters(P);
    assert |order| > 0;
    var d := if |draws| > 0 then draws[0] else [];
    VisitFails(P, 0, order[0], d, T, map[]);
  }

  /** The remaining filters all succeed when `tau` is positive and every
      turn has at least as many draws as there are points. */
  lemma {:induction false} LoopOk(P: seq<Node>, tau: nat, order: seq<real>, draws: seq<seq<nat>>, T: map<nat, nat>, M: map<real, nat>)
    requires Counted(P, T) && tau > 0
    requires forall t :: 0 <= t < |order| ==> order[t] in Filters(P)
    requires |draws| >= |order| && forall t :: 0 <= t < |order| ==> |draws[t]| >= |P|
    ensures Loop(P, tau, order, draws, T, M).Ok?
    decreases |order|
  {
    if |order| > 0 {
      VisitFails(P, tau, order[0], draws[0], T, M);
      VisitCounted(P, tau, order[0], draws[0], T, M);
      var u := Visit(P, tau, order[0], draws[0], T, M).value;
      LoopOk(P, tau, order[1..], draws[1..], u.counts, u.medoids);
    }
  }

  /** With a positive `tau` and enough draws findmedoid succeeds. */
  lemma FindMedoidOk(P: seq<Node>, tau: nat, order: seq<real>, draws: seq<seq<nat>>)
    requires NoDup(order) && Listed(order) == Filters(P)
    requires tau > 0 && |draws| >= |order| && forall t :: 0 <= t < |order| ==> |draws[t]| >= |P|
    ensures FindMedoid(P, tau, order, draws).Ok?
  {
    var T := map i | i in IdSet(P) :: 0;
    assert forall t :: 0 <= t < |order| ==> order[t] in Filters(P);
    LoopOk(P, tau, order, draws, T, map[]);
  }
}
