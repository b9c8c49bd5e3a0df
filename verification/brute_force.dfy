/** The exact filtered k-nearest-neighbour oracle of
    modules/brute_force.cpp (bruteForceKNNWithFilter).

    For every query the nodes of the same filter are paired with their
    distance and id, the pairs are sorted, and the ids of the first `k`
    pairs are kept, padded with UINT32_MAX when fewer nodes match.  The
    pair type is `pair<float, int>` while ids are unsigned: an id becomes a
    signed 32-bit value for the sort and an unsigned one again in the
    output, both written out here. */
module BruteForce {
  import opened Wrappers
  import opened Graph
  import opened Distance
  import FM = FindMedoid

  /** 2^32 and 2^31, the bounds of the source's 32-bit integers. */
  const TwoTo32: nat := 0x1_0000_0000
  const TwoTo31: nat := 0x8000_0000

  /** UINT32_MAX, the placeholder of a missing neighbour. */
  const Missing: nat := 0xFFFF_FFFF

  /** An unsigned id stored in the `int` of `pair<float, int>`. */
  function AsInt32(id: nat): (r: int)
    ensures -(TwoTo31 as int) <= r < TwoTo31
    ensures r % TwoTo32 == id % TwoTo32
  {
    var u := id % TwoTo32;
    if u < TwoTo31 then u else u - TwoTo32
  }

  /** An `int` pushed into a `vector<uint32_t>`. */
  function AsUint32(x: int): (r: nat)
    ensures r < TwoTo32
    ensures 0 <= x < TwoTo32 ==> r == x
  {
    x % TwoTo32
  }

  /** An id survives the round through `int` and back. */
  lemma IdRoundTrip(id: nat)
    ensures AsUint32(AsInt32(id)) == id % TwoTo32
  {
  }

  // ---------------------------------------------------------------------
  // Sorting (line 39)

  /** A `(distance, id)` pair. */
  type Entry = (real, int)

  /** The order of `pair<float, int>`: distance first, then id. */
  predicate Le(a: Entry, b: Entry) {
    a.0 < b.0 || (a.0 == b.0 && a.1 <= b.1)
  }

  predicate Sorted(s: seq<Entry>) {
    forall i, j :: 0 <= i < j < |s| ==> Le(s[i], s[j])
  }

  /** `x` placed before the first element not below it. */
  function Insert(x: Entry, s: seq<Entry>): (r: seq<Entry>)
    requires Sorted(s)
    ensures |r| == |s| + 1 && Sorted(r)
    ensures r[0] == x || (|s| > 0 && r[0] == s[0])
  {
    if |s| == 0 || Le(x, s[0]) then [x] + s
    else
      var rest := Insert(x, s[1..]);
      assert forall j :: 0 <= j < |rest| ==> Le(s[0], rest[j]) by {
        assert Le(s[0], rest[0]);
      }
      [s[0]] + rest
  }

  lemma {:induction false} InsertPermutes(x: Entry, s: seq<Entry>)
    requires Sorted(s)
    ensures multiset(Insert(x, s)) == multiset(s) + multiset{x}
    decreases |s|
  {
    if |s| > 0 && !Le(x, s[0]) {
      InsertPermutes(x, s[1..]);
      assert s == [s[0]] + s[1..];
    }
  }

  /** std::sort on the pairs, as an insertion sort: the order is total on
      pairs, so every sorting algorithm gives the same result
      (`SortUnique`). */
  function Sort(s: seq<Entry>): (r: seq<Entry>)
    ensures |r| == |s| && Sorted(r)
  {
    if |s| == 0 then [] else Insert(s[0], Sort(s[1..]))
  }

  lemma {:induction false} SortPermutes(s: seq<Entry>)
    ensures multiset(Sort(s)) == multiset(s)
    decreases |s|
  {
    if |s| > 0 {
      SortPermutes(s[1..]);
      InsertPermutes(s[0], Sort(s[1..]));
      assert s == [s[0]] + s[1..];
    }
  }

  /** The first element of a sorted sequence is below every element. */
  lemma SortedHead(a: seq<Entry>, x: Entry)
    requires Sorted(a) && x in a
    ensures Le(a[0], x)
  {
    var i :| 0 <= i < |a| && a[i] == x;
    if i > 0 {
      assert Le(a[0], a[i]);
    }
  }

  lemma TailMultiset(a: seq<Entry>)
    requires |a| > 0
    ensures multiset(a[1..]) == multiset(a) - multiset{a[0]}
    ensures Sorted(a) ==> Sorted(a[1..])
  {
    assert a == [a[0]] + a[1..];
  }

  /** Two sorted arrangements of the same pairs are equal. */
  lemma {:induction false} SortedUnique(a: seq<Entry>, b: seq<Entry>)
    requires Sorted(a) && Sorted(b) && multiset(a) == multiset(b)
    ensures a == b
    decreases |a|
  {
    assert |a| == |multiset(a)| == |multiset(b)| == |b|;
    if |a| > 0 {
      assert a[0] in multiset(b) && b[0] in multiset(a);
      SortedHead(b, a[0]);
      SortedHead(a, b[0]);
      TailMultiset(a);
      TailMultiset(b);
      SortedUnique(a[1..], b[1..]);
      assert a[0] == b[0];
      assert a == [a[0]] + a[1..];
      assert b == [b[0]] + b[1..];
    }
  }

  /** Whatever algorithm sorts the pairs, the result is `Sort`'s. */
  lemma SortUnique(s: seq<Entry>, t: seq<Entry>)
    requires Sorted(t) && multiset(t) == multiset(s)
    ensures t == Sort(s)
  {
    SortPermutes(s);
    SortedUnique(t, Sort(s));
  }

  // ---------------------------------------------------------------------
  // One query (lines 28-56)

  /** The positions of the nodes whose filter is the query's, in order. */
  function Matches(ds: seq<Node>, q: Node): seq<nat> {
    FM.MatchingAt(ds, q.filter, |ds|)
  }

  /** `euclidean(node, query)` reads as many query coordinates as the node
      has; a matching node with more coordinates than the query reads past
      the query's. */
  predicate Comparable(ds: seq<Node>, q: Node) {
    forall j :: 0 <= j < |ds| && ds[j].filter == q.filter ==> |ds[j].coords| <= |q.coords|
  }

  /** The pair stored for node `n`. */
  function Key(n: Node, q: Node): Entry
    requires |n.coords| <= |q.coords|
  {
    (SqDist(n.coords, q.coords), AsInt32(n.id))
  }

  /** Lines 31-36: the pairs of the matching nodes, in input order. */
  function Candidates(ds: seq<Node>, q: Node): (r: seq<Entry>)
    requires Comparable(ds, q)
    ensures |r| == |Matches(ds, q)|
    ensures forall t :: 0 <= t < |r| ==> Matches(ds, q)[t] < |ds| && r[t] == Key(ds[Matches(ds, q)[t]], q)
  {
    var m := Matches(ds, q);
    seq(|m|, t requires 0 <= t < |m| => Key(ds[m[t]], q))
  }

  /** How many real ids the row holds: `min(k, |matches|)`. */
  function Found(ds: seq<Node>, q: Node, k: nat): nat {
    var n := |Matches(ds, q)|;
    if k < n then k else n
  }

  /** The row for one query.  A negative `k` makes `knn_ids.size() < k`
      compare against `k` converted to an unsigned size, so the padding
      loop never ends. */
  function KnnRow(ds: seq<Node>, q: Node, k: int): (r: Result<seq<nat>, Error>)
    ensures !Comparable(ds, q) <==> r == Err(OutOfRange)
    ensures Comparable(ds, q) && k < 0 <==> r == Err(Diverges)
    ensures r.Ok? ==> |r.value| == k
    ensures r.Ok? ==> forall t :: Found(ds, q, k) <= t < k ==> r.value[t] == Missing
    ensures r.Ok? ==> forall t :: 0 <= t < k ==> r.value[t] < TwoTo32
  {
    if !Comparable(ds, q) then Err(OutOfRange)
    else if k < 0 then Err(Diverges)
    else
      var sorted := Sort(Candidates(ds, q));
      var m := Found(ds, q, k);
      Ok(seq(m, t requires 0 <= t < m => AsUint32(sorted[t].1)) + seq(k - m, _ => Missing))
  }

  /** The real ids are those of the first `min(k, |matches|)` pairs in
      (distance, id) order of all matching nodes. */
  lemma KnnRowNearest(ds: seq<Node>, q: Node, k: nat) returns (sorted: seq<Entry>)
    requires KnnRow(ds, q, k).Ok?
    ensures Comparable(ds, q)
    ensures Sorted(sorted) && multiset(sorted) == multiset(Candidates(ds, q))
    ensures Found(ds, q, k) <= |sorted|
    ensures forall t :: 0 <= t < Found(ds, q, k) ==> KnnRow(ds, q, k).value[t] == AsUint32(sorted[t].1)
  {
    sorted := Sort(Candidates(ds, q));
    SortPermutes(Candidates(ds, q));
  }

  /** Every real id is the id of a node with the query's filter. */
  lemma KnnRowSound(ds: seq<Node>, q: Node, k: nat, t: nat) returns (j: nat)
    requires KnnRow(ds, q, k).Ok? && t < Found(ds, q, k)
    ensures j < |ds| && ds[j].filter == q.filter
    ensures KnnRow(ds, q, k).value[t] == ds[j].id % TwoTo32
  {
    var sorted := KnnRowNearest(ds, q, k);
    var cands := Candidates(ds, q);
    assert sorted[t] in multiset(cands);
    var u :| 0 <= u < |cands| && cands[u] == sorted[t];
    j := Matches(ds, q)[u];
    IdRoundTrip(ds[j].id);
  }

  // ---------------------------------------------------------------------
  // All queries (lines 20-61)

  /** bruteForceKNNWithFilter: one row per query, in query order; the first
      query that fails stops the run. */
  function BruteForceKnn(ds: seq<Node>, queries: seq<Node>, k: int): (r: Result<seq<seq<nat>>, Error>)
    ensures queries == [] ==> r == Ok([])
    ensures r.Ok? <==> forall i :: 0 <= i < |queries| ==> KnnRow(ds, queries[i], k).Ok?
    ensures r.Ok? ==> |r.value| == |queries|
    ensures r.Ok? ==> forall i :: 0 <= i < |queries| ==> r.value[i] == KnnRow(ds, queries[i], k).value
    decreases |queries|
  {
    if |queries| == 0 then Ok([])
    else match KnnRow(ds, queries[0], k)
      case Err(e) => Err(e)
      case Ok(row) =>
        match BruteForceKnn(ds, queries[1..], k)
        case Err(e) => Err(e)
        case Ok(rows) => Ok([row] + rows)
  }

  /** With `k` negative and at least one query the run never ends, but
      with no query the loop body never runs. */
  lemma NegativeK(ds: seq<Node>, queries: seq<Node>, k: int)
    requires k < 0 && |queries| > 0 && forall i :: 0 <= i < |queries| ==> Comparable(ds, queries[i])
    ensures BruteForceKnn(ds, queries, k) == Err(Diverges)
  {
  }
}
