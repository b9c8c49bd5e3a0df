/** The in-memory converters between rows of floats and nodes of
    modules/file_manipulation.cpp: createNodesFromVectors,
    createQueriesFromVectors, createVectorFromNodes and CreateGraph.

    A row is a `vector<float>`, modelled as a sequence of reals.  Checked
    accesses (`at`) that throw and unchecked ones that read past the end or
    an uninitialised pointer all become `Err(OutOfRange)`. */
module FileManipulation {
  import opened Wrappers
  import opened Graph

  type Row = seq<real>

  /** 2^32: `unsigned int` holds the values below it. */
  const TwoTo32: nat := 0x1_0000_0000

  /** Node ids equal positions, as every converter here creates them. */
  predicate Positional(g: Arena) {
    forall i :: 0 <= i < |g| ==> g[i].id == i
  }

  // ---------------------------------------------------------------------
  // createNodesFromVectors (lines 74-86)

  /** Node `i` of a base-vector row: `[filter, timestamp, coords...]`. */
  function BaseNode(row: Row, i: nat): Node
    requires |row| >= 2
  {
    Node(i, row[0], {}, row[2..], [])
  }

  /** `at(0)` throws on an empty row and `begin() + 2` passes the end of a
      one-element row. */
  function NodesFromRows(rows: seq<Row>): (r: Result<Arena, Error>)
    ensures r.Ok? <==> forall i :: 0 <= i < |rows| ==> |rows[i]| >= 2
    ensures r.Err? ==> r.error == OutOfRange
    ensures r.Ok? ==> |r.value| == |rows| && Positional(r.value) && ValidRefs(r.value)
    ensures r.Ok? ==> forall i :: 0 <= i < |rows| ==> r.value[i] == BaseNode(rows[i], i)
  {
    if exists i :: 0 <= i < |rows| && |rows[i]| < 2 then Err(OutOfRange)
    else Ok(seq(|rows|, i requires 0 <= i < |rows| => BaseNode(rows[i], i)))
  }

  // ---------------------------------------------------------------------
  // createQueriesFromVectors (lines 88-105)

  /** A query row: `[query type, filter, timestamp bounds..., coords...]`
      from index 4 on.  Types 2 and 3 are dropped. */
  predicate Dropped(row: Row)
    requires |row| > 0
  {
    row[0] == 2.0 || row[0] == 3.0
  }

  /** The row can be read: `at(0)` needs one entry, and a kept row needs
      `at(1)` and `begin() + 4`. */
  predicate Readable(row: Row) {
    |row| > 0 && (Dropped(row) || |row| >= 4)
  }

  function QueryNode(row: Row, i: nat): Node
    requires |row| >= 4
  {
    Node(i, row[1], {}, row[4..], [])
  }

  /** The ids of a node list. */
  function Ids(g: Arena): (r: seq<nat>)
    ensures |r| == |g| && forall t :: 0 <= t < |g| ==> r[t] == g[t].id
  {
    seq(|g|, t requires 0 <= t < |g| => g[t].id)
  }

  /** The loop from row `i` on. */
  function QueriesFrom(rows: seq<Row>, i: nat): (r: Result<Arena, Error>)
    requires i <= |rows|
    ensures r.Ok? <==> forall j :: i <= j < |rows| ==> Readable(rows[j])
    ensures r.Err? ==> r.error == OutOfRange
    ensures r.Ok? ==> forall t :: 0 <= t < |r.value| ==>
      && i <= r.value[t].id < |rows| && |rows[r.value[t].id]| >= 4
      && !Dropped(rows[r.value[t].id])
      && r.value[t] == QueryNode(rows[r.value[t].id], r.value[t].id)
    decreases |rows| - i
  {
    if i == |rows| then Ok([])
    else if |rows[i]| == 0 then Err(OutOfRange)
    else if Dropped(rows[i]) then QueriesFrom(rows, i + 1)
    else if |rows[i]| < 4 then Err(OutOfRange)
    else match QueriesFrom(rows, i + 1)
      case Err(e) => Err(e)
      case Ok(rest) => Ok([QueryNode(rows[i], i)] + rest)
  }

  /** createQueriesFromVectors: the kept rows, each with its row index as
      id. */
  function QueriesFromRows(rows: seq<Row>): (r: Result<Arena, Error>)
    ensures r.Ok? <==> forall j :: 0 <= j < |rows| ==> Readable(rows[j])
    ensures r.Ok? ==> forall t :: 0 <= t < |r.value| ==>
      && r.value[t].id < |rows| && |rows[r.value[t].id]| >= 4
      && !Dropped(rows[r.value[t].id])
      && r.value[t] == QueryNode(rows[r.value[t].id], r.value[t].id)
  {
    QueriesFrom(rows, 0)
  }

  predicate Ascending(ids: seq<nat>) {
    forall a, b :: 0 <= a < b < |ids| ==> ids[a] < ids[b]
  }

  lemma AscendingCons(i: nat, ids: seq<nat>)
    requires Ascending(ids) && forall t :: 0 <= t < |ids| ==> ids[t] > i
    ensures Ascending([i] + ids) && i !in ids
  {
  }

  /** `ids` holds exactly the indices from `i` on of the rows not dropped. */
  predicate KeptFrom(rows: seq<Row>, i: nat, ids: seq<nat>) {
    forall j :: i <= j < |rows| ==> (j in ids <==> |rows[j]| > 0 && !Dropped(rows[j]))
  }

  /** The kept rows keep their order, and no kept row is missing: the ids
      are exactly the indices of the rows not dropped, ascending. */
  lemma {:induction false} QueriesFromComplete(rows: seq<Row>, i: nat)
    requires i <= |rows| && QueriesFrom(rows, i).Ok?
    ensures Ascending(Ids(QueriesFrom(rows, i).value))
    ensures KeptFrom(rows, i, Ids(QueriesFrom(rows, i).value))
    decreases |rows| - i
  {
    if i < |rows| {
      QueriesFromComplete(rows, i + 1);
      var rest := QueriesFrom(rows, i + 1).value;
      var ids := Ids(rest);
      assert forall t :: 0 <= t < |rest| ==> ids[t] > i;
      if Dropped(rows[i]) {
        assert QueriesFrom(rows, i).value == rest;
      } else {
        assert QueriesFrom(rows, i).value == [QueryNode(rows[i], i)] + rest;
        assert Ids([QueryNode(rows[i], i)] + rest) == [i] + ids;
        AscendingCons(i, ids);
      }
    }
  }

  lemma QueriesFromRowsComplete(rows: seq<Row>)
    requires QueriesFromRows(rows).Ok?
    ensures Ascending(Ids(QueriesFromRows(rows).value))
    ensures KeptFrom(rows, 0, Ids(QueriesFromRows(rows).value))
  {
    QueriesFromComplete(rows, 0);
  }

  // ---------------------------------------------------------------------
  // createVectorFromNodes (lines 107-127)

  /** The ids of the listed nodes, as floats. */
  function NeighbourIds(g: Arena, xs: seq<nat>): (r: seq<real>)
    requires InArena(g, xs)
    ensures |r| == |xs| && forall k :: 0 <= k < |xs| ==> r[k] == g[xs[k]].id as real
  {
    seq(|xs|, k requires 0 <= k < |xs| => g[xs[k]].id as real)
  }

  lemma OutInArena(g: Arena, i: nat)
    requires ValidRefs(g) && i < |g|
    ensures InArena(g, g[i].out)
  {
  }

  /** One node's row: its filter, its coordinates, its neighbours' ids. */
  function NodeRow(g: Arena, i: nat): (r: Row)
    requires ValidRefs(g) && i < |g|
    ensures |r| == 1 + |g[i].coords| + |g[i].out|
  {
    OutInArena(g, i);
    [g[i].filter] + g[i].coords + NeighbourIds(g, g[i].out)
  }

  function VectorsFromNodes(g: Arena): (r: seq<Row>)
    requires ValidRefs(g)
    ensures |r| == |g| && forall i :: 0 <= i < |g| ==> r[i] == NodeRow(g, i)
  {
    seq(|g|, i requires 0 <= i < |g| => NodeRow(g, i))
  }

  /** A node's row starts with its filter, then its coordinates, then the
      ids of its out-neighbours in order. */
  lemma NodeRowLayout(g: Arena, i: nat)
    requires ValidRefs(g) && i < |g|
    ensures var r := NodeRow(g, i); var c := |g[i].coords|;
      && r[0] == g[i].filter
      && r[1..1 + c] == g[i].coords
      && forall k :: 0 <= k < |g[i].out| ==> r[1 + c + k] == g[g[i].out[k]].id as real
  {
    var r := NodeRow(g, i);
    var c := |g[i].coords|;
    assert r[1..1 + c] == g[i].coords;
  }

  /** Read back as base vectors, the rows lose the second column: the
      timestamp `createNodesFromVectors` skips is gone and the rest
      survives. */
  lemma BaseRowsThrough(rows: seq<Row>)
    requires NodesFromRows(rows).Ok?
    ensures var g := NodesFromRows(rows).value;
      forall i :: 0 <= i < |rows| ==> VectorsFromNodes(g)[i] == rows[i][..1] + rows[i][2..]
  {
    var g := NodesFromRows(rows).value;
    forall i | 0 <= i < |rows| ensures VectorsFromNodes(g)[i] == rows[i][..1] + rows[i][2..] {
      assert g[i] == BaseNode(rows[i], i);
      assert NeighbourIds(g, g[i].out) == [];
    }
  }

  // ---------------------------------------------------------------------
  // CreateGraph (lines 129-172)

  /** `unsigned int findID = vf.at(j)`: truncation toward zero, undefined
      when the truncated value does not fit. */
  function ToUnsigned(v: real): (r: Option<nat>)
    ensures r.Some? ==> r.value < TwoTo32
    ensures v >= 0.0 && v.Floor < TwoTo32 ==> r == Some(v.Floor as nat)
    ensures v <= -1.0 ==> r == None
  {
    if v <= -1.0 then None
    else if v < 0.0 then Some(0)
    else if v.Floor >= TwoTo32 then None
    else Some(v.Floor as nat)
  }

  /** The neighbour entries of a row: the ones from index 101 on. */
  function NeighbourEntries(row: Row): seq<real> {
    if |row| <= 101 then [] else row[101..]
  }

  /** Lines 155-165: every entry names the node with that id, which is the
      node at that position; an id no node has leaves `neighbor`
      uninitialised. */
  function Decode(vals: seq<real>, n: nat): (r: Result<seq<nat>, Error>)
    ensures r.Ok? <==> forall k :: 0 <= k < |vals| ==> ToUnsigned(vals[k]).Some? && ToUnsigned(vals[k]).value < n
    ensures r.Err? ==> r.error == OutOfRange
    ensures r.Ok? ==> |r.value| == |vals| && forall k :: 0 <= k < |vals| ==> Some(r.value[k]) == ToUnsigned(vals[k])
  {
    if |vals| == 0 then Ok([])
    else match ToUnsigned(vals[0])
      case None => Err(OutOfRange)
      case Some(x) =>
        if x >= n then Err(OutOfRange)
        else match Decode(vals[1..], n)
          case Err(e) => Err(e)
          case Ok(rest) =>
            assert forall k :: 1 <= k < |vals| ==> vals[k] == vals[1..][k - 1];
            Ok([x] + rest)
  }

  /** The rows CreateGraph can read: at least 100 entries each (the
      coordinates are copied from `begin() + 1` to `begin() + 100`), and
      every neighbour entry names a node. */
  predicate GraphReadable(rows: seq<Row>) {
    forall i :: 0 <= i < |rows| ==> |rows[i]| >= 100 && Decode(NeighbourEntries(rows[i]), |rows|).Ok?
  }

  /** CreateGraph: node `i` has id `i`, the filter of entry 0, the 99
      coordinates of entries 1 to 99, and the neighbours of entries 101
      on; entry 100 is never read. */
  function CreateGraph(rows: seq<Row>): (r: Result<Arena, Error>)
    ensures r.Ok? <==> GraphReadable(rows)
    ensures r.Err? ==> r.error == OutOfRange
    ensures r.Ok? ==> |r.value| == |rows| && Positional(r.value) && ValidRefs(r.value)
    ensures r.Ok? ==> forall i :: 0 <= i < |rows| ==> |r.value[i].coords| == 99
  {
    if !GraphReadable(rows) then Err(OutOfRange)
    else
      var g := seq(|rows|, i requires 0 <= i < |rows| =>
                 Node(i, rows[i][0], {}, rows[i][1..100], Decode(NeighbourEntries(rows[i]), |rows|).value));
      assert forall i, k :: 0 <= i < |g| && 0 <= k < |g[i].out| ==> g[i].out[k] < |rows| by {
        forall i, k | 0 <= i < |g| && 0 <= k < |g[i].out| ensures g[i].out[k] < |rows| {
          assert Some(g[i].out[k]) == ToUnsigned(NeighbourEntries(rows[i])[k]);
        }
      }
      Ok(g)
  }

  /** The same reader with the coordinates copied up to `begin() + 101`,
      the layout `createVectorFromNodes` writes for 100 coordinates. */
  function CreateGraphFull(rows: seq<Row>): (r: Result<Arena, Error>)
    ensures r.Ok? <==> GraphReadable(rows) && forall i :: 0 <= i < |rows| ==> |rows[i]| >= 101
    ensures r.Ok? ==> |r.value| == |rows| && Positional(r.value) && ValidRefs(r.value)
    ensures r.Ok? ==> forall i :: 0 <= i < |rows| ==> |r.value[i].coords| == 100
  {
    if !GraphReadable(rows) || exists i :: 0 <= i < |rows| && |rows[i]| < 101 then Err(OutOfRange)
    else
      var g := seq(|rows|, i requires 0 <= i < |rows| && |rows[i]| >= 101 =>
                 Node(i, rows[i][0], {}, rows[i][1..101], Decode(NeighbourEntries(rows[i]), |rows|).value));
      assert forall i, k :: 0 <= i < |g| && 0 <= k < |g[i].out| ==> g[i].out[k] < |rows| by {
        forall i, k | 0 <= i < |g| && 0 <= k < |g[i].out| ensures g[i].out[k] < |rows| {
          assert Some(g[i].out[k]) == ToUnsigned(NeighbourEntries(rows[i])[k]);
        }
      }
      Ok(g)
  }

  /** The graphs the round trip is about: ids equal to positions (so an id
      fits an `unsigned int`) and 100 coordinates per node. */
  predicate Exportable(g: Arena) {
    && ValidRefs(g) && Positional(g) && |g| <= TwoTo32
    && forall i :: 0 <= i < |g| ==> |g[i].coords| == 100
  }

  /** Written out and read back, a node's neighbour entries decode to its
      out-neighbour positions. */
  lemma NeighboursRoundTrip(g: Arena, i: nat)
    requires Exportable(g) && i < |g|
    ensures NeighbourEntries(NodeRow(g, i)) == NeighbourIds(g, g[i].out)
    ensures Decode(NeighbourEntries(NodeRow(g, i)), |g|) == Ok(g[i].out)
  {
    var row := NodeRow(g, i);
    NodeRowLayout(g, i);
    var ids := NeighbourIds(g, g[i].out);
    assert row == [g[i].filter] + g[i].coords + ids;
    assert NeighbourEntries(row) == ids by {
      if |row| > 101 {
        assert row[101..] == ids;
      }
    }
    var d := Decode(ids, |g|);
    forall k | 0 <= k < |ids| ensures ToUnsigned(ids[k]) == Some(g[i].out[k]) {
      var x := g[i].out[k];
      assert ids[k] == x as real;
      assert (x as real).Floor == x;
    }
    assert d.Ok?;
    assert d.value == g[i].out;
  }

  /** CreateGraph after createVectorFromNodes keeps ids, filters and
      neighbour lists but drops the 100th coordinate. */
  lemma CreateGraphRoundTrip(g: Arena)
    requires Exportable(g)
    ensures CreateGraph(VectorsFromNodes(g)).Ok?
    ensures var h := CreateGraph(VectorsFromNodes(g)).value;
      && |h| == |g|
      && forall i :: 0 <= i < |g| ==>
           && h[i].id == g[i].id && h[i].filter == g[i].filter && h[i].out == g[i].out
           && h[i].coords == g[i].coords[..99]
  {
    var rows := VectorsFromNodes(g);
    forall i | 0 <= i < |rows|
      ensures |rows[i]| >= 100 && Decode(NeighbourEntries(rows[i]), |rows|) == Ok(g[i].out)
    {
      NeighboursRoundTrip(g, i);
    }
    assert GraphReadable(rows);
    var h := CreateGraph(rows).value;
    forall i | 0 <= i < |g| ensures h[i].filter == g[i].filter && h[i].coords == g[i].coords[..99] {
      NodeRowLayout(g, i);
      assert rows[i][1..100] == rows[i][1..101][..99];
    }
  }

  /** The 100th coordinate is lost: a node whose last coordinate is 1 comes
      back with 99 coordinates. */
  lemma CreateGraphDropsCoordinate()
    ensures var g := [Node(0, 0.0, {}, seq(99, _ => 0.0) + [1.0], [])];
      && Exportable(g)
      && CreateGraph(VectorsFromNodes(g)).Ok?
      && CreateGraph(VectorsFromNodes(g)).value[0].coords != g[0].coords
  {
    var g := [Node(0, 0.0, {}, seq(99, _ => 0.0) + [1.0], [])];
    CreateGraphRoundTrip(g);
  }

  /** With the coordinates read up to entry 100, the round trip returns
      every node as it was, except for the tags rows do not carry. */
  lemma CreateGraphFullRoundTrip(g: Arena)
    requires Exportable(g)
    ensures CreateGraphFull(VectorsFromNodes(g)).Ok?
    ensures var h := CreateGraphFull(VectorsFromNodes(g)).value;
      && |h| == |g| && forall i :: 0 <= i < |g| ==> h[i] == g[i].(tags := {})
  {
    var rows := VectorsFromNodes(g);
    forall i | 0 <= i < |rows|
      ensures |rows[i]| >= 101 && Decode(NeighbourEntries(rows[i]), |rows|) == Ok(g[i].out)
    {
      NeighboursRoundTrip(g, i);
    }
    assert GraphReadable(rows);
    var h := CreateGraphFull(rows).value;
    forall i | 0 <= i < |g| ensures h[i] == g[i].(tags := {}) {
      NodeRowLayout(g, i);
    }
  }
}
