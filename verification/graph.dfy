/** The arena of nodes every component works on.

    The source keeps `Node*` pointers; the model keeps every node in one
    sequence (the arena) and replaces each pointer by the node's position in
    it.  A node's `id` is data like any other field and need not equal its
    position. */
module Graph {

  /** A data point with its outgoing edges.  `filter` is the scalar label of
      the filtered variants, `tags` the string labels of the stitched
      variant, `out` the out-neighbour list as arena positions. */
  datatype Node = Node(id: nat, filter: real, tags: set<string>, coords: seq<real>, out: seq<nat>)

  type Arena = seq<Node>

  /** Why a call does not return normally. */
  datatype Error =
    | EmptyCluster        // findCentroid on an empty cluster
    | InvalidClusterCount // kMeansClustering with k outside 1..n
    | EmptyInput          // approximateMedoid on no nodes
    | LargestClusterEmpty // the runtime_error of approximateMedoid
    | OutOfRange          // a checked access throws, or an unchecked one reads past the end
    | Diverges            // the source loops forever
    | DrawsExhausted      // the supplied random draws ran out

  /** Every out-neighbour names a node of the arena. */
  predicate ValidRefs(g: Arena) {
    forall i, k :: 0 <= i < |g| && 0 <= k < |g[i].out| ==> g[i].out[k] < |g|
  }

  /** All nodes have the same dimension. */
  predicate Uniform(g: Arena) {
    forall i :: 0 <= i < |g| ==> |g[i].coords| == |g[0].coords|
  }

  /** Every listed position names a node of the arena. */
  predicate InArena(g: Arena, xs: seq<nat>) {
    forall k :: 0 <= k < |xs| ==> xs[k] < |g|
  }

  /** No node is its own out-neighbour. */
  predicate NoSelfLoops(g: Arena) {
    forall i, k :: 0 <= i < |g| && 0 <= k < |g[i].out| ==> g[i].out[k] != i
  }

  /** Every node has at most `r` out-neighbours. */
  predicate DegreeAtMost(g: Arena, r: nat) {
    forall i :: 0 <= i < |g| ==> |g[i].out| <= r
  }

  /** No node has out-neighbours yet. */
  predicate Fresh(g: Arena) {
    forall i :: 0 <= i < |g| ==> g[i].out == []
  }

  /** `h` differs from `g` at most in the out-neighbour lists. */
  predicate SameData(g: Arena, h: Arena) {
    && |g| == |h|
    && forall i :: 0 <= i < |g| ==>
         && h[i].id == g[i].id && h[i].filter == g[i].filter
         && h[i].tags == g[i].tags && h[i].coords == g[i].coords
  }

  /** The listed node at position `t` carries id `t`: the condition under
      which the source's comparisons of list positions with ids mean what
      they intend. */
  predicate IdsArePositions(g: Arena, xs: seq<nat>) {
    && InArena(g, xs)
    && forall t :: 0 <= t < |xs| ==> g[xs[t]].id == t
  }

  predicate NoDup<T(==)>(xs: seq<T>) {
    forall a, b :: 0 <= a < b < |xs| ==> xs[a] != xs[b]
  }

  /** 0, 1, ..., n-1. */
  function Range(n: nat): (r: seq<nat>)
    ensures |r| == n
    ensures forall i :: 0 <= i < n ==> r[i] == i
  {
    seq(n, i => i)
  }

  /** The elements of `xs` at the indices `ix`, in the order of `ix`. */
  function Gather<T>(xs: seq<T>, ix: seq<nat>): (r: seq<T>)
    requires forall t :: 0 <= t < |ix| ==> ix[t] < |xs|
    ensures |r| == |ix|
    ensures forall t :: 0 <= t < |ix| ==> r[t] == xs[ix[t]]
  {
    seq(|ix|, t requires 0 <= t < |ix| => xs[ix[t]])
  }

  /** Replace the out-neighbour list of node `i`. */
  function SetOut(g: Arena, i: nat, out: seq<nat>): (h: Arena)
    requires i < |g|
    ensures SameData(g, h)
    ensures h[i].out == out
    ensures forall j :: 0 <= j < |g| && j != i ==> h[j] == g[j]
  {
    g[i := g[i].(out := out)]
  }

  lemma SameDataTransitive(g: Arena, h: Arena, k: Arena)
    requires SameData(g, h) && SameData(h, k)
    ensures SameData(g, k)
  {
  }

  lemma SameDataKeepsUniform(g: Arena, h: Arena)
    requires SameData(g, h) && Uniform(g)
    ensures Uniform(h)
  {
  }

  lemma IdsArePositionsNoDup(g: Arena, xs: seq<nat>)
    requires IdsArePositions(g, xs)
    ensures NoDup(xs)
  {
  }
}
