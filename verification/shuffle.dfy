/** The Fisher–Yates shuffle of modules/vamana.cpp:93-103 and
    modules/filteredvamana.cpp:4-27, driven by an explicit list of draws
    standing for successive `rand()` values: for `i` from the last position
    down to 1, position `i` is swapped with position `draw % (i + 1)`. */
module Shuffle {
  import opened Graph

  /** The number of draws a shuffle of `n` elements consumes. */
  function Needed(n: nat): nat {
    if n == 0 then 0 else n - 1
  }

  /** Exchange the elements at `i` and `j`. */
  function Swap<T>(s: seq<T>, i: nat, j: nat): (r: seq<T>)
    requires i < |s| && j < |s|
    ensures |r| == |s|
    ensures r[i] == s[j] && r[j] == s[i]
    ensures forall t :: 0 <= t < |s| && t != i && t != j ==> r[t] == s[t]
  {
    s[i := s[j]][j := s[i]]
  }

  lemma SwapPermutes<T>(s: seq<T>, i: nat, j: nat)
    requires i < |s| && j < |s|
    ensures multiset(Swap(s, i, j)) == multiset(s)
  {
    var u := s[i := s[j]];
    assert multiset(u) == multiset(s) - multiset{s[i]} + multiset{s[j]};
    assert multiset(u[j := s[i]]) == multiset(u) - multiset{u[j]} + multiset{s[i]};
  }

  /** The swaps for positions `i`, `i - 1`, ..., 1. */
  function ShuffleFrom<T>(s: seq<T>, i: nat, draws: seq<nat>): (r: seq<T>)
    requires i < |s| && i <= |draws|
    ensures |r| == |s|
    decreases i
  {
    if i == 0 then s
    else ShuffleFrom(Swap(s, i, draws[0] % (i + 1)), i - 1, draws[1..])
  }

  lemma {:induction false} ShuffleFromPermutes<T>(s: seq<T>, i: nat, draws: seq<nat>)
    requires i < |s| && i <= |draws|
    ensures multiset(ShuffleFrom(s, i, draws)) == multiset(s)
    decreases i
  {
    if i > 0 {
      var j := draws[0] % (i + 1);
      SwapPermutes(s, i, j);
      ShuffleFromPermutes(Swap(s, i, j), i - 1, draws[1..]);
    }
  }

  /** The shuffled list. */
  function FisherYates<T>(s: seq<T>, draws: seq<nat>): (r: seq<T>)
    requires Needed(|s|) <= |draws|
    ensures |r| == |s|
  {
    if |s| == 0 then s else ShuffleFrom(s, |s| - 1, draws)
  }

  /** A shuffle rearranges: every element is kept as often as it occurs. */
  lemma FisherYatesPermutes<T>(s: seq<T>, draws: seq<nat>)
    requires Needed(|s|) <= |draws|
    ensures multiset(FisherYates(s, draws)) == multiset(s)
  {
    if |s| > 0 {
      ShuffleFromPermutes(s, |s| - 1, draws);
    }
  }

  lemma {:induction false} RangeMultiplicity(n: nat, x: nat)
    ensures multiset(Range(n))[x] == if x < n then 1 else 0
    decreases n
  {
    if n > 0 {
      RangeMultiplicity(n - 1, x);
      assert Range(n) == Range(n - 1) + [n - 1];
    }
  }

  lemma CountedTwice<T>(p: seq<T>, a: nat, b: nat)
    requires a < b < |p| && p[a] == p[b]
    ensures multiset(p)[p[a]] >= 2
  {
    var x := p[a];
    assert p == p[..b] + [x] + p[b + 1..];
    assert x in p[..b];
    assert multiset(p)[x] >= multiset(p[..b])[x] + 1;
  }

  /** A rearrangement of 0..n-1 lists each of them exactly once. */
  lemma PermutationOfRange(p: seq<nat>, n: nat)
    requires multiset(p) == multiset(Range(n))
    ensures |p| == n && NoDup(p)
    ensures forall i :: 0 <= i < n ==> i in p
    ensures forall t :: 0 <= t < |p| ==> p[t] < n
  {
    assert |p| == |multiset(p)| == |Range(n)|;
    forall i | 0 <= i < n ensures i in p {
      RangeMultiplicity(n, i);
      assert i in multiset(p);
    }
    forall t | 0 <= t < |p| ensures p[t] < n {
      RangeMultiplicity(n, p[t]);
      assert p[t] in multiset(p);
    }
    forall a, b | 0 <= a < b < |p| ensures p[a] != p[b] {
      RangeMultiplicity(n, p[a]);
      if p[a] == p[b] {
        CountedTwice(p, a, b);
      }
    }
  }

  /** The visiting order of the builders: a permutation of 0..n-1, so
      every point is processed exactly once. */
  lemma FisherYatesOrder(n: nat, draws: seq<nat>)
    requires Needed(n) <= |draws|
    ensures var p := FisherYates<nat>(Range(n), draws);
      && NoDup(p)
      && (forall i :: 0 <= i < n ==> i in p)
      && (forall t :: 0 <= t < |p| ==> p[t] < n)
  {
    var p := FisherYates<nat>(Range(n), draws);
    FisherYatesPermutes<nat>(Range(n), draws);
    PermutationOfRange(p, n);
  }
}
