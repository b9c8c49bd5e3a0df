/** Ordering by a cached real key, standing for `std::sort` and
    `std::nth_element` in the source.

    `std::sort` is not stable and `nth_element` gives no guarantee about
    equal keys. `SortByKey` fixes one order among equal keys (of two
    equal input entries the later comes first), where a library may choose
    another; when candidates tie, which one a pruner keeps first therefore
    follows this choice. The truncation contracts state only what every conforming library
    provides: the result is a rearrangement of the input in which no
    dropped element is strictly smaller than a kept one. */
module Selection {

  /** Keys never decrease along `s`. */
  predicate SortedByKey<T>(s: seq<(real, T)>) {
    forall i, j :: 0 <= i < j < |s| ==> s[i].0 <= s[j].0
  }

  /** `x` placed before the first element of `s` with a strictly larger key. */
  function Insert<T(==)>(x: (real, T), s: seq<(real, T)>): (r: seq<(real, T)>)
    requires SortedByKey(s)
    ensures |r| == |s| + 1
    ensures r[0] == x || (|s| > 0 && r[0] == s[0])
    ensures SortedByKey(r)
    ensures multiset(r) == multiset(s) + multiset{x}
  {
    if |s| == 0 then [x]
    else if x.0 < s[0].0 then [x] + s
    else
      var rest := Insert(x, s[1..]);
      assert s == [s[0]] + s[1..];
      assert s[0].0 <= rest[0].0;
      [s[0]] + rest
  }

  /** Insertion sort by key. */
  function SortByKey<T(==)>(s: seq<(real, T)>): (r: seq<(real, T)>)
    ensures SortedByKey(r)
    ensures multiset(r) == multiset(s)
    ensures |r| == |s|
  {
    if |s| == 0 then []
    else
      assert s == [s[0]] + s[1..];
      Insert(s[0], SortByKey(s[1..]))
  }

  /** `s` rearranged into the `n` smallest keys (all of `s` when it is no
      longer) and the rest. */
  function Split<T(==)>(s: seq<(real, T)>, n: nat): (r: (seq<(real, T)>, seq<(real, T)>))
    ensures |r.0| == if |s| <= n then |s| else n
    ensures multiset(r.0) + multiset(r.1) == multiset(s)
    ensures forall i, j :: 0 <= i < |r.0| && 0 <= j < |r.1| ==> r.0[i].0 <= r.1[j].0
  {
    if |s| <= n then (s, [])
    else
      var t := SortByKey(s);
      assert t == t[..n] + t[n..];
      assert forall i :: 0 <= i < n ==> t[..n][i] == t[i];
      assert forall j :: 0 <= j < |t| - n ==> t[n..][j] == t[n + j];
      (t[..n], t[n..])
  }

  lemma SplitMembers<T>(s: seq<(real, T)>, kept: seq<(real, T)>, dropped: seq<(real, T)>)
    requires multiset(kept) + multiset(dropped) == multiset(s)
    ensures forall x :: x in kept ==> x in s
    ensures forall y :: y in multiset(s) - multiset(kept) ==> y in dropped
  {
    forall x | x in kept ensures x in s {
      assert x in multiset(kept);
      assert multiset(s)[x] == multiset(kept)[x] + multiset(dropped)[x];
      assert x in multiset(s);
    }
    forall y | y in multiset(s) - multiset(kept) ensures y in dropped {
      assert multiset(s)[y] == multiset(kept)[y] + multiset(dropped)[y];
      assert y in multiset(dropped);
    }
  }

  /** The `n` smallest keys of `s`: the list `nth_element` followed by
      `resize(n)` leaves. */
  function Truncate<T(==)>(s: seq<(real, T)>, n: nat): (r: seq<(real, T)>)
    ensures |r| == if |s| <= n then |s| else n
    ensures |s| <= n ==> r == s
  {
    Split(s, n).0
  }

  /** What truncation keeps: entries of the input, none with a larger key
      than an entry it drops. */
  lemma TruncateKeepsNearest<T>(s: seq<(real, T)>, n: nat)
    ensures forall x :: x in Truncate(s, n) ==> x in s
    ensures forall x, y :: x in Truncate(s, n) && y in s && y !in Truncate(s, n) ==> x.0 <= y.0
  {
    var parts := Split(s, n);
    var kept, dropped := parts.0, parts.1;
    SplitMembers(s, kept, dropped);
    forall x, y | x in kept && y in s && y !in kept ensures x.0 <= y.0 {
      assert y in multiset(s) - multiset(kept);
      var i :| 0 <= i < |kept| && kept[i] == x;
      var j :| 0 <= j < |dropped| && dropped[j] == y;
    }
  }

  /** Truncation keeps each entry at most as often as the input has it. */
  lemma TruncateSub<T>(s: seq<(real, T)>, n: nat)
    ensures multiset(Truncate(s, n)) <= multiset(s)
  {
  }

  /** The second components, in order. */
  function Values<T>(s: seq<(real, T)>): (r: seq<T>)
    ensures |r| == |s|
    ensures forall i :: 0 <= i < |s| ==> r[i] == s[i].1
  {
    if |s| == 0 then [] else [s[0].1] + Values(s[1..])
  }

  lemma ValuesAppend<T>(a: seq<(real, T)>, b: seq<(real, T)>)
    ensures Values(a + b) == Values(a) + Values(b)
  {
    assert forall i :: 0 <= i < |a| + |b| ==> Values(a + b)[i] == (Values(a) + Values(b))[i];
  }

  /** Taking second components keeps sub-multisets: a selection drawn from
      a keyed pool names each pool member at most as often as the pool. */
  lemma {:induction false} ValuesMultiset<T>(a: seq<(real, T)>, b: seq<(real, T)>)
    requires multiset(a) <= multiset(b)
    ensures multiset(Values(a)) <= multiset(Values(b))
    decreases |a|
  {
    if |a| > 0 {
      var x := a[0];
      assert x in multiset(b);
      var k :| 0 <= k < |b| && b[k] == x;
      var b' := b[..k] + b[k + 1..];
      assert b == b[..k] + [x] + b[k + 1..];
      assert a == [x] + a[1..];
      assert multiset(b) == multiset(b') + multiset{x};
      assert multiset(a) == multiset(a[1..]) + multiset{x};
      forall y ensures multiset(a[1..])[y] <= multiset(b')[y] {
        assert multiset(a)[y] <= multiset(b)[y];
      }
      assert multiset(a[1..]) <= multiset(b');
      ValuesMultiset(a[1..], b');
      ValuesAppend(b[..k], b[k + 1..]);
      ValuesAppend(b[..k] + [x], b[k + 1..]);
      ValuesAppend(b[..k], [x]);
      assert Values([x]) == [x.1] + Values([]);
      assert Values(a) == [x.1] + Values(a[1..]);
    }
  }

  /** The values truncation keeps are drawn from the input's values, each
      at most as often. */
  lemma TruncateValuesSub<T>(s: seq<(real, T)>, n: nat)
    ensures multiset(Values(Truncate(s, n))) <= multiset(Values(s))
  {
    TruncateSub(s, n);
    ValuesMultiset(Truncate(s, n), s);
  }
}
