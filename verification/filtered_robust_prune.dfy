/** The neighbour pruning of modules/filteredrobustprune.cpp.

    Unlike `RobustPrune` it first erases from the pool every entry whose id
    is the node's own, and it tests each remaining entry `x` against the
    kept entry `c` by the standard rule `a * d(c, x) <= d(node, x)`.  Before
    that test the inner loop compares first coordinates (the filters), and
    when the node and `c` disagree and `x` and `c` disagree too, it
    `continue`s without advancing its iterator: the source never returns,
    which the model reports as `Err(Diverges)`.  The checked accesses
    `coords.at(0)` throw on nodes without coordinates: `Err(OutOfRange)`. */
module FilteredRobustPrune {
  import opened Wrappers
  import opened Graph
  import opened Distance
  import opened Selection
  import opened RobustPrune

  /** What the inner loop does with one entry, given the kept one. */
  datatype Verdict = Keep | Drop | Fail(error: Error)

  /** No entry of `s` makes the inner loop fail when `c` is the kept one. */
  predicate AllPass(test: (Entry, Entry) -> Verdict, c: Entry, s: seq<Entry>) {
    forall k :: 0 <= k < |s| ==> !test(c, s[k]).Fail?
  }

  /** The inner while loop of lines 55-66 against the kept entry `c`: the
      first failing entry ends it, dropped entries are erased, the others
      stay in order. */
  function Scan(test: (Entry, Entry) -> Verdict, c: Entry, s: seq<Entry>): (r: Result<seq<Entry>, Error>)
    ensures r.Ok? ==> |r.value| <= |s|
    ensures r.Ok? ==> forall i :: 0 <= i < |r.value| ==> test(c, r.value[i]) == Keep
    decreases |s|
  {
    if |s| == 0 then Ok([])
    else
      var rest := Scan(test, c, s[1..]);
      match test(c, s[0])
      case Fail(e) => Err(e)
      case Drop => rest
      case Keep =>
        if rest.Err? then rest
        else
          var r := [s[0]] + rest.value;
          assert forall i :: 0 < i < |r| ==> r[i] == rest.value[i - 1];
          Ok(r)
  }

  /** The scan fails exactly when some entry fails the test, and then with
      the error of the first one. */
  lemma {:induction false} ScanOkIff(test: (Entry, Entry) -> Verdict, c: Entry, s: seq<Entry>)
    ensures Scan(test, c, s).Ok? <==> AllPass(test, c, s)
    ensures |s| > 0 && test(c, s[0]).Fail? ==> Scan(test, c, s) == Err(test(c, s[0]).error)
    decreases |s|
  {
    if |s| > 0 {
      ScanOkIff(test, c, s[1..]);
      assert forall k :: 0 < k < |s| ==> s[k] == s[1..][k - 1];
      if AllPass(test, c, s[1..]) && !test(c, s[0]).Fail? {
        assert AllPass(test, c, s) by {
          forall k | 0 <= k < |s| ensures !test(c, s[k]).Fail? {
            if k > 0 {
              assert !test(c, s[1..][k - 1]).Fail?;
            }
          }
        }
      }
    }
  }

  /** Every failure of `test` carries one of the errors in `es`. */
  ghost predicate FailsOnlyWith(test: (Entry, Entry) -> Verdict, es: set<Error>) {
    forall c, x :: test(c, x).Fail? ==> test(c, x).error in es
  }

  /** The scan fails only with an error the test can give. */
  lemma {:induction false} ScanFails(test: (Entry, Entry) -> Verdict, c: Entry, s: seq<Entry>, es: set<Error>)
    requires FailsOnlyWith(test, es)
    ensures Scan(test, c, s).Err? ==> Scan(test, c, s).error in es
    decreases |s|
  {
    if |s| > 0 {
      ScanFails(test, c, s[1..], es);
    }
  }

  /** The scan only erases entries. */
  lemma {:induction false} ScanSub(test: (Entry, Entry) -> Verdict, c: Entry, s: seq<Entry>)
    ensures Scan(test, c, s).Ok? ==> multiset(Scan(test, c, s).value) <= multiset(s)
    decreases |s|
  {
    if |s| > 0 {
      ScanSub(test, c, s[1..]);
      var rest := Scan(test, c, s[1..]);
      if rest.Ok? {
        SubTail(s, rest.value);
      }
    }
  }

  /** The scan erases nothing the test keeps. */
  lemma {:induction false} ScanKeeps(test: (Entry, Entry) -> Verdict, c: Entry, s: seq<Entry>)
    ensures Scan(test, c, s).Ok? ==>
      forall k :: 0 <= k < |s| && test(c, s[k]) == Keep ==> s[k] in Scan(test, c, s).value
    decreases |s|
  {
    if |s| > 0 {
      ScanKeeps(test, c, s[1..]);
      assert forall k :: 0 < k < |s| ==> s[k] == s[1..][k - 1];
    }
  }

  /** The scan keeps the order of what it keeps. */
  lemma {:induction false} ScanSorted(test: (Entry, Entry) -> Verdict, c: Entry, s: seq<Entry>)
    requires SortedByKey(s)
    ensures Scan(test, c, s).Ok? ==> SortedByKey(Scan(test, c, s).value)
    decreases |s|
  {
    if |s| > 0 {
      var rest := Scan(test, c, s[1..]);
      SortedTail(s);
      ScanSorted(test, c, s[1..]);
      ScanSub(test, c, s[1..]);
      if rest.Ok? && test(c, s[0]) == Keep {
        AtLeastSub(s[0].0, rest.value, s[1..]);
        ConsSorted(s[0], rest.value);
      }
    }
  }

  /** The outer while loop of lines 43-67.  `count` neighbours were chosen
      before `s`; the front entry is chosen, the loop breaks when the count
      reaches `maxNeighbours` (never, when that is 0), and otherwise the
      rest is scanned against it. */
  function FSelect(test: (Entry, Entry) -> Verdict, maxNeighbours: nat, count: nat, s: seq<Entry>): (r: Result<seq<Entry>, Error>)
    ensures r.Ok? && count < maxNeighbours ==> |r.value| <= maxNeighbours - count
    ensures r.Ok? && |s| > 0 ==> |r.value| > 0 && r.value[0] == s[0]
    decreases |s|
  {
    if |s| == 0 then Ok([])
    else if count + 1 == maxNeighbours then Ok([s[0]])
    else
      match Scan(test, s[0], s[1..])
      case Err(e) => Err(e)
      case Ok(rest) =>
        var tail := FSelect(test, maxNeighbours, count + 1, rest);
        if tail.Err? then tail else Ok([s[0]] + tail.value)
  }

  /** The outer loop fails only with an error the test can give. */
  lemma {:induction false} FSelectFails(test: (Entry, Entry) -> Verdict, maxNeighbours: nat, count: nat, s: seq<Entry>,
                                        es: set<Error>)
    requires FailsOnlyWith(test, es)
    ensures FSelect(test, maxNeighbours, count, s).Err? ==> FSelect(test, maxNeighbours, count, s).error in es
    decreases |s|
  {
    if |s| > 0 && count + 1 != maxNeighbours {
      ScanFails(test, s[0], s[1..], es);
      var rest := Scan(test, s[0], s[1..]);
      if rest.Ok? {
        FSelectFails(test, maxNeighbours, count + 1, rest.value, es);
      }
    }
  }

  /** Choosing only takes entries of the pool. */
  lemma {:induction false} FSelectSub(test: (Entry, Entry) -> Verdict, maxNeighbours: nat, count: nat, s: seq<Entry>)
    ensures FSelect(test, maxNeighbours, count, s).Ok? ==>
      multiset(FSelect(test, maxNeighbours, count, s).value) <= multiset(s)
    decreases |s|
  {
    if |s| > 0 && count + 1 != maxNeighbours {
      var rest := Scan(test, s[0], s[1..]);
      ScanSub(test, s[0], s[1..]);
      if rest.Ok? {
        FSelectSub(test, maxNeighbours, count + 1, rest.value);
        var tail := FSelect(test, maxNeighbours, count + 1, rest.value);
        if tail.Ok? {
          SubChain(s, rest.value, tail.value);
        }
      }
    } else if |s| > 0 {
      SubTail(s, []);
    }
  }

  /** Every chosen entry passed the test against every entry chosen
      before it. */
  predicate KeptAfter(test: (Entry, Entry) -> Verdict, r: seq<Entry>) {
    forall i, j :: 0 <= i < j < |r| ==> test(r[i], r[j]) == Keep
  }

  lemma ConsKeptAfter(test: (Entry, Entry) -> Verdict, h: Entry, t: seq<Entry>)
    requires KeptAfter(test, t)
    requires forall i :: 0 <= i < |t| ==> test(h, t[i]) == Keep
    ensures KeptAfter(test, [h] + t)
  {
    var r := [h] + t;
    forall i, j | 0 <= i < j < |r| ensures test(r[i], r[j]) == Keep {
      assert r[j] == t[j - 1];
      if i > 0 {
        assert r[i] == t[i - 1];
      }
    }
  }

  /** Diversity: no chosen entry is dropped by one chosen before it. */
  lemma {:induction false} FSelectKeptAfter(test: (Entry, Entry) -> Verdict, maxNeighbours: nat, count: nat, s: seq<Entry>)
    ensures FSelect(test, maxNeighbours, count, s).Ok? ==>
      KeptAfter(test, FSelect(test, maxNeighbours, count, s).value)
    decreases |s|
  {
    if |s| > 0 && count + 1 != maxNeighbours {
      var rest := Scan(test, s[0], s[1..]);
      if rest.Ok? {
        FSelectKeptAfter(test, maxNeighbours, count + 1, rest.value);
        FSelectSub(test, maxNeighbours, count + 1, rest.value);
        var tail := FSelect(test, maxNeighbours, count + 1, rest.value);
        if tail.Ok? {
          SubMembers(tail.value, rest.value);
          forall i | 0 <= i < |tail.value| ensures test(s[0], tail.value[i]) == Keep {
            var m :| 0 <= m < |rest.value| && rest.value[m] == tail.value[i];
          }
          ConsKeptAfter(test, s[0], tail.value);
        }
      }
    }
  }

  /** A choice from a sorted pool is sorted. */
  lemma {:induction false} FSelectSorted(test: (Entry, Entry) -> Verdict, maxNeighbours: nat, count: nat, s: seq<Entry>)
    requires SortedByKey(s)
    ensures FSelect(test, maxNeighbours, count, s).Ok? ==>
      SortedByKey(FSelect(test, maxNeighbours, count, s).value)
    decreases |s|
  {
    if |s| > 0 && count + 1 != maxNeighbours {
      var rest := Scan(test, s[0], s[1..]);
      SortedTail(s);
      ScanSorted(test, s[0], s[1..]);
      ScanSub(test, s[0], s[1..]);
      if rest.Ok? {
        FSelectSorted(test, maxNeighbours, count + 1, rest.value);
        FSelectSub(test, maxNeighbours, count + 1, rest.value);
        var tail := FSelect(test, maxNeighbours, count + 1, rest.value);
        if tail.Ok? {
          AtLeastSub(s[0].0, rest.value, s[1..]);
          AtLeastSub(s[0].0, tail.value, rest.value);
          ConsSorted(s[0], tail.value);
        }
      }
    }
  }

  /** A bound of 0 is no bound: the loop runs as with any bound beyond the
      pool. */
  lemma {:induction false} FSelectZeroUnbounded(test: (Entry, Entry) -> Verdict, m: nat, count: nat, s: seq<Entry>)
    requires m > count + |s|
    ensures FSelect(test, 0, count, s) == FSelect(test, m, count, s)
    decreases |s|
  {
    if |s| > 0 {
      var rest := Scan(test, s[0], s[1..]);
      if rest.Ok? {
        FSelectZeroUnbounded(test, m, count + 1, rest.value);
      }
    }
  }

  /** No pair of pool entries makes the inner loop fail. */
  predicate NeverFails(test: (Entry, Entry) -> Verdict, s: seq<Entry>) {
    forall i, j :: 0 <= i < |s| && 0 <= j < |s| ==> !test(s[i], s[j]).Fail?
  }

  /** When no pair of pool entries fails, the loop ends normally. */
  lemma {:induction false} FSelectOk(test: (Entry, Entry) -> Verdict, maxNeighbours: nat, count: nat, s: seq<Entry>)
    requires NeverFails(test, s)
    ensures FSelect(test, maxNeighbours, count, s).Ok?
    decreases |s|
  {
    if |s| > 0 && count + 1 != maxNeighbours {
      var t := s[1..];
      assert forall k :: 0 <= k < |t| ==> t[k] == s[k + 1];
      assert AllPass(test, s[0], t);
      ScanOkIff(test, s[0], t);
      var rest := Scan(test, s[0], t).value;
      ScanSub(test, s[0], t);
      SubMembers(rest, t);
      assert NeverFails(test, rest) by {
        forall i, j | 0 <= i < |rest| && 0 <= j < |rest| ensures !test(rest[i], rest[j]).Fail? {
          var a :| 0 <= a < |t| && t[a] == rest[i];
          var b :| 0 <= b < |t| && t[b] == rest[j];
          assert !test(s[a + 1], s[b + 1]).Fail?;
        }
      }
      FSelectOk(test, maxNeighbours, count + 1, rest);
    }
  }

  /** Some entry of `r` drops `x`. */
  predicate DroppedBy(test: (Entry, Entry) -> Verdict, r: seq<Entry>, x: Entry)
    decreases |r|
  {
    |r| > 0 && (test(r[0], x) == Drop || DroppedBy(test, r[1..], x))
  }

  /** What became of a pool entry in a normal run: it was chosen, or a
      chosen entry dropped it, or the loop broke at the bound. */
  predicate Handled(test: (Entry, Entry) -> Verdict, maxNeighbours: nat, count: nat, r: seq<Entry>, x: Entry) {
    x in r || (count < maxNeighbours && |r| == maxNeighbours - count) || DroppedBy(test, r, x)
  }

  lemma HandledCons(test: (Entry, Entry) -> Verdict, maxNeighbours: nat, count: nat, h: Entry, t: seq<Entry>, x: Entry)
    requires count + 1 < maxNeighbours || maxNeighbours == 0
    requires Handled(test, maxNeighbours, count + 1, t, x)
    ensures Handled(test, maxNeighbours, count, [h] + t, x)
  {
    var r := [h] + t;
    assert r[1..] == t;
    if x in t {
      assert x in r;
    }
  }

  /** Completeness: in a normal run every pool entry is accounted for. */
  lemma {:induction false} FSelectCompleteAt(test: (Entry, Entry) -> Verdict, maxNeighbours: nat, count: nat, s: seq<Entry>, k: nat)
    requires k < |s| && FSelect(test, maxNeighbours, count, s).Ok?
    requires count < maxNeighbours || maxNeighbours == 0
    ensures Handled(test, maxNeighbours, count, FSelect(test, maxNeighbours, count, s).value, s[k])
    decreases |s|
  {
    var r := FSelect(test, maxNeighbours, count, s).value;
    if k == 0 {
      assert s[0] == r[0];
    } else if count + 1 != maxNeighbours {
      var t := s[1..];
      var rest := Scan(test, s[0], t).value;
      var tail := FSelect(test, maxNeighbours, count + 1, rest).value;
      assert r == [s[0]] + tail;
      assert s[k] == t[k - 1];
      ScanOkIff(test, s[0], t);
      if test(s[0], s[k]) == Drop {
        assert r[0] == s[0];
      } else {
        assert test(s[0], t[k - 1]) == Keep;
        ScanKeeps(test, s[0], t);
        var m :| 0 <= m < |rest| && rest[m] == s[k];
        FSelectCompleteAt(test, maxNeighbours, count + 1, rest, m);
        HandledCons(test, maxNeighbours, count, s[0], tail, rest[m]);
      }
    }
  }

  lemma FSelectComplete(test: (Entry, Entry) -> Verdict, maxNeighbours: nat, s: seq<Entry>)
    requires FSelect(test, maxNeighbours, 0, s).Ok?
    ensures forall x :: x in s ==> Handled(test, maxNeighbours, 0, FSelect(test, maxNeighbours, 0, s).value, x)
  {
    forall x | x in s ensures Handled(test, maxNeighbours, 0, FSelect(test, maxNeighbours, 0, s).value, x) {
      var k :| 0 <= k < |s| && s[k] == x;
      FSelectCompleteAt(test, maxNeighbours, 0, s, k);
    }
  }
  /** The inner loop's treatment of entry `x` when `c` is the kept node,
      for the node at position `p`: `coords.at(0)` of the node and of `c`
      throw when empty; when their first coordinates differ, `x`'s is read
      too and, if it also differs from `c`'s, the loop never advances;
      otherwise `x` is erased when `a * d(c, x) <= d(node, x)`, with `x.0`
      the distance cached for `x`. */
  function Judge(g: Arena, p: nat, alpha: real, c: nat, x: Entry): (v: Verdict)
    requires Uniform(g) && p < |g| && c < |g| && x.1 < |g|
  {
    if |g[p].coords| == 0 || |g[c].coords| == 0 then Fail(OutOfRange)
    else if g[p].coords[0] != g[c].coords[0] && g[x.1].coords[0] != g[c].coords[0] then Fail(Diverges)
    else if DomBy(alpha)(NodeDist(g, c, x.1), x.0) then Drop
    else Keep
  }

  /** `Judge` as the test of the loops; entries outside the arena never
      reach it. */
  function FTest(g: Arena, p: nat, alpha: real): (Entry, Entry) -> Verdict {
    (c: Entry, x: Entry) =>
      if Uniform(g) && p < |g| && c.1 < |g| && x.1 < |g| then Judge(g, p, alpha, c.1, x) else Keep
  }

  /** The inner loop stalls exactly when the node's and the kept node's
      filters differ and so do the examined node's and the kept node's. */
  lemma JudgeDivergesIff(g: Arena, p: nat, alpha: real, c: nat, x: Entry)
    requires Uniform(g) && p < |g| && c < |g| && x.1 < |g|
    ensures Judge(g, p, alpha, c, x) == Fail(Diverges) <==>
      && |g[p].coords| > 0
      && g[p].coords[0] != g[c].coords[0] && g[x.1].coords[0] != g[c].coords[0]
  {
  }

  /** The verdict `Keep` means the entry is not dominated and is not the
      kept node again. */
  lemma KeepMeans(g: Arena, p: nat, alpha: real, c: nat, x: Entry)
    requires Uniform(g) && p < |g| && c < |g| && x.1 < |g| && x.0 == NodeDist(g, p, x.1)
    requires Judge(g, p, alpha, c, x) == Keep
    ensures !DomBy(alpha)(NodeDist(g, c, x.1), NodeDist(g, p, x.1))
    ensures c != x.1
  {
    SqDistSelf(g[c].coords);
    ZeroDominates(alpha, x.0);
  }

  /** The erase loop of lines 22-28: the pool without the entries whose id
      is the node's own, in order. */
  function OtherIds(g: Arena, p: nat, xs: seq<nat>): (r: seq<nat>)
    requires p < |g| && InArena(g, xs)
    ensures InArena(g, r) && |r| <= |xs|
    ensures forall k :: 0 <= k < |r| ==> r[k] in xs && g[r[k]].id != g[p].id
    ensures forall k :: 0 <= k < |xs| && g[xs[k]].id != g[p].id ==> xs[k] in r
  {
    if |xs| == 0 then []
    else
      var rest := OtherIds(g, p, xs[1..]);
      assert forall k :: 0 < k < |xs| ==> xs[k] == xs[1..][k - 1];
      if g[xs[0]].id == g[p].id then rest
      else
        var r := [xs[0]] + rest;
        assert forall k :: 0 < k < |r| ==> r[k] == rest[k - 1];
        r
  }

  /** Erasing keeps each remaining entry as often as the pool has it. */
  lemma {:induction false} OtherIdsSub(g: Arena, p: nat, xs: seq<nat>)
    requires p < |g| && InArena(g, xs)
    ensures multiset(OtherIds(g, p, xs)) <= multiset(xs)
    decreases |xs|
  {
    if |xs| > 0 {
      OtherIdsSub(g, p, xs[1..]);
      assert xs == [xs[0]] + xs[1..];
    }
  }

  /** What a normal run returns, in terms of the nodes: distinct nodes in
      non-decreasing distance from `p`, none dominating a later one by the
      standard rule. */
  predicate FSortedDiverse(g: Arena, p: nat, alpha: real, r: seq<nat>)
    requires Uniform(g) && p < |g| && InArena(g, r)
  {
    forall i, j :: 0 <= i < j < |r| ==>
      && NodeDist(g, p, r[i]) <= NodeDist(g, p, r[j])
      && !DomBy(alpha)(NodeDist(g, r[i], r[j]), NodeDist(g, p, r[j]))
      && r[i] != r[j]
  }

  /** The members of the erased pool, as nodes. */
  lemma OtherIdsMembers(g: Arena, p: nat, xs: seq<nat>)
    requires p < |g| && InArena(g, xs)
    ensures forall x :: x in OtherIds(g, p, xs) ==> x in xs && x < |g| && g[x].id != g[p].id
  {
    var r := OtherIds(g, p, xs);
    forall x | x in r ensures x in xs && x < |g| && g[x].id != g[p].id {
      var k :| 0 <= k < |r| && r[k] == x;
    }
  }

  /** Every chosen entry names a pool member with its distance. */
  lemma KeptEntries(g: Arena, p: nat, pool: seq<nat>, sorted: seq<Entry>, kept: seq<Entry>)
    requires Uniform(g) && p < |g| && InArena(g, pool)
    requires multiset(sorted) == multiset(Keyed(g, p, pool))
    requires multiset(kept) <= multiset(sorted)
    ensures forall k :: 0 <= k < |kept| ==> kept[k].1 in pool && kept[k].1 < |g| && kept[k].0 == NodeDist(g, p, kept[k].1)
  {
    PoolEntries(g, p, pool, sorted);
    SubMembers(kept, sorted);
    forall k | 0 <= k < |kept| ensures kept[k].1 in pool && kept[k].1 < |g| && kept[k].0 == NodeDist(g, p, kept[k].1) {
      var m :| 0 <= m < |sorted| && sorted[m] == kept[k];
    }
  }

  /** Two chosen entries, the first chosen before the second, read as
      nodes. */
  lemma PairDiverse(g: Arena, p: nat, alpha: real, a: Entry, b: Entry)
    requires Uniform(g) && p < |g| && a.1 < |g| && b.1 < |g|
    requires a.0 == NodeDist(g, p, a.1) && b.0 == NodeDist(g, p, b.1) && a.0 <= b.0
    requires FTest(g, p, alpha)(a, b) == Keep
    ensures NodeDist(g, p, a.1) <= NodeDist(g, p, b.1)
    ensures !DomBy(alpha)(NodeDist(g, a.1, b.1), NodeDist(g, p, b.1)) && a.1 != b.1
  {
    KeepMeans(g, p, alpha, a.1, b);
  }

  /** A sorted choice whose entries all passed the tests, read as the
      nodes `r` it names. */
  lemma KeptNodes(g: Arena, p: nat, alpha: real, kept: seq<Entry>, r: seq<nat>)
    requires Uniform(g) && p < |g|
    requires forall k :: 0 <= k < |kept| ==> kept[k].1 < |g| && kept[k].0 == NodeDist(g, p, kept[k].1)
    requires SortedByKey(kept) && KeptAfter(FTest(g, p, alpha), kept)
    requires |r| == |kept| && forall k :: 0 <= k < |r| ==> r[k] == kept[k].1
    ensures InArena(g, r) && FSortedDiverse(g, p, alpha, r)
  {
    forall i, j | 0 <= i < j < |r|
      ensures && NodeDist(g, p, r[i]) <= NodeDist(g, p, r[j])
              && !DomBy(alpha)(NodeDist(g, r[i], r[j]), NodeDist(g, p, r[j]))
              && r[i] != r[j]
    {
      PairDiverse(g, p, alpha, kept[i], kept[j]);
    }
  }

  /** The pool `FilteredRobustPrune` chooses from: the candidates and the
      old out-neighbours, without the node's own id, keyed and sorted. */
  function SortedOthers(g: Arena, p: nat, cands: seq<nat>): (s: seq<Entry>)
    requires ValidRefs(g) && Uniform(g) && p < |g| && InArena(g, cands)
    ensures |s| <= |cands + g[p].out| && SortedByKey(s)
    ensures multiset(s) == multiset(Keyed(g, p, OtherIds(g, p, cands + g[p].out)))
  {
    var pool := OtherIds(g, p, cands + g[p].out);
    SortByKey(Keyed(g, p, pool))
  }

  /** What a normal run of the loops chooses from the sorted pool. */
  lemma ChosenEntries(g: Arena, p: nat, cands: seq<nat>, alpha: real, maxNeighbours: nat)
    requires ValidRefs(g) && Uniform(g) && p < |g| && InArena(g, cands)
    requires FSelect(FTest(g, p, alpha), maxNeighbours, 0, SortedOthers(g, p, cands)).Ok?
    ensures var kept := FSelect(FTest(g, p, alpha), maxNeighbours, 0, SortedOthers(g, p, cands)).value;
      && SortedByKey(kept) && KeptAfter(FTest(g, p, alpha), kept)
      && forall k :: 0 <= k < |kept| ==>
           kept[k].1 in OtherIds(g, p, cands + g[p].out) && kept[k].1 < |g| && kept[k].0 == NodeDist(g, p, kept[k].1)
  {
    var sorted := SortedOthers(g, p, cands);
    var kept := FSelect(FTest(g, p, alpha), maxNeighbours, 0, sorted).value;
    FSelectSorted(FTest(g, p, alpha), maxNeighbours, 0, sorted);
    FSelectKeptAfter(FTest(g, p, alpha), maxNeighbours, 0, sorted);
    FSelectSub(FTest(g, p, alpha), maxNeighbours, 0, sorted);
    KeptEntries(g, p, OtherIds(g, p, cands + g[p].out), sorted, kept);
  }

  /** What a normal run of the loops returns, read as nodes. */
  lemma ChosenNodes(g: Arena, p: nat, cands: seq<nat>, alpha: real, maxNeighbours: nat, r: seq<nat>)
    requires ValidRefs(g) && Uniform(g) && p < |g| && InArena(g, cands)
    requires FSelect(FTest(g, p, alpha), maxNeighbours, 0, SortedOthers(g, p, cands)).Ok?
    requires r == Values(FSelect(FTest(g, p, alpha), maxNeighbours, 0, SortedOthers(g, p, cands)).value)
    ensures maxNeighbours >= 1 ==> |r| <= maxNeighbours
    ensures InArena(g, r) && FSortedDiverse(g, p, alpha, r)
    ensures forall k :: 0 <= k < |r| ==> r[k] in cands + g[p].out && g[r[k]].id != g[p].id
  {
    var kept := FSelect(FTest(g, p, alpha), maxNeighbours, 0, SortedOthers(g, p, cands)).value;
    ChosenEntries(g, p, cands, alpha, maxNeighbours);
    KeptNodes(g, p, alpha, kept, r);
    OtherIdsMembers(g, p, cands + g[p].out);
  }

  /** The two ways the prune can fail: an empty coordinate vector read at
      index 0, or the inner loop's endless `continue`. */
  predicate PruneFailure(e: Error) {
    e == OutOfRange || e == Diverges
  }

  /** The test fails only in those two ways. */
  lemma FTestFails(g: Arena, p: nat, alpha: real)
    ensures FailsOnlyWith(FTest(g, p, alpha), {OutOfRange, Diverges})
  {
    forall c, x | FTest(g, p, alpha)(c, x).Fail? ensures FTest(g, p, alpha)(c, x).error in {OutOfRange, Diverges} {
    }
  }

  /** Choosing with the prune's test fails only in those two ways. */
  lemma ChosenFails(g: Arena, p: nat, alpha: real, maxNeighbours: nat, s: seq<Entry>)
    ensures FSelect(FTest(g, p, alpha), maxNeighbours, 0, s).Err? ==>
      PruneFailure(FSelect(FTest(g, p, alpha), maxNeighbours, 0, s).error)
  {
    FTestFails(g, p, alpha);
    FSelectFails(FTest(g, p, alpha), maxNeighbours, 0, s, {OutOfRange, Diverges});
  }

  /** `FilteredRobustPrune(node, possible_neighbours, a, max_neighbours)`
      for the node at position `p`: the new out-neighbour list, or why the
      source does not return one. */
  function FilteredRobustPrune(g: Arena, p: nat, cands: seq<nat>, alpha: real, maxNeighbours: nat): (r: Result<seq<nat>, Error>)
    requires ValidRefs(g) && Uniform(g) && p < |g| && InArena(g, cands)
    ensures r.Ok? && maxNeighbours >= 1 ==> |r.value| <= maxNeighbours
    ensures r.Ok? ==> InArena(g, r.value) && FSortedDiverse(g, p, alpha, r.value)
    ensures r.Ok? ==> forall k :: 0 <= k < |r.value| ==>
      r.value[k] in cands + g[p].out && g[r.value[k]].id != g[p].id
    ensures r.Err? ==> PruneFailure(r.error)
  {
    var chosen := FSelect(FTest(g, p, alpha), maxNeighbours, 0, SortedOthers(g, p, cands));
    if chosen.Err? then
      ChosenFails(g, p, alpha, maxNeighbours, SortedOthers(g, p, cands));
      Err(chosen.error)
    else
      var r := Values(chosen.value);
      ChosenNodes(g, p, cands, alpha, maxNeighbours, r);
      Ok(r)
  }

  lemma FilteredRobustPruneUnfold(g: Arena, p: nat, cands: seq<nat>, alpha: real, maxNeighbours: nat)
    requires ValidRefs(g) && Uniform(g) && p < |g| && InArena(g, cands)
    ensures var chosen := FSelect(FTest(g, p, alpha), maxNeighbours, 0, SortedOthers(g, p, cands));
      FilteredRobustPrune(g, p, cands, alpha, maxNeighbours) ==
        if chosen.Err? then Err(chosen.error) else Ok(Values(chosen.value))
  {
  }

  /** With no candidates and no current neighbours the new list is empty. */
  lemma FilteredRobustPruneEmpty(g: Arena, p: nat, alpha: real, maxNeighbours: nat)
    requires ValidRefs(g) && Uniform(g) && p < |g| && g[p].out == []
    ensures FilteredRobustPrune(g, p, [], alpha, maxNeighbours) == Ok([])
  {
    FilteredRobustPruneUnfold(g, p, [], alpha, maxNeighbours);
    assert SortedOthers(g, p, []) == [];
  }

  /** A normal run names each pool member at most as often as the pool. */
  lemma FilteredRobustPruneSub(g: Arena, p: nat, cands: seq<nat>, alpha: real, maxNeighbours: nat)
    requires ValidRefs(g) && Uniform(g) && p < |g| && InArena(g, cands)
    requires FilteredRobustPrune(g, p, cands, alpha, maxNeighbours).Ok?
    ensures multiset(FilteredRobustPrune(g, p, cands, alpha, maxNeighbours).value) <= multiset(cands + g[p].out)
  {
    var pool := OtherIds(g, p, cands + g[p].out);
    var keyed := Keyed(g, p, pool);
    var sorted := SortByKey(keyed);
    var kept := FSelect(FTest(g, p, alpha), maxNeighbours, 0, sorted).value;
    FilteredRobustPruneUnfold(g, p, cands, alpha, maxNeighbours);
    FSelectSub(FTest(g, p, alpha), maxNeighbours, 0, sorted);
    ValuesMultiset(kept, keyed);
    OtherIdsSub(g, p, cands + g[p].out);
    var a, b, c := multiset(Values(kept)), multiset(pool), multiset(cands + g[p].out);
    forall x ensures a[x] <= c[x] {
      assert a[x] <= b[x];
    }
  }

  /** A bound of 0 does not bound the list: the result is the one for a
      bound beyond the pool. */
  lemma FilteredRobustPruneZero(g: Arena, p: nat, cands: seq<nat>, alpha: real)
    requires ValidRefs(g) && Uniform(g) && p < |g| && InArena(g, cands)
    ensures FilteredRobustPrune(g, p, cands, alpha, 0) == FilteredRobustPrune(g, p, cands, alpha, |cands + g[p].out| + 1)
  {
    FilteredRobustPruneUnfold(g, p, cands, alpha, 0);
    FilteredRobustPruneUnfold(g, p, cands, alpha, |cands + g[p].out| + 1);
    FSelectZeroUnbounded(FTest(g, p, alpha), |cands + g[p].out| + 1, 0, SortedOthers(g, p, cands));
  }

  /** When the kept node shares the node's filter, the inner loop cannot
      fail on any entry. */
  lemma JudgeSameFilter(g: Arena, p: nat, alpha: real, c: nat, x: Entry)
    requires Uniform(g) && p < |g| && c < |g| && x.1 < |g| && |g[p].coords| > 0
    requires g[c].coords[0] == g[p].coords[0]
    ensures !Judge(g, p, alpha, c, x).Fail?
  {
  }

  /** Entries that all share the node's filter never make the loops fail. */
  lemma SameFilterNeverFails(g: Arena, p: nat, alpha: real, s: seq<Entry>)
    requires Uniform(g) && p < |g| && |g[p].coords| > 0
    requires forall i :: 0 <= i < |s| ==>
      s[i].1 < |g| && |g[s[i].1].coords| > 0 && g[s[i].1].coords[0] == g[p].coords[0]
    ensures NeverFails(FTest(g, p, alpha), s)
  {
    forall i, j | 0 <= i < |s| && 0 <= j < |s| ensures !FTest(g, p, alpha)(s[i], s[j]).Fail? {
      JudgeSameFilter(g, p, alpha, s[i].1, s[j]);
    }
  }

  /** The sorted pool names only pool members. */
  lemma SortedOthersMembers(g: Arena, p: nat, cands: seq<nat>)
    requires ValidRefs(g) && Uniform(g) && p < |g| && InArena(g, cands)
    ensures var s := SortedOthers(g, p, cands);
      forall i :: 0 <= i < |s| ==> s[i].1 in cands + g[p].out && s[i].1 < |g|
  {
    var all := cands + g[p].out;
    PoolEntries(g, p, OtherIds(g, p, all), SortedOthers(g, p, cands));
    OtherIdsMembers(g, p, all);
  }

  /** With coordinates present and every pool member sharing the node's
      filter, the loops always end: the stall needs two filters. */
  lemma FilteredRobustPruneOneFilter(g: Arena, p: nat, cands: seq<nat>, alpha: real, maxNeighbours: nat)
    requires ValidRefs(g) && Uniform(g) && p < |g| && InArena(g, cands)
    requires |g[p].coords| > 0
    requires forall k :: 0 <= k < |cands + g[p].out| ==> g[(cands + g[p].out)[k]].coords[0] == g[p].coords[0]
    ensures FilteredRobustPrune(g, p, cands, alpha, maxNeighbours).Ok?
  {
    var all := cands + g[p].out;
    var s := SortedOthers(g, p, cands);
    SortedOthersMembers(g, p, cands);
    forall i | 0 <= i < |s| ensures |g[s[i].1].coords| > 0 && g[s[i].1].coords[0] == g[p].coords[0] {
      var m :| 0 <= m < |all| && all[m] == s[i].1;
      assert |g[s[i].1].coords| == |g[0].coords| == |g[p].coords|;
    }
    SameFilterNeverFails(g, p, alpha, s);
    FSelectOk(FTest(g, p, alpha), maxNeighbours, 0, s);
    FilteredRobustPruneUnfold(g, p, cands, alpha, maxNeighbours);
  }

  /** `FilteredRobustPrune` applied to node `p`: on a normal run only `p`'s
      out-neighbours change, and `p` is not among them. */
  function FilteredRobustPruneAt(g: Arena, p: nat, cands: seq<nat>, alpha: real, maxNeighbours: nat): (h: Result<Arena, Error>)
    requires ValidRefs(g) && Uniform(g) && p < |g| && InArena(g, cands)
    ensures h.Err? <==> FilteredRobustPrune(g, p, cands, alpha, maxNeighbours).Err?
    ensures h.Err? ==> PruneFailure(h.error)
    ensures h.Ok? ==> SameData(g, h.value) && ValidRefs(h.value)
    ensures h.Ok? ==> forall j :: 0 <= j < |g| && j != p ==> h.value[j] == g[j]
    ensures h.Ok? ==> forall k :: 0 <= k < |h.value[p].out| ==> h.value[p].out[k] != p
    ensures h.Ok? && maxNeighbours >= 1 ==> |h.value[p].out| <= maxNeighbours
  {
    var r := FilteredRobustPrune(g, p, cands, alpha, maxNeighbours);
    if r.Err? then Err(r.error) else Ok(SetOut(g, p, r.value))
  }

  /** Three nodes on the diagonal, `(0, 0)`, `(1, 1)` and `(2, 2)`, with ids
      equal to positions and no edges. */
  function Diagonal(): (g: Arena)
    ensures |g| == 3 && ValidRefs(g) && Uniform(g)
  {
    [Node(0, 0.0, {}, [0.0, 0.0], []), Node(1, 1.0, {}, [1.0, 1.0], []), Node(2, 2.0, {}, [2.0, 2.0], [])]
  }

  lemma DiagonalDistances()
    ensures NodeDist(Diagonal(), 0, 1) == 2.0 && NodeDist(Diagonal(), 0, 2) == 8.0
  {
    var g := Diagonal();
    assert SqDist(g[0].coords[1..], g[1].coords[1..]) == 1.0;
    assert SqDist(g[0].coords[1..], g[2].coords[1..]) == 4.0;
  }

  /** Two entries in strictly increasing key order are left as they are. */
  lemma SortPair(a: Entry, b: Entry)
    requires a.0 < b.0
    ensures SortByKey([a, b]) == [a, b]
  {
    assert [a, b][1..] == [b];
    assert SortByKey([b]) == Insert(b, []) == [b];
  }

  /** The sorted pool of node 0 of the diagonal with candidates 1 and 2. */
  lemma DiagonalPool()
    ensures SortedOthers(Diagonal(), 0, [1, 2]) == [(2.0, 1), (8.0, 2)]
  {
    var g := Diagonal();
    assert [1, 2] + g[0].out == [1, 2];
    var pool := OtherIds(g, 0, [1, 2]);
    assert pool == [1, 2] by {
      assert [1, 2][1..] == [2];
    }
    DiagonalDistances();
    var keyed := Keyed(g, 0, pool);
    assert keyed == [(2.0, 1), (8.0, 2)] by {
      assert pool[1..] == [2];
    }
    SortPair((2.0, 1), (8.0, 2));
  }

  /** A scan that fails ends the outer loop with the same error. */
  lemma FSelectScanErr(test: (Entry, Entry) -> Verdict, maxNeighbours: nat, count: nat, s: seq<Entry>)
    requires |s| > 0 && count + 1 != maxNeighbours && Scan(test, s[0], s[1..]).Err?
    ensures FSelect(test, maxNeighbours, count, s) == Err(Scan(test, s[0], s[1..]).error)
  {
  }

  /** Node 2 stalls the inner loop once node 1 is kept for node 0. */
  lemma DiagonalStall(alpha: real)
    ensures FTest(Diagonal(), 0, alpha)((2.0, 1), (8.0, 2)) == Fail(Diverges)
  {
    assert Judge(Diagonal(), 0, alpha, 1, (8.0, 2)) == Fail(Diverges);
  }

  /** The loops on the diagonal's sorted pool stall. */
  lemma DiagonalLoop(alpha: real)
    ensures FSelect(FTest(Diagonal(), 0, alpha), 2, 0, SortedOthers(Diagonal(), 0, [1, 2])) == Err(Diverges)
  {
    var e1, e2 := (2.0, 1), (8.0, 2);
    var test := FTest(Diagonal(), 0, alpha);
    DiagonalPool();
    DiagonalStall(alpha);
    assert [e1, e2][1..] == [e2];
    ScanOkIff(test, e1, [e2]);
    FSelectScanErr(test, 2, 0, [e1, e2]);
  }

  /** Pruning node 0 of the diagonal with candidates 1 and 2 and room for
      two never returns: node 1 is kept first, and then neither node 0 nor
      node 2 shares node 1's filter, so the inner loop stalls at node 2. */
  lemma DiagonalDiverges(alpha: real)
    ensures FilteredRobustPrune(Diagonal(), 0, [1, 2], alpha, 2) == Err(Diverges)
  {
    DiagonalLoop(alpha);
    FilteredRobustPruneUnfold(Diagonal(), 0, [1, 2], alpha, 2);
  }
}
