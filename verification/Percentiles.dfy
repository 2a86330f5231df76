/** The two percentile rules of the repository, both called nearest-rank, against the nearest rank:
    _percentile of scripts/dev/perception_rx_audit.py and pct of scripts/diag/objects_tick_age.py. */
module Percentiles {
  import opened Basics
  import opened DwellStats

  predicate Ascending(s: seq<real>) {
    forall i, j :: 0 <= i <= j < |s| ==> s[i] <= s[j]
  }

  function Insert(s: seq<real>, x: real): (t: seq<real>)
    ensures multiset(t) == multiset(s) + multiset{x} && |t| == |s| + 1
  {
    if s == [] || x <= s[0] then [x] + s
    else
      assert s == [s[0]] + s[1..];
      [s[0]] + Insert(s[1..], x)
  }

  lemma ConsAscends(x: real, s: seq<real>)
    requires Ascending(s) && forall i :: 0 <= i < |s| ==> x <= s[i]
    ensures Ascending([x] + s)
  {
  }

  lemma {:induction false} InsertAscends(s: seq<real>, x: real)
    requires Ascending(s)
    ensures Ascending(Insert(s, x))
  {
    if s == [] || x <= s[0] {
      ConsAscends(x, s);
    } else {
      InsertAscends(s[1..], x);
      var rest := Insert(s[1..], x);
      forall i | 0 <= i < |rest| ensures s[0] <= rest[i] {
        assert rest[i] in multiset(rest);
        assert rest[i] == x || rest[i] in multiset(s[1..]);
      }
      ConsAscends(s[0], rest);
    }
  }

  /** sorted(values) */
  function Sorted(values: seq<real>): (s: seq<real>)
    ensures Ascending(s) && multiset(s) == multiset(values) && |s| == |values|
  {
    if values == [] then []
    else
      var n := |values| - 1;
      assert values == values[..n] + [values[n]];
      var front := Sorted(values[..n]);
      InsertAscends(front, values[n]);
      Insert(front, values[n])
  }

  // -- ranks -------------------------------------------------------------------------------------

  /** `k` samples are the share `q` of `n`, or more. */
  predicate Covers(n: nat, q: real, k: nat) {
    k as real >= q * n as real
  }

  /** The least of the ranks 1..n that covers the share. */
  ghost predicate NearestRank(n: nat, q: real, r: nat) {
    1 <= r <= n && Covers(n, q, r) && forall k: nat :: 1 <= k < r ==> !Covers(n, q, k)
  }

  /** The rank is one too high. */
  ghost predicate PreviousIsNearest(n: nat, q: real, r: nat) {
    r > 1 && NearestRank(n, q, r - 1) && Covers(n, q, r - 1)
  }

  /** Index of _percentile, counted from 1. */
  function HalfEvenRank(n: nat, q: real): (r: nat)
    requires n > 0
    ensures 1 <= r <= n
  {
    var k := RoundHalfEven(q * n as real + 0.5) - 1;
    1 + if k > n - 1 then n - 1 else if k < 0 then 0 else k
  }

  /** Index of pct, counted from 1. */
  function TruncatedRank(n: nat, q: real): (r: nat)
    requires n > 0 && q >= 0.0
    ensures 1 <= r <= n
  {
    var k := (q * n as real).Floor;
    assert q * n as real >= 0.0;
    1 + if k > n - 1 then n - 1 else k
  }

  /** The share is a whole number of samples, not none and not all. */
  predicate WholeShare(n: nat, q: real) {
    var x := q * n as real;
    x.Floor as real == x && 0 < x.Floor < n
  }

  predicate OddShare(n: nat, q: real) {
    WholeShare(n, q) && (q * n as real).Floor % 2 == 1
  }

  lemma ShareWithinSamples(n: nat, q: real)
    requires q <= 1.0
    ensures q * n as real <= n as real
  {
    ScaleMono(n as real, q, 1.0);
  }

  /** Half-even rounding half a unit up never falls below, whichever way a tie goes. */
  lemma RoundedHalfUp(x: real)
    ensures RoundHalfEven(x + 0.5) as real >= x
    ensures RoundHalfEven(x + 0.5) as real <= x + 1.0
  {
    FloorBounds(x + 0.5);
    RoundingIsNearest(x + 0.5);
  }

  /** Neither rule ever reports a sample with less than the share at or below it. */
  lemma BothRanksCover(n: nat, q: real)
    requires n > 0 && q <= 1.0
    ensures Covers(n, q, HalfEvenRank(n, q))
    ensures q >= 0.0 ==> Covers(n, q, TruncatedRank(n, q))
  {
    hide RoundHalfEven;
    var x := q * n as real;
    ShareWithinSamples(n, q);
    RoundedHalfUp(x);
    FloorBounds(x);
    assert HalfEvenRank(n, q) == n || HalfEvenRank(n, q) >= RoundHalfEven(x + 0.5);
    assert q >= 0.0 ==> TruncatedRank(n, q) == n || TruncatedRank(n, q) == x.Floor + 1;
  }

  /** _percentile is the nearest rank exactly unless the share is an odd number of samples, not all. */
  lemma HalfEvenIsNearestIff(n: nat, q: real)
    requires n > 0 && q <= 1.0
    ensures NearestRank(n, q, HalfEvenRank(n, q)) <==> !OddShare(n, q)
    ensures !NearestRank(n, q, HalfEvenRank(n, q)) ==> PreviousIsNearest(n, q, HalfEvenRank(n, q))
  {
    var x, r := q * n as real, HalfEvenRank(n, q);
    BothRanksCover(n, q);
    if OddShare(n, q) {
      assert r == x.Floor + 1;
      assert Covers(n, q, r - 1);
    } else {
      assert r == 1 || (r - 1) as real < x;
    }
  }

  /** pct is the nearest rank exactly unless the share is a whole number of samples, not all and not none. */
  lemma TruncatedIsNearestIff(n: nat, q: real)
    requires n > 0 && 0.0 <= q <= 1.0
    ensures NearestRank(n, q, TruncatedRank(n, q)) <==> !WholeShare(n, q)
    ensures !NearestRank(n, q, TruncatedRank(n, q)) ==> PreviousIsNearest(n, q, TruncatedRank(n, q))
  {
    var x, r := q * n as real, TruncatedRank(n, q);
    BothRanksCover(n, q);
    if WholeShare(n, q) {
      assert r == x.Floor + 1;
      assert Covers(n, q, r - 1);
    } else {
      assert r == 1 || (r - 1) as real < x;
    }
  }

  // -- values ------------------------------------------------------------------------------------

  /** How many samples are at or below `v`. */
  function AtOrBelow(values: seq<real>, v: real): (c: nat)
    ensures c <= |values|
  {
    if values == [] then 0
    else AtOrBelow(values[..|values| - 1], v) + if values[|values| - 1] <= v then 1 else 0
  }

  lemma {:induction false} AtOrBelowAdds(a: seq<real>, b: seq<real>, v: real)
    ensures AtOrBelow(a + b, v) == AtOrBelow(a, v) + AtOrBelow(b, v)
  {
    if b == [] {
      assert a + b == a;
    } else {
      var front := b[..|b| - 1];
      assert (a + b)[..|a + b| - 1] == a + front;
      AtOrBelowAdds(a, front, v);
    }
  }

  lemma {:induction false} InsertCounts(s: seq<real>, x: real, v: real)
    ensures AtOrBelow(Insert(s, x), v) == AtOrBelow(s, v) + AtOrBelow([x], v)
  {
    if s == [] || x <= s[0] {
      AtOrBelowAdds([x], s, v);
    } else {
      InsertCounts(s[1..], x, v);
      AtOrBelowAdds([s[0]], s[1..], v);
      assert s == [s[0]] + s[1..];
      AtOrBelowAdds([s[0]], Insert(s[1..], x), v);
    }
  }

  lemma {:induction false} SortingKeepsCounts(values: seq<real>, v: real)
    ensures AtOrBelow(Sorted(values), v) == AtOrBelow(values, v)
  {
    if values != [] {
      var n := |values| - 1;
      SortingKeepsCounts(values[..n], v);
      InsertCounts(Sorted(values[..n]), values[n], v);
    }
  }

  /** In sorted samples, k are at or below `v` exactly when the k-th is. */
  lemma {:induction false} RankIsCount(s: seq<real>, v: real, k: nat)
    requires Ascending(s) && 1 <= k <= |s|
    ensures AtOrBelow(s, v) >= k <==> s[k - 1] <= v
  {
    var n := |s| - 1;
    if k <= n { RankIsCount(s[..n], v, k); }
    if n > 0 { RankIsCount(s[..n], v, n); }
  }

  /** _percentile(values, q) */
  function Percentile(values: seq<real>, q: real): Option<real> {
    if values == [] then None else Some(Sorted(values)[HalfEvenRank(|values|, q) - 1])
  }

  /** pct(sorted(values), q) */
  function Pct(values: seq<real>, q: real): real
    requires values != [] && q >= 0.0
  {
    Sorted(values)[TruncatedRank(|values|, q) - 1]
  }

  /** A sample with the share of all samples at or below it. */
  predicate HasShare(values: seq<real>, q: real, v: real) {
    v in values && Covers(|values|, q, AtOrBelow(values, v))
  }

  ghost predicate LeastWithShare(values: seq<real>, q: real, v: real) {
    HasShare(values, q, v) && forall w :: HasShare(values, q, w) ==> v <= w
  }

  lemma LeastIsUnique(values: seq<real>, q: real, v: real, w: real)
    requires LeastWithShare(values, q, v)
    ensures LeastWithShare(values, q, w) <==> w == v
  {
  }

  lemma {:induction false} RankedSample(values: seq<real>, r: nat, q: real)
    requires 1 <= r <= |values| && Covers(|values|, q, r)
    ensures HasShare(values, q, Sorted(values)[r - 1])
    ensures NearestRank(|values|, q, r) ==> LeastWithShare(values, q, Sorted(values)[r - 1])
  {
    hide AtOrBelow;
    var s := Sorted(values);
    var v := s[r - 1];
    assert v in multiset(s);
    RankIsCount(s, v, r);
    SortingKeepsCounts(values, v);
    if NearestRank(|values|, q, r) {
      forall w | HasShare(values, q, w) ensures v <= w {
        SortingKeepsCounts(values, w);
        assert w in multiset(s);
        var i :| 0 <= i < |s| && s[i] == w;
        RankIsCount(s, w, i + 1);
        assert !(1 <= AtOrBelow(values, w) < r);
        RankIsCount(s, w, r);
      }
    }
  }

  /** How many samples are below `v`. */
  function Below(values: seq<real>, v: real): (c: nat)
    ensures c <= |values|
  {
    if values == [] then 0
    else Below(values[..|values| - 1], v) + if values[|values| - 1] < v then 1 else 0
  }

  /** The positions of the samples below `v`. */
  function PositionsBelow(values: seq<real>, v: real): set<int> {
    set i | 0 <= i < |values| && values[i] < v
  }

  /** And of those at or below it. */
  function PositionsUpTo(values: seq<real>, v: real): set<int> {
    set i | 0 <= i < |values| && values[i] <= v
  }

  lemma {:induction false} BelowIsPositions(values: seq<real>, v: real)
    ensures Below(values, v) == |PositionsBelow(values, v)|
  {
    if values == [] {
      assert PositionsBelow(values, v) == {};
    } else {
      var n := |values| - 1;
      BelowIsPositions(values[..n], v);
      assert PositionsBelow(values, v) == PositionsBelow(values[..n], v) + if values[n] < v then {n} else {};
    }
  }

  /** Both counts are what they say. */
  lemma {:induction false} CountsArePositions(values: seq<real>, v: real)
    ensures Below(values, v) == |PositionsBelow(values, v)|
    ensures AtOrBelow(values, v) == |PositionsUpTo(values, v)|
  {
    hide Below, PositionsBelow;
    BelowIsPositions(values, v);
    if values == [] {
      assert PositionsUpTo(values, v) == {};
    } else {
      var n := |values| - 1;
      CountsArePositions(values[..n], v);
      assert PositionsUpTo(values, v) == PositionsUpTo(values[..n], v) + if values[n] <= v then {n} else {};
    }
  }

  lemma {:induction false} BelowAdds(a: seq<real>, b: seq<real>, v: real)
    ensures Below(a + b, v) == Below(a, v) + Below(b, v)
  {
    if b == [] {
      assert a + b == a;
    } else {
      var front := b[..|b| - 1];
      assert (a + b)[..|a + b| - 1] == a + front;
      BelowAdds(a, front, v);
    }
  }

  lemma {:induction false} InsertKeepsBelow(s: seq<real>, x: real, v: real)
    ensures Below(Insert(s, x), v) == Below(s, v) + Below([x], v)
  {
    if s == [] || x <= s[0] {
      BelowAdds([x], s, v);
    } else {
      InsertKeepsBelow(s[1..], x, v);
      BelowAdds([s[0]], s[1..], v);
      assert s == [s[0]] + s[1..];
      BelowAdds([s[0]], Insert(s[1..], x), v);
    }
  }

  lemma {:induction false} SortingKeepsBelow(values: seq<real>, v: real)
    ensures Below(Sorted(values), v) == Below(values, v)
  {
    if values != [] {
      var n := |values| - 1;
      SortingKeepsBelow(values[..n], v);
      InsertKeepsBelow(Sorted(values[..n]), values[n], v);
    }
  }

  /** In sorted samples, fewer than k are below the k-th. */
  lemma {:induction false} FewBelowRank(s: seq<real>, v: real, k: nat)
    requires Ascending(s) && 1 <= k <= |s| && v <= s[k - 1]
    ensures Below(s, v) <= k - 1
  {
    var n := |s| - 1;
    if k <= n { FewBelowRank(s[..n], v, k); }
  }

  /** `v` is a q-quantile: the share is at or below it, and no more than the share is below it. */
  predicate Quantile(values: seq<real>, q: real, v: real) {
    HasShare(values, q, v) && Below(values, v) as real <= q * |values| as real
  }

  /** A rank that covers the share and no whole sample more is a quantile. */
  lemma {:induction false} RankIsQuantile(values: seq<real>, r: nat, q: real)
    requires 1 <= r <= |values| && Covers(|values|, q, r) && (r - 1) as real <= q * |values| as real
    ensures Quantile(values, q, Sorted(values)[r - 1])
  {
    hide AtOrBelow, Below, Sorted;
    var v := Sorted(values)[r - 1];
    RankedSample(values, r, q);
    FewBelowRank(Sorted(values), v, r);
    SortingKeepsBelow(values, v);
  }

  /** Whatever they are called, both rules report a quantile for every share and every list. */
  lemma {:induction false} BothAreQuantiles(values: seq<real>, q: real)
    requires values != [] && 0.0 <= q <= 1.0
    ensures Percentile(values, q).Some? && Quantile(values, q, Percentile(values, q).value)
    ensures Quantile(values, q, Pct(values, q))
  {
    hide Sorted, HasShare, Quantile, RoundHalfEven;
    var n, x := |values|, q * |values| as real;
    ShareWithinSamples(n, q);
    BothRanksCover(n, q);
    RoundedHalfUp(x);
    FloorBounds(x);
    assert (HalfEvenRank(n, q) - 1) as real <= x;
    assert (TruncatedRank(n, q) - 1) as real <= x;
    RankIsQuantile(values, HalfEvenRank(n, q), q);
    RankIsQuantile(values, TruncatedRank(n, q), q);
  }

  /** What the ledger reports: a sample with the share at or below it. It is the least such sample exactly unless
      the share is an odd number of samples and the next one up differs; then it is that one. */
  lemma {:induction false} PercentileMeaning(values: seq<real>, q: real)
    requires values != [] && q <= 1.0
    ensures HasShare(values, q, Percentile(values, q).value)
    ensures !OddShare(|values|, q) ==> LeastWithShare(values, q, Percentile(values, q).value)
    ensures OddShare(|values|, q) ==> var r := HalfEvenRank(|values|, q);
                                      r > 1 && LeastWithShare(values, q, Sorted(values)[r - 2])
    ensures var s, r := Sorted(values), HalfEvenRank(|values|, q);
            LeastWithShare(values, q, Percentile(values, q).value) <==> !(OddShare(|values|, q) && s[r - 2] != s[r - 1])
  {
    hide Sorted, AtOrBelow, HasShare, LeastWithShare, NearestRank, HalfEvenRank, Covers, OddShare;
    BothRanksCover(|values|, q);
    HalfEvenIsNearestIff(|values|, q);
    RankedSample(values, HalfEvenRank(|values|, q), q);
    if OddShare(|values|, q) {
      var r := HalfEvenRank(|values|, q);
      RankedSample(values, r - 1, q);
      LeastIsUnique(values, q, Sorted(values)[r - 2], Sorted(values)[r - 1]);
    }
  }

  /** The same of the replay's percentile, with any whole number of samples as the exception. */
  lemma {:induction false} PctMeaning(values: seq<real>, q: real)
    requires values != [] && 0.0 <= q <= 1.0
    ensures HasShare(values, q, Pct(values, q))
    ensures !WholeShare(|values|, q) ==> LeastWithShare(values, q, Pct(values, q))
    ensures WholeShare(|values|, q) ==> var r := TruncatedRank(|values|, q);
                                        r > 1 && LeastWithShare(values, q, Sorted(values)[r - 2])
    ensures var s, r := Sorted(values), TruncatedRank(|values|, q);
            LeastWithShare(values, q, Pct(values, q)) <==> !(WholeShare(|values|, q) && s[r - 2] != s[r - 1])
  {
    hide Sorted, AtOrBelow, HasShare, LeastWithShare, NearestRank, TruncatedRank, Covers, WholeShare;
    BothRanksCover(|values|, q);
    TruncatedIsNearestIff(|values|, q);
    RankedSample(values, TruncatedRank(|values|, q), q);
    if WholeShare(|values|, q) {
      var r := TruncatedRank(|values|, q);
      RankedSample(values, r - 1, q);
      LeastIsUnique(values, q, Sorted(values)[r - 2], Sorted(values)[r - 1]);
    }
  }

  /** The exception is real: the median of two samples is the larger one, though the smaller has half of
      them at or below it. */
  lemma MedianOfTwoIsTheLarger(a: real, b: real)
    requires a < b
    ensures Percentile([a, b], 0.5) == Some(b) && Percentile([b, a], 0.5) == Some(b)
    ensures HasShare([a, b], 0.5, a)
  {
    assert HalfEvenRank(2, 0.5) == 2;
    SortedPair(a, b);
    assert [a, b][..1] == [a] && [a][..0] == [];
  }

  /** And of the other rule: on two samples it agrees with this one, on four it reports the third where the
      second already has half of them at or below it. */
  lemma {:induction false} PctPassesTheMedian(a: real, b: real, c: real, d: real)
    requires a < b < c < d
    ensures Pct([a, b], 0.5) == b && HasShare([a, b], 0.5, a)
    ensures Pct([a, b, c, d], 0.5) == c && HasShare([a, b, c, d], 0.5, b)
    ensures Percentile([a, b, c, d], 0.5) == Some(b)
  {
    hide Sorted, AtOrBelow, HasShare, HalfEvenRank, TruncatedRank, Covers;
    MedianOfTwoIsTheLarger(a, b);
    MedianRanks();
    var two, four := [a, b], [a, b, c, d];
    AscendingIsSorted(two);
    AscendingIsSorted(four);
    RankedSample(four, 2, 0.5);
  }

  lemma MedianRanks()
    ensures TruncatedRank(2, 0.5) == 2 && TruncatedRank(4, 0.5) == 3 && HalfEvenRank(4, 0.5) == 2
    ensures Covers(4, 0.5, 2)
  {
  }

  lemma SortedUnfolds(values: seq<real>)
    requires values != []
    ensures Sorted(values) == Insert(Sorted(values[..|values| - 1]), values[|values| - 1])
  {
  }

  lemma AscendingFront(values: seq<real>)
    requires Ascending(values) && values != []
    ensures var n := |values| - 1;
            Ascending(values[..n]) && forall i :: 0 <= i < n ==> values[..n][i] <= values[n]
  {
  }

  /** Sorting leaves ascending samples as they are. */
  lemma {:induction false} AscendingIsSorted(values: seq<real>)
    requires Ascending(values)
    ensures Sorted(values) == values
  {
    if values == [] {
      assert Sorted([]) == [];
    } else {
      hide Insert, Sorted;
      var n := |values| - 1;
      AscendingFront(values);
      hide Ascending;
      AscendingIsSorted(values[..n]);
      SortedUnfolds(values);
      InsertLast(values[..n], values[n]);
      assert values == values[..n] + [values[n]];
    }
  }

  lemma {:induction false} InsertLast(s: seq<real>, x: real)
    requires forall i :: 0 <= i < |s| ==> s[i] <= x
    requires Ascending(s)
    ensures Ascending(Insert(s, x)) && Insert(s, x) == s + [x]
  {
    InsertAscends(s, x);
    if s != [] {
      if x <= s[0] {
        assert forall i :: 0 <= i < |s| ==> s[i] == x;
        assert [x] + s == s + [x];
      } else {
        InsertLast(s[1..], x);
        assert [s[0]] + (s[1..] + [x]) == s + [x];
      }
    }
  }

  lemma SortedPair(a: real, b: real)
    requires a < b
    ensures Sorted([a, b]) == [a, b] && Sorted([b, a]) == [a, b]
  {
    assert [a, b][..1] == [a] && [b, a][..1] == [b] && [a][..0] == [] && [b][..0] == [];
    assert Sorted([a]) == [a] && Sorted([b]) == [b];
    assert [a][1..] == [];
    assert Insert([a], b) == [a, b];
  }
}
