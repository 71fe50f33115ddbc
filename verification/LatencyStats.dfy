/**
 The latency summary of agent review: a truncated mean, the nearest-rank 95th percentile and the maximum.
 */
module LatencyStats {
  import opened Basics
  import opened Ordering

  datatype Stats = Stats(count: nat, averageMs: int, p95Ms: int, maxMs: int)

  function Sum(values: seq<int>): int {
    if values == [] then 0 else Sum(values[..|values| - 1]) + values[|values| - 1]
  }

  /** `int(a / n)`: division that truncates toward zero. */
  function TruncatedQuotient(a: int, n: nat): int
    requires n > 0
  {
    if a >= 0 then a / n else -((-a) / n)
  }

  function ByValue(v: int): Rank {
    (v, "")
  }

  function Ordered(values: seq<int>): seq<int> {
    SortByRank(values, ByValue)
  }

  /** `max(0, ceil(n * 0.95) - 1)` */
  function P95Index(n: nat): (i: nat)
    requires n > 0
    ensures i < n
  {
    (95 * n + 99) / 100 - 1
  }

  lemma OrderedIsSorted(values: seq<int>)
    ensures multiset(Ordered(values)) == multiset(values) && |Ordered(values)| == |values|
    ensures forall i, j :: 0 <= i <= j < |Ordered(values)| ==> Ordered(values)[i] <= Ordered(values)[j]
  {
    SortByRankSorts(values, ByValue);
    var ordered := Ordered(values);
    assert |ordered| == |multiset(ordered)| == |multiset(values)| == |values|;
    forall i, j | 0 <= i <= j < |ordered|
      ensures ordered[i] <= ordered[j]
    {
      if i < j {
        assert RankLeq(ByValue(ordered[i]), ByValue(ordered[j]));
      }
    }
  }

  function LatencyStatsOf(values: seq<int>): Stats {
    if values == [] then Stats(0, 0, 0, 0)
    else
      OrderedIsSorted(values);
      var ordered := Ordered(values);
      Stats(|ordered|, TruncatedQuotient(Sum(ordered), |ordered|), ordered[P95Index(|ordered|)], ordered[|ordered| - 1])
  }

  function CountAtMost(values: seq<int>, x: int): nat {
    if values == [] then 0
    else CountAtMost(values[..|values| - 1], x) + (if values[|values| - 1] <= x then 1 else 0)
  }

  function Without(b: seq<int>, k: nat): seq<int>
    requires k < |b|
  {
    b[..k] + b[k + 1..]
  }

  lemma RemoveOne(b: seq<int>, k: nat, x: int)
    requires k < |b|
    ensures multiset(Without(b, k)) == multiset(b) - multiset{b[k]}
    ensures CountAtMost(b, x) == CountAtMost(Without(b, k), x) + (if b[k] <= x then 1 else 0)
  {
    var head, tail := b[..k], b[k + 1..];
    assert b == head + [b[k]] + tail;
    CountConcat(head + [b[k]], tail, x);
    CountConcat(head, [b[k]], x);
    CountConcat(head, tail, x);
    assert [b[k]][..0] == [];
  }

  /** The number of values up to `x` does not depend on their order. */
  lemma {:induction false} CountPermutes(a: seq<int>, b: seq<int>, x: int)
    requires multiset(a) == multiset(b)
    ensures CountAtMost(a, x) == CountAtMost(b, x)
    decreases |a|
  {
    if a == [] {
      assert |b| == |multiset(b)| == |multiset(a)| == 0;
    } else {
      assert a[0] in multiset(b);
      var k :| 0 <= k < |b| && b[k] == a[0];
      RemoveOne(a, 0, x);
      RemoveOne(b, k, x);
      CountPermutes(Without(a, 0), Without(b, k), x);
    }
  }

  lemma {:induction false} CountConcat(a: seq<int>, b: seq<int>, x: int)
    ensures CountAtMost(a + b, x) == CountAtMost(a, x) + CountAtMost(b, x)
  {
    if b == [] {
      assert a + b == a;
    } else {
      CountConcat(a, b[..|b| - 1], x);
      assert (a + b)[..|a + b| - 1] == a + b[..|b| - 1];
    }
  }

  /** In a sorted list at least `i + 1` values are up to the one at `i`. */
  lemma {:induction false} SortedCount(ordered: seq<int>, i: nat, x: int)
    requires forall i, j :: 0 <= i <= j < |ordered| ==> ordered[i] <= ordered[j]
    requires i <= |ordered|
    ensures (forall k :: 0 <= k < i ==> ordered[k] <= x) ==> CountAtMost(ordered, x) >= i
    ensures (forall k :: i <= k < |ordered| ==> ordered[k] > x) ==> CountAtMost(ordered, x) <= i
    ensures CountAtMost(ordered, x) <= |ordered|
  {
    if ordered != [] {
      var init := ordered[..|ordered| - 1];
      SortedCount(init, if i < |ordered| then i else i - 1, x);
    }
  }

  /**
   The reported percentile is the nearest-rank one: at least 95 percent of the latencies are at most the
   reported value, and below any smaller value there are fewer than 95 percent.
   */
  lemma P95IsNearestRank(values: seq<int>, smaller: int)
    requires values != []
    ensures LatencyStatsOf(values).p95Ms in values
    ensures 100 * CountAtMost(values, LatencyStatsOf(values).p95Ms) >= 95 * |values|
    ensures smaller < LatencyStatsOf(values).p95Ms ==> 100 * CountAtMost(values, smaller) < 95 * |values|
  {
    OrderedIsSorted(values);
    var ordered := Ordered(values);
    var i := P95Index(|ordered|);
    hide Ordered, CountAtMost;
    SortedCount(ordered, i + 1, ordered[i]);
    CountPermutes(values, ordered, ordered[i]);
    SortedCount(ordered, i, smaller);
    CountPermutes(values, ordered, smaller);
    assert ordered[i] in multiset(ordered);
  }

  lemma {:induction false} SumConcat(a: seq<int>, b: seq<int>)
    ensures Sum(a + b) == Sum(a) + Sum(b)
  {
    if b == [] {
      assert a + b == a;
    } else {
      SumConcat(a, b[..|b| - 1]);
      assert (a + b)[..|a + b| - 1] == a + b[..|b| - 1];
    }
  }

  lemma SumOne(x: int)
    ensures Sum([x]) == x
  {
    assert [x][..0] == [];
  }

  lemma RemoveSummand(b: seq<int>, k: nat)
    requires k < |b|
    ensures Sum(b) == Sum(Without(b, k)) + b[k]
  {
    hide Sum;
    var head, tail := b[..k], b[k + 1..];
    assert b == head + [b[k]] + tail;
    SumConcat(head + [b[k]], tail);
    SumConcat(head, [b[k]]);
    SumConcat(head, tail);
    SumOne(b[k]);
  }

  lemma {:induction false} SumPermutes(a: seq<int>, b: seq<int>)
    requires multiset(a) == multiset(b)
    ensures Sum(a) == Sum(b)
    decreases |a|
  {
    if a == [] {
      assert |b| == |multiset(b)| == |multiset(a)| == 0;
    } else {
      assert a[0] in multiset(b);
      var k :| 0 <= k < |b| && b[k] == a[0];
      RemoveOne(a, 0, 0);
      RemoveOne(b, k, 0);
      RemoveSummand(a, 0);
      RemoveSummand(b, k);
      SumPermutes(Without(a, 0), Without(b, k));
    }
  }

  /** The quotient of which the truncated one is the part without the fraction. */
  lemma TruncatedIs(a: int, n: nat)
    requires n > 0
    ensures var q := TruncatedQuotient(a, n);
            && (a >= 0 ==> 0 <= q && 0 <= a - n * q < n)
            && (a < 0 ==> q <= 0 && 0 <= n * q - a < n)
  {
    var b := if a >= 0 then a else -a;
    DivisionIs(b, n);
    assert a < 0 ==> n * -(b / n) == -(n * (b / n));
  }

  lemma DivisionIs(b: nat, n: nat)
    requires n > 0
    ensures b / n >= 0 && 0 <= b - n * (b / n) < n
  {
    assert b == n * (b / n) + b % n;
  }

  /** The count, the truncated mean and the maximum are those of the values, in whatever order they come. */
  lemma StatsAre(values: seq<int>)
    requires values != []
    ensures var stats := LatencyStatsOf(values);
            && stats.count == |values|
            && stats.averageMs == TruncatedQuotient(Sum(values), |values|)
            && stats.maxMs in values && forall i :: 0 <= i < |values| ==> values[i] <= stats.maxMs
  {
    OrderedIsSorted(values);
    var ordered := Ordered(values);
    SumPermutes(values, ordered);
    hide Ordered, Sum, TruncatedQuotient;
    assert ordered[|ordered| - 1] in multiset(ordered);
    forall i | 0 <= i < |values|
      ensures values[i] <= ordered[|ordered| - 1]
    {
      assert values[i] in multiset(ordered);
      var k :| 0 <= k < |ordered| && ordered[k] == values[i];
    }
  }
}
