/**
 Python's `sorted` on strings, on sets of keys, and on (int, string) sort keys.
 */
module Ordering {

  /** Python's `a <= b` on strings: code point by code point, a prefix first. */
  predicate StrLeq(a: string, b: string) {
    a == [] || (b != [] && (a[0] < b[0] || (a[0] == b[0] && StrLeq(a[1..], b[1..]))))
  }

  predicate StrLess(a: string, b: string) {
    StrLeq(a, b) && a != b
  }

  lemma StrTotal(a: string, b: string)
    ensures StrLeq(a, b) || StrLeq(b, a)
  {
  }

  lemma {:induction false} StrAntisymmetric(a: string, b: string)
    requires StrLeq(a, b) && StrLeq(b, a)
    ensures a == b
  {
    if a != [] {
      StrAntisymmetric(a[1..], b[1..]);
      assert a == [a[0]] + a[1..] && b == [b[0]] + b[1..];
    }
  }

  lemma {:induction false} StrTransitive(a: string, b: string, c: string)
    requires StrLeq(a, b) && StrLeq(b, c)
    ensures StrLeq(a, c)
  {
    if a != [] && a[0] == b[0] == c[0] {
      StrTransitive(a[1..], b[1..], c[1..]);
    }
  }

  // ----- sorted(set) -----

  predicate StrictlySorted(keys: seq<string>) {
    forall i, j :: 0 <= i < j < |keys| ==> StrLess(keys[i], keys[j])
  }

  /** A non-empty set of strings has a least element. */
  lemma LeastExists(s: set<string>)
    requires s != {}
    ensures exists m :: IsLeast(m, s)
  {
    var x :| x in s;
    var rest := s - {x};
    if rest == {} {
      StrTotal(x, x);
      assert s == {x};
      assert IsLeast(x, s);
    } else {
      LeastExists(rest);
      var m :| IsLeast(m, rest);
      StrTotal(x, m);
      StrTotal(x, x);
      if StrLeq(x, m) {
        forall k | k in s
          ensures StrLeq(x, k)
        {
          if k != x {
            StrTransitive(x, m, k);
          }
        }
        assert IsLeast(x, s);
      } else {
        assert IsLeast(m, s);
      }
    }
  }

  predicate IsLeast(m: string, s: set<string>) {
    m in s && forall k :: k in s ==> StrLeq(m, k)
  }

  lemma LeastUnique(s: set<string>, a: string, b: string)
    requires IsLeast(a, s) && IsLeast(b, s)
    ensures a == b
  {
    StrAntisymmetric(a, b);
  }

  function Least(s: set<string>): (m: string)
    requires s != {}
    ensures IsLeast(m, s)
  {
    LeastExists(s);
    assert forall a, b :: IsLeast(a, s) && IsLeast(b, s) ==> a == b by {
      forall a, b | IsLeast(a, s) && IsLeast(b, s)
        ensures a == b
      {
        LeastUnique(s, a, b);
      }
    }
    var m :| IsLeast(m, s);
    m
  }

  /** `sorted(s)` for a set of strings. */
  function SortedKeys(s: set<string>): (keys: seq<string>)
    ensures StrictlySorted(keys)
    ensures forall k :: k in keys <==> k in s
    ensures forall i :: 0 <= i < |keys| ==> keys[i] in s
    ensures |keys| == |s|
    decreases |s|
  {
    if s == {} then []
    else
      var m := Least(s);
      var rest := SortedKeys(s - {m});
      assert s == {m} + (s - {m});
      [m] + rest
  }

  // ----- sorted(items, key=(number, id)) -----

  type Rank = (int, string)

  predicate RankLeq(a: Rank, b: Rank) {
    a.0 < b.0 || (a.0 == b.0 && StrLeq(a.1, b.1))
  }

  lemma RankTotal(a: Rank, b: Rank)
    ensures RankLeq(a, b) || RankLeq(b, a)
  {
    StrTotal(a.1, b.1);
  }

  lemma RankAntisymmetric(a: Rank, b: Rank)
    requires RankLeq(a, b) && RankLeq(b, a)
    ensures a == b
  {
    StrAntisymmetric(a.1, b.1);
  }

  lemma RankTransitive(a: Rank, b: Rank, c: Rank)
    requires RankLeq(a, b) && RankLeq(b, c)
    ensures RankLeq(a, c)
  {
    if a.0 == b.0 == c.0 {
      StrTransitive(a.1, b.1, c.1);
    }
  }

  predicate Sorted<T(!new)>(items: seq<T>, rank: T -> Rank) {
    forall i, j :: 0 <= i < j < |items| ==> RankLeq(rank(items[i]), rank(items[j]))
  }

  /** Before every later item of strictly greater rank, after every item of the same rank: the sort is stable. */
  function Insert<T(!new)>(item: T, items: seq<T>, rank: T -> Rank): seq<T> {
    if items == [] then [item]
    else if RankLeq(rank(items[|items| - 1]), rank(item)) then items + [item]
    else Insert(item, items[..|items| - 1], rank) + [items[|items| - 1]]
  }

  function SortByRank<T(!new)>(items: seq<T>, rank: T -> Rank): seq<T> {
    if items == [] then []
    else Insert(items[|items| - 1], SortByRank(items[..|items| - 1], rank), rank)
  }

  lemma SortedSnoc<T(!new)>(items: seq<T>, last: T, rank: T -> Rank)
    requires Sorted(items, rank)
    requires forall i :: 0 <= i < |items| ==> RankLeq(rank(items[i]), rank(last))
    ensures Sorted(items + [last], rank)
  {
    hide RankLeq;
    RankTotal(rank(last), rank(last));
  }

  lemma BelowLast<T(!new)>(items: seq<T>, rank: T -> Rank, item: T)
    requires Sorted(items, rank) && items != [] && RankLeq(rank(items[|items| - 1]), rank(item))
    ensures forall i :: 0 <= i < |items| ==> RankLeq(rank(items[i]), rank(item))
  {
    hide RankLeq;
    var last := items[|items| - 1];
    forall i | 0 <= i < |items|
      ensures RankLeq(rank(items[i]), rank(item))
    {
      if i < |items| - 1 {
        RankTransitive(rank(items[i]), rank(last), rank(item));
      }
    }
  }

  lemma {:induction false} InsertSorted<T(!new)>(item: T, items: seq<T>, rank: T -> Rank)
    requires Sorted(items, rank)
    ensures Sorted(Insert(item, items, rank), rank)
    ensures multiset(Insert(item, items, rank)) == multiset(items) + multiset{item}
  {
    hide RankLeq;
    if items == [] {
      RankTotal(rank(item), rank(item));
    } else {
      var init, last := items[..|items| - 1], items[|items| - 1];
      assert items == init + [last];
      if RankLeq(rank(last), rank(item)) {
        BelowLast(items, rank, item);
        SortedSnoc(items, item, rank);
      } else {
        RankTotal(rank(item), rank(last));
        InsertSorted(item, init, rank);
        InsertedBelow(item, init, last, rank);
        SortedSnoc(Insert(item, init, rank), last, rank);
      }
    }
  }

  lemma InsertedBelow<T(!new)>(item: T, init: seq<T>, last: T, rank: T -> Rank)
    requires Sorted(init + [last], rank) && RankLeq(rank(item), rank(last))
    requires multiset(Insert(item, init, rank)) == multiset(init) + multiset{item}
    ensures var inner := Insert(item, init, rank);
            forall i :: 0 <= i < |inner| ==> RankLeq(rank(inner[i]), rank(last))
  {
    hide RankLeq, Insert;
    var inner, items := Insert(item, init, rank), init + [last];
    forall i | 0 <= i < |inner|
      ensures RankLeq(rank(inner[i]), rank(last))
    {
      assert inner[i] in multiset(inner);
      if inner[i] != item {
        assert inner[i] in init by { assert inner[i] in multiset(init); }
        var k :| 0 <= k < |init| && init[k] == inner[i];
        assert items[k] == init[k] && items[|init|] == last;
      }
    }
  }

  /** `sorted` returns the same items in order of rank. */
  lemma {:induction false} SortByRankSorts<T(!new)>(items: seq<T>, rank: T -> Rank)
    ensures Sorted(SortByRank(items, rank), rank)
    ensures multiset(SortByRank(items, rank)) == multiset(items)
  {
    if items != [] {
      var init, last := items[..|items| - 1], items[|items| - 1];
      assert items == init + [last];
      SortByRankSorts(init, rank);
      InsertSorted(last, SortByRank(init, rank), rank);
    }
  }

  lemma SortByRankMembers<T(!new)>(items: seq<T>, rank: T -> Rank, item: T)
    ensures item in SortByRank(items, rank) <==> item in items
  {
    SortByRankSorts(items, rank);
    assert item in SortByRank(items, rank) <==> item in multiset(SortByRank(items, rank));
    assert item in items <==> item in multiset(items);
  }

  function WithRank<T(!new)>(items: seq<T>, rank: T -> Rank, r: Rank): seq<T> {
    if items == [] then []
    else
      var last := items[|items| - 1];
      WithRank(items[..|items| - 1], rank, r) + if rank(last) == r then [last] else []
  }

  lemma {:induction false} InsertStable<T(!new)>(item: T, items: seq<T>, rank: T -> Rank, r: Rank)
    ensures WithRank(Insert(item, items, rank), rank, r) ==
            WithRank(items, rank, r) + if rank(item) == r then [item] else []
  {
    hide RankLeq;
    if items == [] {
      assert [item][..0] == [];
    } else {
      var init, last := items[..|items| - 1], items[|items| - 1];
      if RankLeq(rank(last), rank(item)) {
        assert (items + [item])[..|items|] == items;
      } else {
        RankTotal(rank(item), rank(item));
        InsertStable(item, init, rank, r);
        var inner := Insert(item, init, rank);
        assert (inner + [last])[..|inner|] == inner;
      }
    }
  }

  /** The sort is stable: items of the same rank keep their order. */
  lemma {:induction false} SortByRankStable<T(!new)>(items: seq<T>, rank: T -> Rank, r: Rank)
    ensures WithRank(SortByRank(items, rank), rank, r) == WithRank(items, rank, r)
  {
    if items != [] {
      var init, last := items[..|items| - 1], items[|items| - 1];
      SortByRankStable(init, rank, r);
      InsertStable(last, SortByRank(init, rank), rank, r);
    }
  }
}
