/**
 Small datatypes and sequence facts shared by the models of the Ruhu agent code.
 */
module Basics {

  datatype Option<+T> = None | Some(value: T)

  /** The source's exceptions become the `Err` case. */
  datatype Result<+T, +E> = Ok(value: T) | Err(error: E)

  /** No two positions hold the same element: `len(xs) == len(set(xs))`. */
  ghost predicate Distinct<T>(xs: seq<T>) {
    forall i, j :: 0 <= i < j < |xs| ==> xs[i] != xs[j]
  }

  function ToSet<T(==)>(xs: seq<T>): set<T> {
    set x | x in xs
  }

  /** Python's `len(xs) == len(set(xs))` test is exactly pairwise distinctness. */
  lemma {:induction false} DistinctByCount<T>(xs: seq<T>)
    ensures |ToSet(xs)| <= |xs|
    ensures |ToSet(xs)| == |xs| <==> Distinct(xs)
  {
    if xs == [] {
    } else {
      var init, last := xs[..|xs| - 1], xs[|xs| - 1];
      DistinctByCount(init);
      assert xs == init + [last];
      assert ToSet(xs) == ToSet(init) + {last};
      if last in init {
        var k :| 0 <= k < |init| && init[k] == last;
        assert xs[k] == xs[|xs| - 1];
        assert ToSet(xs) == ToSet(init);
      } else {
        assert last !in ToSet(init);
        if Distinct(init) {
          assert Distinct(xs);
        } else {
          var i, j :| 0 <= i < j < |init| && init[i] == init[j];
          assert xs[i] == xs[j];
        }
      }
    }
  }

  lemma SubsetSize<T>(a: set<T>, b: set<T>)
    requires a <= b
    ensures |a| <= |b|
  {
    assert b == a + (b - a);
  }

  lemma SliceSnoc<T>(s: seq<T>, a: nat, b: nat)
    requires a <= b < |s|
    ensures s[a..b + 1] == s[a..b] + [s[b]]
  {
  }

  lemma SliceOfSlice<T>(s: seq<T>, lo: nat, hi: nat, a: nat, b: nat)
    requires lo <= hi <= |s| && a <= b <= hi - lo
    ensures s[lo..hi][a..b] == s[lo + a..lo + b]
  {
    var outer := s[lo..hi];
    var x, y := outer[a..b], s[lo + a..lo + b];
    assert forall k :: 0 <= k < |x| ==> x[k] == outer[a + k] == s[lo + (a + k)] == y[k];
  }

  lemma SplitThree<T>(s: seq<T>, lo: nat, hi: nat)
    requires lo <= hi <= |s|
    ensures s == s[..lo] + s[lo..hi] + s[hi..]
  {
  }

  lemma MiddleOfThree<T>(a: seq<T>, b: seq<T>, c: seq<T>)
    ensures (a + b + c)[|a|..|a| + |b|] == b
    ensures (a + b + c)[..|a|] == a
    ensures (a + b + c)[|a| + |b|..] == c
  {
  }

  // ----- choosing some items of a sequence, in order -----

  /** The positions `at` are those of the items kept, ascending, and `picked` holds their images. */
  ghost predicate PicksAt<T, U>(items: seq<T>, picked: seq<U>, keep: T -> bool, image: T -> U, at: seq<nat>) {
    && |at| == |picked|
    && (forall j :: 0 <= j < |at| ==> at[j] < |items| && picked[j] == image(items[at[j]]))
    && (forall j, k :: 0 <= j < k < |at| ==> at[j] < at[k])
    && (forall i: nat :: i < |items| ==> (i in at <==> keep(items[i])))
  }

  /** `[image(x) for x in items if keep(x)]` */
  ghost predicate Picks<T, U>(items: seq<T>, picked: seq<U>, keep: T -> bool, image: T -> U) {
    exists at :: PicksAt(items, picked, keep, image, at)
  }

  lemma PicksNone<T, U>(keep: T -> bool, image: T -> U)
    ensures Picks([], [], keep, image)
  {
    var none: seq<nat> := [];
    assert PicksAt([], [], keep, image, none);
  }

  lemma PicksSnoc<T, U>(items: seq<T>, picked: seq<U>, keep: T -> bool, image: T -> U, x: T)
    requires Picks(items, picked, keep, image)
    ensures Picks(items + [x], picked + (if keep(x) then [image(x)] else []), keep, image)
  {
    var at :| PicksAt(items, picked, keep, image, at);
    var n: nat := |items|;
    var at' := at + (if keep(x) then [n] else []);
    assert n !in at;
    forall i: nat | i < |items + [x]|
      ensures i in at' <==> keep((items + [x])[i])
    {
    }
    assert PicksAt(items + [x], picked + (if keep(x) then [image(x)] else []), keep, image, at');
  }
}
