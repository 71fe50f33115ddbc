/**
 What a run of the credential backfill achieves: which rows it writes, how far the cap lets it go, and exactly
 when it leaves nothing behind.
 */
module BackfillTheorems {
  import opened Basics
  import opened ToolValues
  import opened Backfill

  /** A batch that is not empty moves the cursor to the largest key it saw, beyond the old cursor. */
  lemma CursorIncreases(rows: seq<Row>, after: Option<int>, limit: nat)
    requires Keyed(rows)
    ensures var found := Fetch(rows, after, limit);
            found != [] ==>
              var cursor := CursorAt(found, after, |found|);
              && cursor.Some? && Beyond(after, cursor.value)
              && forall k :: 0 <= k < |found| ==> found[k].id <= cursor.value
  {
    hide EligibleAfter, Eligible;
    FoundKeyed(rows, after);
    var found := Fetch(rows, after, limit);
    if found != [] {
      var i := FoundIn(rows, after, |found| - 1);
    }
  }

  /** The rows a run changes are the ones with something to convert up to the last cursor. */
  lemma ChangedRows(before: seq<Row>, now: seq<Row>, after: Option<int>, upto: Option<int>, cipher: Cipher, i: nat)
    requires ConvertedWithin(before, now, after, upto, cipher) && i < |before|
    ensures now[i] != before[i] <==> Convertible(before[i]) && Within(after, upto, before[i].id)
    ensures now[i] != before[i] ==> now[i] == Converted(before[i], cipher) && !Convertible(now[i])
  {
    hide Convertible, Converted, Within;
    ConvertedOnce(before[i], cipher);
  }

  lemma {:induction false} IdsOfConvertible(found: seq<Row>)
    requires Keyed(found)
    ensures forall id :: id in ConvertibleIds(found) ==>
              exists k :: 0 <= k < |found| && found[k].id == id && Convertible(found[k])
    ensures forall k :: 0 <= k < |found| && Convertible(found[k]) ==> found[k].id in ConvertibleIds(found)
  {
    hide Convertible;
    if found != [] {
      IdsOfConvertible(found[..|found| - 1]);
    }
  }

  lemma {:induction false} IdsIncrease(found: seq<Row>)
    requires Keyed(found)
    ensures forall a, b :: 0 <= a < b < |ConvertibleIds(found)| ==> ConvertibleIds(found)[a] < ConvertibleIds(found)[b]
  {
    hide Convertible;
    if found != [] {
      var init := found[..|found| - 1];
      IdsIncrease(init);
      IdsOfConvertible(init);
      var ids := ConvertibleIds(init);
      forall a | 0 <= a < |ids|
        ensures ids[a] < found[|found| - 1].id
      {
        assert ids[a] in ids;
        var k :| 0 <= k < |init| && init[k].id == ids[a] && Convertible(init[k]);
        assert found[k] == init[k];
      }
    }
  }

  /** One UPDATE at most goes to a row, and one goes to a row exactly when the row has something to convert. */
  lemma UpdatedOnce(rows: seq<Row>, end: nat, i: nat)
    requires Keyed(rows) && end <= |EligibleAfter(rows, None)| && i < |rows|
    ensures var found := EligibleAfter(rows, None);
            var ids := ConvertibleIds(found[..end]);
            && (forall a, b :: 0 <= a < b < |ids| ==> ids[a] < ids[b])
            && (rows[i].id in ids <==> Convertible(rows[i]) && Within(None, CursorAt(found, None, end), rows[i].id))
  {
    hide EligibleAfter, ConvertibleIds, Eligible, Convertible;
    FoundKeyed(rows, None);
    var found := EligibleAfter(rows, None);
    IdsOfConvertible(found[..end]);
    IdsIncrease(found[..end]);
    if rows[i].id in ConvertibleIds(found[..end]) {
      var k :| 0 <= k < end && found[..end][k].id == rows[i].id && Convertible(found[..end][k]);
      var j := FoundIn(rows, None, k);
      UniqueKey(rows, i, j);
    }
    if Convertible(rows[i]) && Within(None, CursorAt(found, None, end), rows[i].id) {
      ConvertibleIsFound(rows, i);
      var k := IsFound(rows, None, i);
      assert k < end;
      assert found[..end][k] == rows[i];
    }
  }

  lemma ConvertibleIsFound(rows: seq<Row>, i: nat)
    requires i < |rows| && Convertible(rows[i])
    ensures Wanted(rows[i], None)
  {
  }

  // ----- the cap -----

  lemma {:induction false} CountBound(rows: seq<Row>)
    ensures CountConvertible(rows) <= |rows|
  {
    if rows != [] {
      CountBound(rows[..|rows| - 1]);
    }
  }

  /** The cap is exceeded by less than one batch, and a cap of nothing writes nothing. */
  lemma {:induction false} CapOvershoot(found: seq<Row>, batch: nat, cap: int, at: nat)
    requires batch > 0 && at <= |found| && CountConvertible(found[..at]) < cap + batch
    ensures CountConvertible(found[..Scanned(found, batch, Some(cap), at)]) < cap + batch
    ensures cap <= CountConvertible(found[..at]) ==> Scanned(found, batch, Some(cap), at) == at
    decreases |found| - at
  {
    hide CountConvertible;
    var to := Upto(|found|, at, batch);
    if CountConvertible(found[..at]) < cap {
      CountSlice(found, at, to);
      CountBound(found[at..to]);
      if CountConvertible(found[at..to]) > 0 {
        assert found[at..to] != [] by { NoneInNothing(found, at); }
        CapOvershoot(found, batch, cap, to);
      }
    }
  }

  /** A scan stops only with the cap reached, or after a batch that had nothing to convert. */
  lemma {:induction false} StopsFor(found: seq<Row>, batch: nat, maxRows: Option<int>, at: nat) returns (start: nat)
    requires batch > 0 && at <= |found|
    ensures var end := Scanned(found, batch, maxRows, at);
            || (maxRows.Some? && CountConvertible(found[..end]) >= maxRows.value)
            || (at <= start <= |found| && end == Upto(|found|, start, batch) &&
                CountConvertible(found[start..end]) == 0)
    decreases |found| - at
  {
    hide CountConvertible;
    var to := Upto(|found|, at, batch);
    start := at;
    if !(maxRows.Some? && CountConvertible(found[..at]) >= maxRows.value) && CountConvertible(found[at..to]) != 0 {
      assert to > at by { NoneInNothing(found, at); }
      start := StopsFor(found, batch, maxRows, to);
    }
  }

  /** Over a table without empty values a capped scan writes up to the cap at least, or everything there is. */
  lemma CapOrEverything(rows: seq<Row>, batch: nat, cap: int)
    requires batch > 0 && forall i :: 0 <= i < |rows| ==> Solid(rows[i])
    ensures var found := EligibleAfter(rows, None);
            var end := Scanned(found, batch, Some(cap), 0);
            CountConvertible(found[..end]) >= cap || end == |found|
  {
    hide EligibleAfter, CountConvertible, Solid, Scanned;
    var found := EligibleAfter(rows, None);
    var start := StopsFor(found, batch, Some(cap), 0);
    var end := Scanned(found, batch, Some(cap), 0);
    if CountConvertible(found[..end]) < cap && start < end {
      SolidWindow(rows, start, end);
    }
  }

  lemma SolidWindow(rows: seq<Row>, start: nat, end: nat)
    requires start < end <= |EligibleAfter(rows, None)| && forall i :: 0 <= i < |rows| ==> Solid(rows[i])
    ensures CountConvertible(EligibleAfter(rows, None)[start..end]) > 0
  {
    hide EligibleAfter, CountConvertible, Convertible, Eligible, Solid, Converted;
    var window := EligibleAfter(rows, None)[start..end];
    CountIsZeroIff(window);
    var i := FoundIn(rows, None, start);
    SolidRow(rows[i], Cipher((o, c, t) => "", (o, c, t) => ""));
    assert window[0] == rows[i];
  }

  lemma NoneInNothing(found: seq<Row>, at: nat)
    requires at <= |found|
    ensures CountConvertible(found[at..at]) == 0
  {
  }

  // ----- completeness -----

  /** `start` is a multiple of the batch size. */
  predicate IsBatchStart(start: nat, batch: nat)
    requires batch > 0
  {
    start == 0 || (start >= batch && IsBatchStart(start - batch, batch))
  }

  /** A whole batch with nothing to convert that stands before a row with something to convert. */
  ghost predicate StarvedAt(found: seq<Row>, batch: nat, start: nat)
    requires batch > 0
  {
    && start < |found| && IsBatchStart(start, batch)
    && CountConvertible(found[start..Upto(|found|, start, batch)]) == 0
    && CountConvertible(found[Upto(|found|, start, batch)..]) > 0
  }

  ghost predicate Starved(found: seq<Row>, batch: nat)
    requires batch > 0
  {
    exists start :: StarvedAt(found, batch, start)
  }

  lemma TailCount(found: seq<Row>, at: nat, to: nat)
    requires at <= to <= |found|
    ensures CountConvertible(found[at..]) == CountConvertible(found[at..to]) + CountConvertible(found[to..])
  {
    hide CountConvertible;
    CountConcat(found[at..to], found[to..]);
    assert found[at..] == found[at..to] + found[to..];
  }

  lemma {:induction false} NoBatchStartBetween(at: nat, start: nat, batch: nat)
    requires batch > 0 && IsBatchStart(at, batch) && at < start < at + batch
    ensures !IsBatchStart(start, batch)
    decreases at
  {
    if at > 0 {
      NoBatchStartBetween(at - batch, start - batch, batch);
    }
  }

  /** Without a cap the scan leaves something behind exactly when a batch ahead of it is starved. */
  lemma {:induction false} LeavesSomethingIff(found: seq<Row>, batch: nat, at: nat)
    requires batch > 0 && at <= |found| && (IsBatchStart(at, batch) || at == |found|)
    ensures CountConvertible(found[Scanned(found, batch, None, at)..]) > 0 <==>
            exists start :: start >= at && StarvedAt(found, batch, start)
    decreases |found| - at
  {
    hide CountConvertible;
    var to := Upto(|found|, at, batch);
    if CountConvertible(found[at..to]) == 0 {
      if CountConvertible(found[to..]) == 0 {
        forall start | start >= at && StarvedAt(found, batch, start)
          ensures false
        {
          TailCount(found, to, Upto(|found|, start, batch));
        }
      } else {
        assert to < |found| by { NoneInNothing(found, |found|); assert found[|found|..] == found[|found|..|found|]; }
        assert StarvedAt(found, batch, at);
      }
    } else {
      NoneInNothing(found, at);
      if at == |found| {
        assert false;
      }
      LeavesSomethingIff(found, batch, to);
      forall start | start >= at && StarvedAt(found, batch, start)
        ensures start >= to
      {
        if at < start < at + batch {
          NoBatchStartBetween(at, start, batch);
        }
      }
    }
  }

  lemma {:induction false} CountIsZeroIff(rows: seq<Row>)
    ensures CountConvertible(rows) == 0 <==> forall k :: 0 <= k < |rows| ==> !Convertible(rows[k])
  {
    hide Convertible;
    if rows != [] {
      CountIsZeroIff(rows[..|rows| - 1]);
    }
  }

  /** Nothing is left to convert in the table exactly when nothing is left among the rows not scanned. */
  lemma NothingLeftIff(before: seq<Row>, now: seq<Row>, end: nat, cipher: Cipher)
    requires Keyed(before) && end <= |EligibleAfter(before, None)|
    requires ConvertedWithin(before, now, None, CursorAt(EligibleAfter(before, None), None, end), cipher)
    ensures (forall i :: 0 <= i < |now| ==> !Convertible(now[i])) <==>
            CountConvertible(EligibleAfter(before, None)[end..]) == 0
  {
    hide EligibleAfter, CountConvertible, Convertible, Converted, Eligible;
    var found := EligibleAfter(before, None);
    var cursor := CursorAt(found, None, end);
    var rest := found[end..];
    CountIsZeroIff(rest);
    FoundKeyed(before, None);
    if i :| 0 <= i < |now| && Convertible(now[i]) {
      ChangedRows(before, now, None, cursor, cipher, i);
      ConvertibleIsFound(before, i);
      var k := IsFound(before, None, i);
      assert !Within(None, cursor, before[i].id);
      assert k >= end && rest[k - end] == found[k] == before[i];
    }
    if k :| 0 <= k < |rest| && Convertible(rest[k]) {
      var i := FoundIn(before, None, end + k);
      assert before[i] == rest[k] == found[end + k];
      if end > 0 {
        assert found[end - 1].id < found[end + k].id;
      }
      assert !Within(None, cursor, before[i].id);
      assert now[i] == before[i];
    }
  }

  /**
   A live run without a cap leaves every row converted if and only if no batch of empty legacy values stands
   before a row that has something to convert.
   */
  lemma CompleteIff(before: seq<Row>, now: seq<Row>, batch: nat, cipher: Cipher)
    requires Keyed(before) && batch > 0
    requires var found := EligibleAfter(before, None);
             ConvertedWithin(before, now, None, CursorAt(found, None, Scanned(found, batch, None, 0)), cipher)
    ensures (forall i :: 0 <= i < |now| ==> !Convertible(now[i])) <==> !Starved(EligibleAfter(before, None), batch)
  {
    hide EligibleAfter, CountConvertible, Convertible, Converted, Scanned, StarvedAt;
    var found := EligibleAfter(before, None);
    LeavesSomethingIff(found, batch, 0);
    NothingLeftIff(before, now, Scanned(found, batch, None, 0), cipher);
  }

  /** An empty value before a row with something to convert, one row a batch: the scan stops before that row. */
  lemma EmptyValueStarves(empty: Row, other: Row, cipher: Cipher)
    requires empty.id < other.id && Eligible(empty) && !Convertible(empty) && Convertible(other)
    ensures var before := [empty, other];
            && EligibleAfter(before, None) == before && Starved(before, 1) && Scanned(before, 1, None, 0) == 1
            && ConvertedWithin(before, before, None, Some(empty.id), cipher)
  {
    var before := [empty, other];
    ConvertedOnce(empty, cipher);
    ConvertedOnce(other, cipher);
    PairFound(empty, other);
    PairCounts(empty, other);
    hide Eligible, Convertible, Converted, CountConvertible, EligibleAfter;
    assert StarvedAt(before, 1, 0);
  }

  // ----- stopping at the cap and starting again -----

  /** No legacy value that waits for encryption is empty. */
  predicate Solid(r: Row) {
    && (r.tokenCt.None? && r.token.Some? ==> r.token.value != map[])
    && (r.credsCt.None? && r.creds.Some? ==> r.creds.value != "")
  }

  lemma SolidRow(r: Row, cipher: Cipher)
    requires Solid(r)
    ensures Solid(Converted(r, cipher)) && (Eligible(r) ==> Convertible(r))
  {
  }

  /** No scan of a table without empty legacy values is starved. */
  lemma SolidNeverStarved(rows: seq<Row>, batch: nat)
    requires batch > 0 && forall i :: 0 <= i < |rows| ==> Solid(rows[i])
    ensures !Starved(EligibleAfter(rows, None), batch)
  {
    hide EligibleAfter, CountConvertible, Convertible, Eligible, Solid, Converted;
    var found := EligibleAfter(rows, None);
    forall start | 0 <= start < |found|
      ensures CountConvertible(found[start..Upto(|found|, start, batch)]) > 0
    {
      SolidWindow(rows, start, Upto(|found|, start, batch));
    }
  }

  /** After any interrupted run over a table without empty legacy values, an uncapped run finishes the job. */
  lemma ResumeCompletes(before: seq<Row>, stopped: seq<Row>, upto: Option<int>, batch: nat, cipher: Cipher)
    requires batch > 0 && forall i :: 0 <= i < |before| ==> Solid(before[i])
    requires ConvertedWithin(before, stopped, None, upto, cipher)
    ensures !Starved(EligibleAfter(stopped, None), batch)
  {
    hide EligibleAfter, Convertible, Converted, Solid, Starved, Within;
    forall i | 0 <= i < |stopped|
      ensures Solid(stopped[i])
    {
      SolidRow(before[i], cipher);
    }
    SolidNeverStarved(stopped, batch);
  }

  /**
   A row with one empty legacy value stays eligible after it was converted: a run stopped by the cap behind it
   can leave a table whose next run is starved at once, although the first run would have finished the job.
   */
  lemma ResumeStarves(partial: Row, other: Row, cipher: Cipher)
    requires partial.id < other.id && NeedsCreds(partial) && partial.tokenCt == None && partial.token == Some(map[])
    requires Convertible(other)
    ensures var before := [partial, other];
            var stopped := [Converted(partial, cipher), other];
            && EligibleAfter(before, None) == before && !Starved(before, 1)
            && Scanned(before, 1, Some(1), 0) == 1
            && ConvertedWithin(before, stopped, None, Some(partial.id), cipher)
            && EligibleAfter(stopped, None) == stopped && Starved(stopped, 1)
  {
    var before := [partial, other];
    var left := Converted(partial, cipher);
    var stopped := [left, other];
    assert Eligible(partial) && Eligible(other) && Eligible(left) && Convertible(partial) && !Convertible(left);
    assert left.id == partial.id;
    hide Eligible, Convertible, NeedsCreds, Converted, CountConvertible, EligibleAfter;
    PairFound(partial, other);
    PairFound(left, other);
    PairCounts(partial, other);
    PairCounts(left, other);
    assert CountConvertible(before[..0]) == 0 by { NoneInNothing(before, 0); assert before[..0] == before[0..0]; }
    assert StarvedAt(stopped, 1, 0);
  }

  lemma PairFound(a: Row, b: Row)
    requires Eligible(a) && Eligible(b)
    ensures EligibleAfter([a, b], None) == [a, b]
  {
    assert [a, b][..1] == [a];
    EligibleAfterUnfold([a, b], None);
    EligibleAfterUnfold([a], None);
  }

  lemma PairCounts(a: Row, b: Row)
    ensures var pair := [a, b];
            && CountConvertible(pair[0..1]) == (if Convertible(a) then 1 else 0)
            && CountConvertible(pair[1..2]) == (if Convertible(b) then 1 else 0)
            && pair[..0] == [] && pair[..1] == pair[0..1] && pair[1..] == pair[1..2]
  {
    hide Convertible;
    var pair := [a, b];
    assert pair[0..1] == [a] && pair[1..2] == [b];
    CountSnoc([a], 0);
    CountSnoc([b], 0);
    assert [a][..1] == [a] && [b][..1] == [b];
  }
}
