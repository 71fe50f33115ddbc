/**
 The credential backfill: a keyset-paginated scan that encrypts the legacy columns of connection rows batch by
 batch, with an optional cap on the rows written and a dry run.
 */
module Backfill {
  import opened Basics
  import opened ToolValues

  /** A connection row; ids stand for `connection_id` in the order of the primary key. */
  datatype Row = Row(id: int, org: string, token: Option<Object>, tokenCt: Option<string>,
                     creds: Option<string>, credsCt: Option<string>)

  /** Encryption, bound to the organization and the connection of the row. */
  datatype Cipher = Cipher(token: (string, int, Object) -> string, creds: (string, int, string) -> string)

  /** The WHERE clause: legacy data that is not NULL beside a missing ciphertext. */
  predicate Eligible(r: Row) {
    (r.tokenCt.None? && r.token.Some?) || (r.credsCt.None? && r.creds.Some?)
  }

  predicate NeedsToken(r: Row) {
    r.tokenCt.None? && r.token.Some? && r.token.value != map[]
  }

  predicate NeedsCreds(r: Row) {
    r.credsCt.None? && r.creds.Some? && r.creds.value != ""
  }

  /** The row has legacy data that is not empty and not encrypted yet. */
  predicate Convertible(r: Row) {
    NeedsToken(r) || NeedsCreds(r)
  }

  function TokenCtOf(r: Row, cipher: Cipher): Option<string> {
    if NeedsToken(r) then Some(cipher.token(r.org, r.id, r.token.value)) else r.tokenCt
  }

  function CredsCtOf(r: Row, cipher: Cipher): Option<string> {
    if NeedsCreds(r) then Some(cipher.creds(r.org, r.id, r.creds.value)) else r.credsCt
  }

  function Converted(r: Row, cipher: Cipher): Row {
    r.(tokenCt := TokenCtOf(r, cipher), credsCt := CredsCtOf(r, cipher))
  }

  lemma ConvertedOnce(r: Row, cipher: Cipher)
    ensures !Convertible(Converted(r, cipher))
    ensures Convertible(r) <==> Converted(r, cipher) != r
    ensures Convertible(r) ==> Eligible(r)
  {
  }

  /** A legacy value that is not NULL. */
  ghost predicate HasLegacy<T>(legacy: Option<T>, ciphertext: Option<string>) {
    legacy != None && ciphertext == None
  }

  /**
   Either column alone makes a row eligible; an empty value is eligible and never encrypted; a column that is
   encrypted gets the encryption of its own value for its own row, and nothing else of the row changes.
   */
  lemma RowTold(r: Row, cipher: Cipher)
    ensures Eligible(r) <==> HasLegacy(r.token, r.tokenCt) || HasLegacy(r.creds, r.credsCt)
    ensures Convertible(r) <==>
            || (HasLegacy(r.token, r.tokenCt) && r.token != Some(map[]))
            || (HasLegacy(r.creds, r.credsCt) && r.creds != Some(""))
    ensures var now := Converted(r, cipher);
            && now.(tokenCt := r.tokenCt, credsCt := r.credsCt) == r
            && now.tokenCt == (if HasLegacy(r.token, r.tokenCt) && r.token != Some(map[])
                               then Some(cipher.token(r.org, r.id, r.token.value)) else r.tokenCt)
            && now.credsCt == (if HasLegacy(r.creds, r.credsCt) && r.creds != Some("")
                               then Some(cipher.creds(r.org, r.id, r.creds.value)) else r.credsCt)
  {
  }

  // ----- the rows a query returns -----

  ghost predicate Keyed(rows: seq<Row>) {
    forall i, j :: 0 <= i < j < |rows| ==> rows[i].id < rows[j].id
  }

  predicate Beyond(after: Option<int>, id: int) {
    after.None? || id > after.value
  }

  /** The eligible rows beyond the cursor, in key order. */
  function EligibleAfter(rows: seq<Row>, after: Option<int>): seq<Row> {
    if rows == [] then []
    else
      var last := rows[|rows| - 1];
      EligibleAfter(rows[..|rows| - 1], after) + (if Eligible(last) && Beyond(after, last.id) then [last] else [])
  }

  function Upto(size: nat, at: nat, batch: nat): nat {
    if size < at + batch then size else at + batch
  }

  function Fetch(rows: seq<Row>, after: Option<int>, limit: nat): seq<Row> {
    var all := EligibleAfter(rows, after);
    all[..Upto(|all|, 0, limit)]
  }

  function CountConvertible(rows: seq<Row>): nat {
    if rows == [] then 0
    else CountConvertible(rows[..|rows| - 1]) + (if Convertible(rows[|rows| - 1]) then 1 else 0)
  }

  function ConvertibleIds(rows: seq<Row>): seq<int> {
    if rows == [] then []
    else
      ConvertibleIds(rows[..|rows| - 1]) + (if Convertible(rows[|rows| - 1]) then [rows[|rows| - 1].id] else [])
  }

  predicate Wanted(r: Row, after: Option<int>) {
    Eligible(r) && Beyond(after, r.id)
  }

  lemma EligibleAfterUnfold(rows: seq<Row>, after: Option<int>)
    requires rows != []
    ensures var last := rows[|rows| - 1];
            EligibleAfter(rows, after) ==
            EligibleAfter(rows[..|rows| - 1], after) + (if Wanted(last, after) then [last] else [])
  {
  }

  lemma {:induction false} FoundIn(rows: seq<Row>, after: Option<int>, k: nat) returns (i: nat)
    requires k < |EligibleAfter(rows, after)|
    ensures i < |rows| && rows[i] == EligibleAfter(rows, after)[k] && Wanted(rows[i], after)
  {
    hide Wanted;
    EligibleAfterUnfold(rows, after);
    if k < |EligibleAfter(rows[..|rows| - 1], after)| {
      i := FoundIn(rows[..|rows| - 1], after, k);
    } else {
      i := |rows| - 1;
    }
  }

  lemma {:induction false} IsFound(rows: seq<Row>, after: Option<int>, i: nat) returns (k: nat)
    requires i < |rows| && Wanted(rows[i], after)
    ensures k < |EligibleAfter(rows, after)| && EligibleAfter(rows, after)[k] == rows[i]
  {
    hide Wanted;
    EligibleAfterUnfold(rows, after);
    if i < |rows| - 1 {
      k := IsFound(rows[..|rows| - 1], after, i);
    } else {
      k := |EligibleAfter(rows[..|rows| - 1], after)|;
    }
  }

  lemma {:induction false} FoundKeyed(rows: seq<Row>, after: Option<int>)
    requires Keyed(rows)
    ensures Keyed(EligibleAfter(rows, after))
  {
    hide Wanted, EligibleAfter;
    if rows == [] {
      NothingIn(after);
    } else {
      var init := rows[..|rows| - 1];
      FoundKeyed(init, after);
      EligibleAfterUnfold(rows, after);
      var found := EligibleAfter(init, after);
      forall k | 0 <= k < |found|
        ensures found[k].id < rows[|rows| - 1].id
      {
        var i := FoundIn(init, after, k);
        assert rows[i] == init[i];
      }
    }
  }

  lemma NothingIn(after: Option<int>)
    ensures EligibleAfter([], after) == []
  {
  }

  /** A query only sees the rows beyond its cursor. */
  lemma {:induction false} SameBeyond(rows: seq<Row>, other: seq<Row>, after: Option<int>)
    requires |rows| == |other|
    requires forall i :: 0 <= i < |rows| ==> rows[i].id == other[i].id
    requires forall i :: 0 <= i < |rows| && Beyond(after, rows[i].id) ==> rows[i] == other[i]
    ensures EligibleAfter(rows, after) == EligibleAfter(other, after)
  {
    hide Eligible, Beyond;
    if rows == [] {
    } else {
      var n := |rows| - 1;
      SameBeyond(rows[..n], other[..n], after);
    }
  }

  lemma {:induction false} NothingBeyond(rows: seq<Row>, after: int)
    requires forall i :: 0 <= i < |rows| ==> rows[i].id <= after
    ensures EligibleAfter(rows, Some(after)) == []
  {
    if rows == [] {
    } else {
      NothingBeyond(rows[..|rows| - 1], after);
    }
  }

  /** Moving the cursor to a row already found leaves exactly the rows found after it. */
  lemma {:induction false} CursorSplits(rows: seq<Row>, after: Option<int>, k: nat)
    requires Keyed(rows) && k < |EligibleAfter(rows, after)|
    ensures EligibleAfter(rows, Some(EligibleAfter(rows, after)[k].id)) == EligibleAfter(rows, after)[k + 1..]
  {
    hide Eligible;
    var n := |rows| - 1;
    var init, last := rows[..n], rows[n];
    var found, earlier := EligibleAfter(rows, after), EligibleAfter(init, after);
    EligibleAfterUnfold(rows, after);
    if k < |earlier| {
      CursorSplits(init, after, k);
      var i := FoundIn(init, after, k);
      assert found[k] == rows[i] && rows[i].id < last.id;
      EligibleAfterUnfold(rows, Some(found[k].id));
      assert Wanted(last, after) <==> Wanted(last, Some(found[k].id)) by {
        assert Wanted(found[k], after);
      }
    } else {
      assert found[k] == last;
      NothingBeyond(rows, last.id);
    }
  }

  /** The query returns the first rows, in key order, of the eligible ones beyond the cursor, up to its limit. */
  lemma FetchTold(rows: seq<Row>, after: Option<int>, limit: nat)
    requires Keyed(rows)
    ensures var found := Fetch(rows, after, limit);
            && Keyed(found) && |found| <= limit
            && (forall k :: 0 <= k < |found| ==> found[k] in rows && Wanted(found[k], after))
            && (forall i :: 0 <= i < |rows| && Wanted(rows[i], after) && rows[i] !in found ==>
                  |found| == limit && forall k :: 0 <= k < |found| ==> found[k].id < rows[i].id)
  {
    hide EligibleAfter, Wanted;
    FoundKeyed(rows, after);
    var all, found := EligibleAfter(rows, after), Fetch(rows, after, limit);
    forall k | 0 <= k < |found|
      ensures found[k] in rows && Wanted(found[k], after)
    {
      var i := FoundIn(rows, after, k);
    }
    forall i: nat | i < |rows| && Wanted(rows[i], after) && rows[i] !in found
      ensures |found| == limit && forall k :: 0 <= k < |found| ==> found[k].id < rows[i].id
    {
      var k := IsFound(rows, after, i);
      assert forall j :: 0 <= j < |found| ==> found[j] == all[j] && found[j] in found;
    }
  }

  // ----- one batch -----

  /** The cursor after `k` of the found rows. */
  function CursorAt(found: seq<Row>, after: Option<int>, k: nat): Option<int>
    requires k <= |found|
  {
    if k == 0 then after else Some(found[k - 1].id)
  }

  /** `after` < id <= `upto`; nothing when no row has been seen yet. */
  predicate Within(after: Option<int>, upto: Option<int>, id: int) {
    Beyond(after, id) && !Beyond(upto, id)
  }

  /** Every row between the two cursors is converted, the others are as they were. */
  ghost predicate ConvertedWithin(before: seq<Row>, now: seq<Row>, after: Option<int>, upto: Option<int>,
                                  cipher: Cipher) {
    && |now| == |before|
    && forall i :: 0 <= i < |before| ==>
         now[i] == if Within(after, upto, before[i].id) then Converted(before[i], cipher) else before[i]
  }

  /** UPDATE ... WHERE connection_id = id, setting the columns that have a new value */
  function UpdateWhere(rows: seq<Row>, id: int, tokenCt: Option<string>, credsCt: Option<string>): seq<Row> {
    seq(|rows|, i requires 0 <= i < |rows| =>
      if rows[i].id != id then rows[i]
      else
        rows[i].(tokenCt := if tokenCt.Some? then tokenCt else rows[i].tokenCt,
                 credsCt := if credsCt.Some? then credsCt else rows[i].credsCt))
  }

  /** Between two rows found one after the other there is nothing to convert. */
  lemma BetweenFound(rows: seq<Row>, after: Option<int>, k: nat, i: nat)
    requires Keyed(rows) && k < |EligibleAfter(rows, after)| && i < |rows|
    requires var found := EligibleAfter(rows, after);
             Within(CursorAt(found, after, k), CursorAt(found, after, k + 1), rows[i].id)
    ensures rows[i] == EligibleAfter(rows, after)[k] || !Eligible(rows[i])
  {
    hide Eligible, EligibleAfter;
    var found := EligibleAfter(rows, after);
    FoundKeyed(rows, after);
    if Eligible(rows[i]) {
      if k > 0 {
        var p := FoundIn(rows, after, k - 1);
      }
      var j := IsFound(rows, after, i);
    }
  }

  lemma CursorMoves(rows: seq<Row>, after: Option<int>, k: nat, id: int)
    requires Keyed(rows) && k < |EligibleAfter(rows, after)|
    ensures var found := EligibleAfter(rows, after);
            Within(after, CursorAt(found, after, k + 1), id) <==>
            Within(after, CursorAt(found, after, k), id) ||
            Within(CursorAt(found, after, k), CursorAt(found, after, k + 1), id)
  {
    hide Eligible, EligibleAfter;
    FoundKeyed(rows, after);
    var p := FoundIn(rows, after, k);
    if k > 0 {
      var q := FoundIn(rows, after, k - 1);
    }
  }

  lemma UniqueKey(rows: seq<Row>, i: nat, j: nat)
    requires Keyed(rows) && i < |rows| && j < |rows| && rows[i].id == rows[j].id
    ensures i == j
  {
  }

  lemma RowNotYet(rows: seq<Row>, after: Option<int>, k: nat)
    requires Keyed(rows) && k < |EligibleAfter(rows, after)|
    ensures var found := EligibleAfter(rows, after);
            && !Within(after, CursorAt(found, after, k), found[k].id)
            && Within(after, CursorAt(found, after, k + 1), found[k].id)
  {
    hide Eligible, EligibleAfter;
    FoundKeyed(rows, after);
    var p := FoundIn(rows, after, k);
  }

  /** Passing the next row found changes the range for that row and for rows with nothing to convert. */
  lemma OneMoreRow(rows: seq<Row>, after: Option<int>, k: nat, at: nat, i: nat, cipher: Cipher)
    requires Keyed(rows) && k < |EligibleAfter(rows, after)| && at < |rows| && i < |rows|
    requires rows[at] == EligibleAfter(rows, after)[k]
    ensures rows[i].id == rows[at].id <==> i == at
    ensures var found := EligibleAfter(rows, after);
            var earlier := Within(after, CursorAt(found, after, k), rows[i].id);
            var now := Within(after, Some(rows[at].id), rows[i].id);
            if i == at then !earlier && now else earlier == now || (now && Converted(rows[i], cipher) == rows[i])
  {
    hide EligibleAfter, Wanted, Eligible, NeedsToken, NeedsCreds, Within, Keyed;
    var found := EligibleAfter(rows, after);
    if rows[i].id == rows[at].id {
      UniqueKey(rows, i, at);
      RowNotYet(rows, after, k);
    } else {
      CursorMoves(rows, after, k, rows[i].id);
      if Within(CursorAt(found, after, k), CursorAt(found, after, k + 1), rows[i].id) {
        BetweenFound(rows, after, k, i);
        ConvertedOnce(rows[i], cipher);
      }
    }
  }

  /** Converting the next row found completes the range up to it. */
  lemma NextConverted(before: seq<Row>, now: seq<Row>, after: Option<int>, k: nat, cipher: Cipher, row: Row)
    requires Keyed(before) && k < |EligibleAfter(before, after)| && row == EligibleAfter(before, after)[k]
    requires ConvertedWithin(before, now, after, CursorAt(EligibleAfter(before, after), after, k), cipher)
    ensures ConvertedWithin(before,
              UpdateWhere(now, row.id,
                          if NeedsToken(row) then TokenCtOf(row, cipher) else None,
                          if NeedsCreds(row) then CredsCtOf(row, cipher) else None),
              after, Some(row.id), cipher)
    ensures !Convertible(row) ==> ConvertedWithin(before, now, after, Some(row.id), cipher)
  {
    hide EligibleAfter, Wanted, Eligible, NeedsToken, NeedsCreds, Keyed, Within;
    var at := FoundIn(before, after, k);
    forall i | 0 <= i < |before|
      ensures before[i].id == row.id <==> i == at
      ensures var earlier := Within(after, CursorAt(EligibleAfter(before, after), after, k), before[i].id);
              var later := Within(after, Some(row.id), before[i].id);
              if i == at then !earlier && later
              else earlier == later || (later && Converted(before[i], cipher) == before[i])
    {
      OneMoreRow(before, after, k, at, i, cipher);
    }
  }

  lemma CountSnoc(rows: seq<Row>, k: nat)
    requires k < |rows|
    ensures CountConvertible(rows[..k + 1]) == CountConvertible(rows[..k]) + (if Convertible(rows[k]) then 1 else 0)
    ensures ConvertibleIds(rows[..k + 1]) ==
            ConvertibleIds(rows[..k]) + (if Convertible(rows[k]) then [rows[k].id] else [])
  {
    hide Convertible;
    assert rows[..k + 1][..k] == rows[..k];
  }

  /** The columns an UPDATE sets for a row: those with a new value. */
  function NewToken(row: Row, cipher: Cipher): Option<string> {
    if NeedsToken(row) then TokenCtOf(row, cipher) else None
  }

  function NewCreds(row: Row, cipher: Cipher): Option<string> {
    if NeedsCreds(row) then CredsCtOf(row, cipher) else None
  }

  /** A table that a batch started from: its rows and the updates sent so far. */
  datatype Start = Start(rows: seq<Row>, updates: seq<int>, after: Option<int>, limit: nat, dryRun: bool,
                         cipher: Cipher)

  /** The batch is `k` rows in. */
  ghost predicate Batched(start: Start, k: nat, rows: seq<Row>, updates: seq<int>, applied: nat, cursor: Option<int>) {
    var found := Fetch(start.rows, start.after, start.limit);
    && Keyed(start.rows) && k <= |found|
    && cursor == CursorAt(found, start.after, k) && applied == CountConvertible(found[..k])
    && if start.dryRun then rows == start.rows && updates == start.updates
       else
         ConvertedWithin(start.rows, rows, start.after, cursor, start.cipher) &&
         updates == start.updates + ConvertibleIds(found[..k])
  }

  lemma BatchStart(start: Start)
    requires Keyed(start.rows)
    ensures Batched(start, 0, start.rows, start.updates, 0, start.after)
  {
    hide EligibleAfter;
  }

  lemma BatchRow(start: Start, k: nat, rows: seq<Row>, updates: seq<int>, applied: nat, cursor: Option<int>)
    requires Batched(start, k, rows, updates, applied, cursor)
    requires k < |Fetch(start.rows, start.after, start.limit)|
    ensures var row := Fetch(start.rows, start.after, start.limit)[k];
            if !Convertible(row) then Batched(start, k + 1, rows, updates, applied, Some(row.id))
            else if start.dryRun then Batched(start, k + 1, rows, updates, applied + 1, Some(row.id))
            else
              Batched(start, k + 1,
                      UpdateWhere(rows, row.id, NewToken(row, start.cipher), NewCreds(row, start.cipher)),
                      updates + [row.id], applied + 1, Some(row.id))
  {
    hide EligibleAfter, Keyed, ConvertedWithin, Beyond, Within, UpdateWhere, Convertible, NeedsToken, NeedsCreds,
         CountConvertible, ConvertibleIds;
    var found := Fetch(start.rows, start.after, start.limit);
    CountSnoc(found, k);
    if !start.dryRun {
      NextConverted(start.rows, rows, start.after, k, start.cipher, found[k]);
    }
  }

  lemma BatchEnd(start: Start, rows: seq<Row>, updates: seq<int>, applied: nat, cursor: Option<int>)
    requires Batched(start, |Fetch(start.rows, start.after, start.limit)|, rows, updates, applied, cursor)
    ensures var found := Fetch(start.rows, start.after, start.limit);
            && applied == CountConvertible(found)
            && cursor == CursorAt(found, start.after, |found|)
            && (if start.dryRun then rows == start.rows && updates == start.updates
                else ConvertedWithin(start.rows, rows, start.after, cursor, start.cipher) &&
                     updates == start.updates + ConvertibleIds(found))
  {
    hide Fetch, ConvertedWithin, CountConvertible, ConvertibleIds;
    var found := Fetch(start.rows, start.after, start.limit);
    assert found[..|found|] == found;
  }

  // ----- the scan -----

  /**
   How far the scan gets in the rows that were eligible at the start: it stops at the cap, or after the first
   batch that finds nothing to convert.
   */
  function Scanned(found: seq<Row>, batch: nat, maxRows: Option<int>, at: nat): (end: nat)
    requires batch > 0 && at <= |found|
    ensures at <= end <= |found|
    decreases |found| - at
  {
    var to := Upto(|found|, at, batch);
    if maxRows.Some? && CountConvertible(found[..at]) >= maxRows.value then at
    else if CountConvertible(found[at..to]) == 0 then to
    else Scanned(found, batch, maxRows, to)
  }

  lemma ConcatSnoc(a: seq<Row>, b: seq<Row>, row: Row)
    ensures CountConvertible(a + (b + [row])) == CountConvertible(a + b) + (if Convertible(row) then 1 else 0)
    ensures ConvertibleIds(a + (b + [row])) == ConvertibleIds(a + b) + (if Convertible(row) then [row.id] else [])
  {
    hide Convertible;
    var both := a + (b + [row]);
    assert both[..|both| - 1] == a + b && both[|both| - 1] == row;
  }

  lemma {:induction false} CountConcat(a: seq<Row>, b: seq<Row>)
    ensures CountConvertible(a + b) == CountConvertible(a) + CountConvertible(b)
    ensures ConvertibleIds(a + b) == ConvertibleIds(a) + ConvertibleIds(b)
  {
    hide Convertible;
    if b == [] {
      assert a + b == a;
    } else {
      var n := |b| - 1;
      CountConcat(a, b[..n]);
      ConcatSnoc(a, b[..n], b[n]);
      assert b[..n] + [b[n]] == b;
    }
  }

  lemma CountSlice(rows: seq<Row>, at: nat, to: nat)
    requires at <= to <= |rows|
    ensures CountConvertible(rows[..to]) == CountConvertible(rows[..at]) + CountConvertible(rows[at..to])
    ensures ConvertibleIds(rows[..to]) == ConvertibleIds(rows[..at]) + ConvertibleIds(rows[at..to])
  {
    hide CountConvertible, ConvertibleIds;
    CountConcat(rows[..at], rows[at..to]);
    assert rows[..to] == rows[..at] + rows[at..to];
  }

  /** The whole scan as one batch, cut short. */
  function Whole(rows: seq<Row>, updates: seq<int>, dryRun: bool, cipher: Cipher): Start {
    Start(rows, updates, None, |EligibleAfter(rows, None)|, dryRun, cipher)
  }

  lemma WholeFinds(start: Start)
    requires start == Whole(start.rows, start.updates, start.dryRun, start.cipher)
    ensures Fetch(start.rows, start.after, start.limit) == EligibleAfter(start.rows, None)
  {
    hide EligibleAfter;
  }

  /** Mid-scan the table still holds, beyond the cursor, the rows that were eligible at the start. */
  lemma StillToScan(start: Start, at: nat, rows: seq<Row>, updates: seq<int>, total: nat, cursor: Option<int>)
    requires start == Whole(start.rows, start.updates, start.dryRun, start.cipher)
    requires Batched(start, at, rows, updates, total, cursor)
    ensures Keyed(rows) && at <= |EligibleAfter(start.rows, None)|
    ensures EligibleAfter(rows, cursor) == EligibleAfter(start.rows, None)[at..]
  {
    hide EligibleAfter, Convertible, CountConvertible, ConvertibleIds, TokenCtOf, CredsCtOf;
    WholeFinds(start);
    var found := EligibleAfter(start.rows, None);
    assert cursor == CursorAt(found, None, at);
    if !start.dryRun {
      SameBeyond(start.rows, rows, cursor);
    }
    if at > 0 {
      CursorSplits(start.rows, None, at - 1);
    } else {
      assert found[0..] == found;
    }
  }

  lemma RangesJoin(before: seq<Row>, mid: seq<Row>, now: seq<Row>, cut: Option<int>, upto: Option<int>, cipher: Cipher)
    requires ConvertedWithin(before, mid, None, cut, cipher) && ConvertedWithin(mid, now, cut, upto, cipher)
    requires cut.Some? ==> upto.Some? && cut.value <= upto.value
    ensures ConvertedWithin(before, now, None, upto, cipher)
  {
    hide TokenCtOf, CredsCtOf;
  }

  /** A batch run at the cursor is the next stretch of the whole scan. */
  lemma ScanBatch(start: Start, at: nat, rows: seq<Row>, updates: seq<int>, total: nat, cursor: Option<int>,
                  batch: nat, rows': seq<Row>, updates': seq<int>, applied: nat, cursor': Option<int>)
    requires start == Whole(start.rows, start.updates, start.dryRun, start.cipher)
    requires Batched(start, at, rows, updates, total, cursor)
    requires var found := Fetch(rows, cursor, batch);
             && applied == CountConvertible(found) && cursor' == CursorAt(found, cursor, |found|)
             && (if start.dryRun then rows' == rows && updates' == updates
                 else ConvertedWithin(rows, rows', cursor, cursor', start.cipher) &&
                      updates' == updates + ConvertibleIds(found))
    ensures var found := EligibleAfter(start.rows, None);
            at <= |found| && applied == CountConvertible(found[at..Upto(|found|, at, batch)]) &&
            Batched(start, Upto(|found|, at, batch), rows', updates', total + applied, cursor')
  {
    hide EligibleAfter, CountConvertible, ConvertibleIds, ConvertedWithin, Keyed;
    WholeFinds(start);
    StillToScan(start, at, rows, updates, total, cursor);
    var found := EligibleAfter(start.rows, None);
    var to := Upto(|found|, at, batch);
    assert Fetch(rows, cursor, batch) == found[at..to];
    CountSlice(found, at, to);
    assert cursor' == CursorAt(found, None, to);
    if !start.dryRun {
      CursorsOrdered(start.rows, at, to);
      RangesJoin(start.rows, rows, rows', cursor, cursor', start.cipher);
    }
  }

  lemma CursorsOrdered(rows: seq<Row>, at: nat, to: nat)
    requires Keyed(rows) && at <= to <= |EligibleAfter(rows, None)|
    ensures var found := EligibleAfter(rows, None);
            CursorAt(found, None, at).Some? ==>
              CursorAt(found, None, to).Some? && CursorAt(found, None, at).value <= CursorAt(found, None, to).value
  {
    hide EligibleAfter;
    FoundKeyed(rows, None);
  }

  lemma ScanStart(rows: seq<Row>, updates: seq<int>, dryRun: bool, cipher: Cipher)
    requires Keyed(rows)
    ensures var start := Whole(rows, updates, dryRun, cipher);
            && start.rows == rows && start.updates == updates && start.dryRun == dryRun && start.cipher == cipher
            && Batched(start, 0, rows, updates, 0, None)
  {
    hide EligibleAfter, Batched, Keyed;
    BatchStart(Whole(rows, updates, dryRun, cipher));
  }

  lemma ScanStep(start: Start, at: nat, rows: seq<Row>, updates: seq<int>, total: nat, cursor: Option<int>,
                 batch: nat, maxRows: Option<int>)
    requires start == Whole(start.rows, start.updates, start.dryRun, start.cipher) && batch > 0
    requires Batched(start, at, rows, updates, total, cursor)
    ensures Keyed(rows)
    ensures var found := EligibleAfter(start.rows, None);
            && at <= |found|
            && var to := Upto(|found|, at, batch);
               at <= to <= |found| &&
               if maxRows.Some? && total >= maxRows.value then Scanned(found, batch, maxRows, at) == at
               else if CountConvertible(found[at..to]) == 0 then Scanned(found, batch, maxRows, at) == to
               else to > at && Scanned(found, batch, maxRows, at) == Scanned(found, batch, maxRows, to)
  {
    hide EligibleAfter, Convertible, ConvertibleIds, ConvertedWithin;
    WholeFinds(start);
    StillToScan(start, at, rows, updates, total, cursor);
  }

  lemma ScanEnd(start: Start, end: nat, rows: seq<Row>, updates: seq<int>, total: nat, cursor: Option<int>)
    requires start == Whole(start.rows, start.updates, start.dryRun, start.cipher)
    requires Batched(start, end, rows, updates, total, cursor)
    ensures var found := EligibleAfter(start.rows, None);
            && end <= |found| && total == CountConvertible(found[..end])
            && (if start.dryRun then rows == start.rows && updates == start.updates
                else ConvertedWithin(start.rows, rows, None, CursorAt(found, None, end), start.cipher) &&
                     updates == start.updates + ConvertibleIds(found[..end]))
  {
    hide EligibleAfter, CountConvertible, ConvertibleIds, ConvertedWithin;
    WholeFinds(start);
  }

  // ----- the table -----

  /** The table and the UPDATE statements sent to it. */
  class Connections {
    var rows: seq<Row>
    var updates: seq<int>

    /** `_process_batch` */
    method ProcessBatch(cipher: Cipher, batchSize: nat, dryRun: bool, after: Option<int>)
      returns (applied: nat, cursor: Option<int>)
      requires Keyed(rows)
      modifies this
      ensures var found := Fetch(old(rows), after, batchSize);
              && applied == CountConvertible(found)
              && cursor == CursorAt(found, after, |found|)
              && (if dryRun then rows == old(rows) && updates == old(updates)
                  else ConvertedWithin(old(rows), rows, after, cursor, cipher) &&
                       updates == old(updates) + ConvertibleIds(found))
    {
      hide *;
      ghost var start := Start(rows, updates, after, batchSize, dryRun, cipher);
      var fetched := Fetch(rows, after, batchSize);
      applied := 0;
      cursor := after;
      BatchStart(start);
      for k := 0 to |fetched|
        invariant Batched(start, k, rows, updates, applied, cursor)
      {
        var row := fetched[k];
        BatchRow(start, k, rows, updates, applied, cursor);
        Decided(row, cipher);
        cursor := Some(row.id);
        var newToken: Option<string>, newCreds: Option<string> := None, None;
        if row.tokenCt.None? && row.token.Some? && row.token.value != map[] {
          newToken := Some(cipher.token(row.org, row.id, row.token.value));
        }
        if row.credsCt.None? && row.creds.Some? && row.creds.value != "" {
          newCreds := Some(cipher.creds(row.org, row.id, row.creds.value));
        }
        if newToken.None? && newCreds.None? {
          continue;
        }
        if dryRun {
          applied := applied + 1;
          continue;
        }
        rows := UpdateWhere(rows, row.id, newToken, newCreds);
        updates := updates + [row.id];
        applied := applied + 1;
      }
      BatchEnd(start, rows, updates, applied, cursor);
    }

    /** The scan loop of `main`; the code is the exit status. */
    method Run(cipher: Cipher, batchSize: int, dryRun: bool, maxRows: Option<int>) returns (code: int, total: nat)
      requires Keyed(rows)
      modifies this
      ensures code == if batchSize <= 0 then 1 else 0
      ensures batchSize <= 0 ==> total == 0 && rows == old(rows) && updates == old(updates)
      ensures batchSize > 0 ==>
                var found := EligibleAfter(old(rows), None);
                var end := Scanned(found, batchSize, maxRows, 0);
                && total == CountConvertible(found[..end])
                && (if dryRun then rows == old(rows) && updates == old(updates)
                    else ConvertedWithin(old(rows), rows, None, CursorAt(found, None, end), cipher) &&
                         updates == old(updates) + ConvertibleIds(found[..end]))
    {
      hide *;
      total := 0;
      if batchSize <= 0 {
        return 1, 0;
      }
      ghost var start := Whole(rows, updates, dryRun, cipher);
      ghost var found := EligibleAfter(rows, None);
      ghost var at := 0;
      var cursor: Option<int> := None;
      ScanStart(rows, updates, dryRun, cipher);
      while true
        invariant at <= |found| && Batched(start, at, rows, updates, total, cursor)
        invariant Scanned(found, batchSize, maxRows, at) == Scanned(found, batchSize, maxRows, 0)
        decreases |found| - at
      {
        ScanStep(start, at, rows, updates, total, cursor, batchSize, maxRows);
        if maxRows.Some? && total >= maxRows.value {
          break;
        }
        ghost var rows', updates', was := rows, updates, cursor;
        var n;
        n, cursor := ProcessBatch(cipher, batchSize, dryRun, cursor);
        ScanBatch(start, at, rows', updates', total, was, batchSize, rows, updates, n, cursor);
        at := Upto(|found|, at, batchSize);
        total := total + n;
        if n == 0 {
          break;
        }
      }
      ScanEnd(start, at, rows, updates, total, cursor);
      code := 0;
    }
  }

  lemma Decided(row: Row, cipher: Cipher)
    ensures NewToken(row, cipher) ==
            if row.tokenCt.None? && row.token.Some? && row.token.value != map[]
            then Some(cipher.token(row.org, row.id, row.token.value)) else None
    ensures NewCreds(row, cipher) ==
            if row.credsCt.None? && row.creds.Some? && row.creds.value != ""
            then Some(cipher.creds(row.org, row.id, row.creds.value)) else None
    ensures Convertible(row) <==> NewToken(row, cipher).Some? || NewCreds(row, cipher).Some?
  {
  }
}
