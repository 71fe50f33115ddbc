/**
 The fallback-policy migration: a recursive walk that rewrites nested JSON objects in place, and its use on
 the settings of every agent.

 Objects live in a heap of cells and hold each other by address, so an update through one address is seen
 through every other. An object only refers to objects built before it, as decoded JSON does; two objects may
 still share a third.
 */
module FallbackPolicy {
  import opened Basics

  /** A value held by an object or a list; `Other` stands for numbers, booleans and null. */
  datatype Item = Text(s: string) | Other(tag: int) | Ref(node: nat) | Items(items: seq<Item>)

  datatype Entry = Entry(key: string, value: Item)

  /** One JSON object: its entries in order. */
  type Cell = seq<Entry>

  const POLICY := "fallback_policy"

  predicate IsBounded(e: Entry) {
    e.key == POLICY && e.value == Text("bounded")
  }

  function RewrittenEntry(e: Entry): Entry {
    if IsBounded(e) then Entry(e.key, Text("permissive")) else e
  }

  predicate HoldsBounded(cell: Cell) {
    exists i :: 0 <= i < |cell| && IsBounded(cell[i])
  }

  /** The cell with its bounded policy replaced, and nothing else. */
  function RewrittenUpTo(cell: Cell, n: nat): (r: Cell)
    ensures |r| == |cell|
  {
    seq(|cell|, i requires 0 <= i < |cell| => if i < n then RewrittenEntry(cell[i]) else cell[i])
  }

  function Rewritten(cell: Cell): (r: Cell)
    ensures |r| == |cell|
  {
    RewrittenUpTo(cell, |cell|)
  }

  /** Only a policy of "bounded" changes, to "permissive", and only the policy entry. */
  lemma RewrittenIs(cell: Cell, i: nat)
    requires i < |cell|
    ensures Rewritten(cell)[i] ==
            if cell[i].key == "fallback_policy" && cell[i].value == Text("bounded")
            then Entry("fallback_policy", Text("permissive")) else cell[i]
  {
  }

  // ----- which objects the walk enters -----

  /** The objects that stand directly in a list. */
  function ListedIn(items: seq<Item>): seq<nat> {
    if items == [] then []
    else
      ListedIn(items[..|items| - 1]) +
      (if items[|items| - 1].Ref? then [items[|items| - 1].node] else [])
  }

  /** The objects entered through one entry: the object it holds, or the objects directly in the list it holds. */
  function EnteredBy(e: Entry): seq<nat> {
    if e.value.Ref? then [e.value.node]
    else if e.value.Items? then ListedIn(e.value.items)
    else []
  }

  function Entered(cell: Cell): seq<nat> {
    if cell == [] then [] else Entered(cell[..|cell| - 1]) + EnteredBy(cell[|cell| - 1])
  }

  /** Objects refer to earlier objects only. */
  ghost predicate WellFounded(heap: seq<Cell>) {
    forall n :: 0 <= n < |heap| ==> Below(Entered(heap[n]), n)
  }

  ghost predicate Below(nodes: seq<nat>, n: nat) {
    forall k :: 0 <= k < |nodes| ==> nodes[k] < n
  }

  /** `target` can be reached from `from` through object values and objects directly in lists. */
  ghost predicate Reaches(heap: seq<Cell>, from: nat, target: nat)
    requires WellFounded(heap) && from < |heap|
    decreases from, 1
  {
    from == target || AnyReaches(heap, from, Entered(heap[from]), target)
  }

  ghost predicate AnyReaches(heap: seq<Cell>, bound: nat, nodes: seq<nat>, target: nat)
    requires WellFounded(heap) && bound <= |heap| && Below(nodes, bound)
    decreases bound, 0
  {
    exists k :: 0 <= k < |nodes| && Reaches(heap, nodes[k], target)
  }

  lemma {:induction false} ReachesDown(heap: seq<Cell>, from: nat, target: nat)
    requires WellFounded(heap) && from < |heap| && Reaches(heap, from, target)
    ensures target <= from
    decreases from
  {
    if from != target {
      var nodes := Entered(heap[from]);
      var k :| 0 <= k < |nodes| && Reaches(heap, nodes[k], target);
      ReachesDown(heap, nodes[k], target);
    }
  }

  /** Rewriting any of the cells leaves the same objects to enter. */
  ghost predicate SameShape(heap: seq<Cell>, other: seq<Cell>) {
    |heap| == |other| && forall n :: 0 <= n < |heap| ==> Entered(heap[n]) == Entered(other[n])
  }

  lemma {:induction false} SameReach(heap: seq<Cell>, other: seq<Cell>, from: nat, target: nat)
    requires WellFounded(heap) && SameShape(heap, other) && from < |heap|
    ensures WellFounded(other)
    ensures Reaches(heap, from, target) <==> Reaches(other, from, target)
    decreases from
  {
    var nodes := Entered(heap[from]);
    forall k | 0 <= k < |nodes|
      ensures Reaches(heap, nodes[k], target) <==> Reaches(other, nodes[k], target)
    {
      SameReach(heap, other, nodes[k], target);
    }
  }

  lemma {:induction false} RewrittenShape(cell: Cell, n: nat)
    ensures Entered(RewrittenUpTo(cell, n)) == Entered(cell)
    decreases |cell|
  {
    if cell == [] {
    } else {
      var init, last := cell[..|cell| - 1], cell[|cell| - 1];
      RewrittenShape(init, n);
      assert RewrittenUpTo(cell, n)[..|cell| - 1] == RewrittenUpTo(init, n);
    }
  }

  lemma RewrittenTwice(cell: Cell)
    ensures Rewritten(Rewritten(cell)) == Rewritten(cell)
    ensures !HoldsBounded(Rewritten(cell))
    ensures HoldsBounded(cell) <==> Rewritten(cell) != cell
  {
    if HoldsBounded(cell) {
      var i :| 0 <= i < |cell| && IsBounded(cell[i]);
      assert Rewritten(cell)[i] != cell[i];
    }
  }

  // ----- the walk -----

  /** Every cell below `bound` that can be reached from one of the nodes has been rewritten, the others kept. */
  ghost predicate Walked(before: seq<Cell>, after: seq<Cell>, bound: nat, nodes: seq<nat>)
    requires WellFounded(before) && bound <= |before| && Below(nodes, bound)
  {
    && |after| == |before|
    && forall m :: 0 <= m < bound ==>
         after[m] == if AnyReaches(before, bound, nodes, m) then Rewritten(before[m]) else before[m]
  }

  ghost predicate BoundedWithin(heap: seq<Cell>, bound: nat, nodes: seq<nat>)
    requires WellFounded(heap) && bound <= |heap| && Below(nodes, bound)
  {
    exists m :: 0 <= m < bound && AnyReaches(heap, bound, nodes, m) && HoldsBounded(heap[m])
  }

  /** The heap after the walk from `from`. */
  ghost predicate WalkedFrom(before: seq<Cell>, after: seq<Cell>, from: nat)
    requires WellFounded(before) && from < |before|
  {
    && |after| == |before|
    && forall m :: 0 <= m < |before| ==>
         after[m] == if Reaches(before, from, m) then Rewritten(before[m]) else before[m]
  }

  ghost predicate BoundedBelow(heap: seq<Cell>, from: nat)
    requires WellFounded(heap) && from < |heap|
  {
    exists m :: 0 <= m < |heap| && Reaches(heap, from, m) && HoldsBounded(heap[m])
  }

  lemma AnyReachesSnoc(heap: seq<Cell>, bound: nat, nodes: seq<nat>, next: nat, target: nat)
    requires WellFounded(heap) && bound <= |heap| && Below(nodes, bound) && next < bound
    ensures Below(nodes + [next], bound)
    ensures AnyReaches(heap, bound, nodes + [next], target) <==>
            AnyReaches(heap, bound, nodes, target) || Reaches(heap, next, target)
  {
    var more := nodes + [next];
    assert forall k :: 0 <= k < |nodes| ==> more[k] == nodes[k];
    assert more[|nodes|] == next;
    if AnyReaches(heap, bound, nodes, target) {
      var k :| 0 <= k < |nodes| && Reaches(heap, nodes[k], target);
      assert Reaches(heap, more[k], target);
    } else if Reaches(heap, next, target) {
      assert Reaches(heap, more[|nodes|], target);
    }
  }

  lemma WalkedShape(mid: seq<Cell>, after: seq<Cell>, from: nat)
    requires WellFounded(mid) && from < |mid| && WalkedFrom(mid, after, from)
    ensures SameShape(mid, after)
  {
    hide Reaches, RewrittenUpTo, HoldsBounded, Entered;
    forall n | 0 <= n < |mid|
      ensures Entered(mid[n]) == Entered(after[n])
    {
      RewrittenShape(mid[n], |mid[n]|);
    }
  }

  /** Walking from one more node, with the nodes already walked possibly entered again. */
  lemma WalkStep(before: seq<Cell>, mid: seq<Cell>, after: seq<Cell>, bound: nat, nodes: seq<nat>, next: nat)
    requires WellFounded(before) && bound <= |before| && Below(nodes, bound) && next < bound
    requires SameShape(before, mid) && WellFounded(mid)
    requires Walked(before, mid, bound, nodes) && WalkedFrom(mid, after, next)
    ensures Below(nodes + [next], bound) && Walked(before, after, bound, nodes + [next])
  {
    AnyReachesSnoc(before, bound, nodes, next, 0);
    forall m | 0 <= m < bound
      ensures after[m] == if AnyReaches(before, bound, nodes + [next], m) then Rewritten(before[m]) else before[m]
    {
      hide Reaches, AnyReaches, RewrittenUpTo, Rewritten, HoldsBounded, Entered;
      AnyReachesSnoc(before, bound, nodes, next, m);
      SameReach(before, mid, next, m);
      RewrittenTwice(before[m]);
    }
  }

  lemma BoundedStep(before: seq<Cell>, mid: seq<Cell>, bound: nat, nodes: seq<nat>, next: nat)
    requires WellFounded(before) && bound <= |before| && Below(nodes, bound) && next < bound
    requires SameShape(before, mid) && WellFounded(mid) && Walked(before, mid, bound, nodes)
    ensures Below(nodes + [next], bound)
    ensures BoundedWithin(before, bound, nodes + [next]) <==>
            BoundedWithin(before, bound, nodes) || BoundedBelow(mid, next)
  {
    hide Reaches, AnyReaches, RewrittenUpTo, Rewritten, HoldsBounded, Entered;
    AnyReachesSnoc(before, bound, nodes, next, 0);
    forall m | 0 <= m < bound
      ensures AnyReaches(before, bound, nodes + [next], m) <==>
              AnyReaches(before, bound, nodes, m) || Reaches(mid, next, m)
      ensures HoldsBounded(mid[m]) <==> HoldsBounded(before[m]) && !AnyReaches(before, bound, nodes, m)
    {
      AnyReachesSnoc(before, bound, nodes, next, m);
      SameReach(before, mid, next, m);
      RewrittenTwice(before[m]);
    }
    if BoundedBelow(mid, next) {
      var m :| 0 <= m < |mid| && Reaches(mid, next, m) && HoldsBounded(mid[m]);
      ReachesDown(mid, next, m);
      assert AnyReaches(before, bound, nodes + [next], m) && HoldsBounded(before[m]);
    }
    if BoundedWithin(before, bound, nodes) {
      var m :| 0 <= m < bound && AnyReaches(before, bound, nodes, m) && HoldsBounded(before[m]);
      assert AnyReaches(before, bound, nodes + [next], m);
    }
    if BoundedWithin(before, bound, nodes + [next]) && !BoundedWithin(before, bound, nodes) {
      var m :| 0 <= m < bound && AnyReaches(before, bound, nodes + [next], m) && HoldsBounded(before[m]);
      assert Reaches(mid, next, m) && HoldsBounded(mid[m]);
    }
  }

  /** The walk of one object, `done` entries in, with `nodes` entered so far. */
  ghost predicate Midway(before: seq<Cell>, now: seq<Cell>, at: nat, done: nat, nodes: seq<nat>, changed: bool)
    requires WellFounded(before) && at < |before|
  {
    && SameShape(before, now) && WellFounded(now)
    && Below(nodes, at) && Walked(before, now, at, nodes)
    && done <= |before[at]| && now[at] == RewrittenUpTo(before[at], done)
    && (forall m :: at < m < |before| ==> now[m] == before[m])
    && (changed <==> BoundedWithin(before, at, nodes) || HoldsBounded(before[at][..done]))
  }

  lemma MidwayStart(before: seq<Cell>, at: nat)
    requires WellFounded(before) && at < |before|
    ensures Midway(before, before, at, 0, [], false)
  {
    hide Reaches, Entered;
    assert RewrittenUpTo(before[at], 0) == before[at];
  }

  lemma MidwayEntry(before: seq<Cell>, now: seq<Cell>, at: nat, done: nat, nodes: seq<nat>, changed: bool)
    requires WellFounded(before) && at < |before|
    requires Midway(before, now, at, done, nodes, changed) && done < |before[at]|
    ensures Midway(before, now[at := RewrittenUpTo(before[at], done + 1)], at, done + 1, nodes,
                   changed || IsBounded(before[at][done]))
  {
    hide Reaches, AnyReaches, Entered, IsBounded, RewrittenUpTo, Below;
    var next := now[at := RewrittenUpTo(before[at], done + 1)];
    RewrittenShape(before[at], done + 1);
    SliceSnoc(before[at], 0, done);
    HoldsBoundedSnoc(before[at][..done], before[at][done]);
    assert before[at][..done + 1] == before[at][..done] + [before[at][done]];
    assert forall n :: 0 <= n < |before| ==> Entered(next[n]) == Entered(before[n]);
    assert SameShape(before, next);
    SameReach(before, next, at, at);
  }

  lemma HoldsBoundedSnoc(cell: Cell, e: Entry)
    ensures HoldsBounded(cell + [e]) <==> HoldsBounded(cell) || IsBounded(e)
  {
    hide IsBounded;
    assert (cell + [e])[|cell|] == e;
    if HoldsBounded(cell) {
      var i :| 0 <= i < |cell| && IsBounded(cell[i]);
      assert (cell + [e])[i] == cell[i];
    }
  }

  lemma MidwayEnter(before: seq<Cell>, now: seq<Cell>, after: seq<Cell>, at: nat, done: nat, nodes: seq<nat>,
                    next: nat, changed: bool, found: bool)
    requires WellFounded(before) && at < |before| && next < at
    requires Midway(before, now, at, done, nodes, changed)
    requires WalkedFrom(now, after, next) && (found <==> BoundedBelow(now, next))
    ensures Midway(before, after, at, done, nodes + [next], changed || found)
  {
    hide Reaches, AnyReaches, Entered, RewrittenUpTo, Rewritten, HoldsBounded, Below, BoundedBelow, BoundedWithin;
    WalkStep(before, now, after, at, nodes, next);
    BoundedStep(before, now, at, nodes, next);
    WalkedShape(now, after, next);
    SameReach(now, after, next, next);
    forall m | at <= m < |before|
      ensures after[m] == now[m]
    {
      if Reaches(now, next, m) {
        ReachesDown(now, next, m);
      }
    }
  }

  lemma MidwayPass(before: seq<Cell>, now: seq<Cell>, at: nat, done: nat, nodes: seq<nat>, changed: bool)
    requires WellFounded(before) && at < |before|
    requires Midway(before, now, at, done, nodes, changed) && done < |before[at]| && !IsBounded(before[at][done])
    ensures Midway(before, now, at, done + 1, nodes, changed)
  {
    hide *;
    MidwayEntry(before, now, at, done, nodes, changed);
    assert now[at := RewrittenUpTo(before[at], done + 1)] == now by {
      MidwayCell(before, now, at, done, nodes, changed);
      UpToNext(before[at], done);
    }
  }

  lemma MidwayRewrite(before: seq<Cell>, now: seq<Cell>, at: nat, done: nat, nodes: seq<nat>, changed: bool)
    requires WellFounded(before) && at < |before|
    requires Midway(before, now, at, done, nodes, changed) && done < |before[at]| && IsBounded(before[at][done])
    ensures at < |now| && done < |now[at]|
    ensures Midway(before, now[at := now[at][done := RewrittenEntry(before[at][done])]], at, done + 1, nodes, true)
  {
    hide *;
    MidwayEntry(before, now, at, done, nodes, changed);
    MidwayCell(before, now, at, done, nodes, changed);
    UpToNext(before[at], done);
  }

  lemma UpToNext(cell: Cell, done: nat)
    requires done < |cell|
    ensures RewrittenUpTo(cell, done + 1) == RewrittenUpTo(cell, done)[done := RewrittenEntry(cell[done])]
    ensures !IsBounded(cell[done]) ==> RewrittenUpTo(cell, done + 1) == RewrittenUpTo(cell, done)
  {
    hide IsBounded;
  }

  lemma MidwayCell(before: seq<Cell>, now: seq<Cell>, at: nat, done: nat, nodes: seq<nat>, changed: bool)
    requires WellFounded(before) && at < |before|
    requires Midway(before, now, at, done, nodes, changed)
    ensures |now| == |before| && WellFounded(now) && done <= |before[at]| && now[at] == RewrittenUpTo(before[at], done)
  {
    hide Reaches, AnyReaches, Entered, RewrittenUpTo, Rewritten, HoldsBounded;
  }

  lemma EnteredSnoc(cell: Cell, done: nat)
    requires done < |cell|
    ensures Entered(cell[..done + 1]) == Entered(cell[..done]) + EnteredBy(cell[done])
  {
    SliceSnoc(cell, 0, done);
    assert cell[..done + 1][..done] == cell[..done];
  }

  lemma ListedSnoc(items: seq<Item>, done: nat)
    requires done < |items|
    ensures ListedIn(items[..done + 1]) ==
            ListedIn(items[..done]) + (if items[done].Ref? then [items[done].node] else [])
  {
    SliceSnoc(items, 0, done);
    assert items[..done + 1][..done] == items[..done];
  }

  lemma EntryIsBounded(e: Entry)
    ensures IsBounded(e) <==> e.key == POLICY && e.value == Text("bounded")
    ensures IsBounded(e) ==> RewrittenEntry(e) == Entry(e.key, Text("permissive")) && EnteredBy(e) == []
    ensures e.value.Ref? ==> EnteredBy(e) == [e.value.node]
    ensures e.value.Items? ==> EnteredBy(e) == ListedIn(e.value.items)
    ensures e.value.Text? || e.value.Other? ==> EnteredBy(e) == []
  {
  }

  lemma EnteredEnds(cell: Cell)
    ensures Entered(cell[..0]) == [] && cell[..|cell|] == cell
  {
  }

  lemma ListedStart(items: seq<Item>)
    ensures ListedIn(items[..0]) == [] && items[..|items|] == items
  {
  }

  lemma {:induction false} PrefixBelow(cell: Cell, done: nat, n: nat)
    requires done <= |cell| && Below(Entered(cell), n)
    ensures Below(Entered(cell[..done]), n)
    decreases |cell| - done
  {
    if done == |cell| {
      assert cell[..done] == cell;
    } else {
      PrefixBelow(cell, done + 1, n);
      EnteredSnoc(cell, done);
      var prefix, all := Entered(cell[..done]), Entered(cell[..done + 1]);
      assert forall k :: 0 <= k < |prefix| ==> all[k] == prefix[k];
    }
  }

  lemma {:induction false} ListedHolds(items: seq<Item>, j: nat)
    requires j < |items| && items[j].Ref?
    ensures items[j].node in ListedIn(items)
    decreases |items|
  {
    if j < |items| - 1 {
      ListedHolds(items[..|items| - 1], j);
    }
  }

  /** What the walk enters through an entry is an earlier object. */
  lemma EnteredBelow(heap: seq<Cell>, at: nat, i: nat, next: nat, j: nat)
    requires WellFounded(heap) && at < |heap| && i < |heap[at]|
    requires var value := heap[at][i].value;
             value == Ref(next) || (value.Items? && j < |value.items| && value.items[j] == Ref(next))
    ensures next < at
  {
    hide Reaches, RewrittenUpTo, Entered, ListedIn;
    var cell := heap[at];
    EnteredSnoc(cell, i);
    PrefixBelow(cell, i + 1, at);
    var through := EnteredBy(cell[i]);
    if cell[i].value.Items? {
      ListedHolds(cell[i].value.items, j);
    } else {
      assert through[0] == next;
    }
    assert next in through;
    var k :| 0 <= k < |through| && through[k] == next;
    var before := Entered(cell[..i]);
    assert Entered(cell[..i + 1])[|before| + k] == next;
  }

  lemma MidwayEnd(before: seq<Cell>, now: seq<Cell>, at: nat, changed: bool)
    requires WellFounded(before) && at < |before|
    requires Midway(before, now, at, |before[at]|, Entered(before[at]), changed)
    ensures WalkedFrom(before, now, at)
    ensures changed <==> BoundedBelow(before, at)
  {
    hide Entered, RewrittenUpTo, HoldsBounded;
    var nodes := Entered(before[at]);
    assert before[at][..|before[at]|] == before[at];
    forall m | 0 <= m < |before| && Reaches(before, at, m)
      ensures m <= at
    {
      ReachesDown(before, at, m);
    }
    if changed {
      if HoldsBounded(before[at]) {
        assert Reaches(before, at, at);
      } else {
        var m :| 0 <= m < at && AnyReaches(before, at, nodes, m) && HoldsBounded(before[m]);
        assert Reaches(before, at, m);
      }
    }
  }

  /** `_replace_bounded_recursive`, entered with an object */
  method ReplaceBounded(cells: array<Cell>, node: nat) returns (changed: bool)
    requires node < cells.Length && WellFounded(cells[..])
    modifies cells
    ensures WalkedFrom(old(cells[..]), cells[..], node)
    ensures changed <==> BoundedBelow(old(cells[..]), node)
    decreases node, 1
  {
    hide *;
    ghost var before := cells[..];
    var entries := cells[node];
    changed := false;
    MidwayStart(before, node);
    EnteredEnds(entries);
    for i := 0 to |entries|
      invariant Midway(before, cells[..], node, i, Entered(entries[..i]), changed)
    {
      var entry := entries[i];
      ghost var nodes := Entered(entries[..i]);
      EnteredSnoc(entries, i);
      MidwayCell(before, cells[..], node, i, nodes, changed);
      if entry.key == POLICY && entry.value == Text("bounded") {
        EntryIsBounded(entry);
        MidwayRewrite(before, cells[..], node, i, nodes, changed);
        ghost var was := cells[..];
        cells[node] := cells[node][i := Entry(entry.key, Text("permissive"))];
        assert cells[..] == was[node := was[node][i := RewrittenEntry(entry)]];
        assert Entered(entries[..i + 1]) == nodes + [] == nodes;
        changed := true;
      } else {
        EntryIsBounded(entry);
        assert nodes + [] == nodes;
        if entry.value.Ref? {
          ghost var was := cells[..];
          EnteredBelow(before, node, i, entry.value.node, 0);
          var found := ReplaceBounded(cells, entry.value.node);
          MidwayEnter(before, was, cells[..], node, i, nodes, entry.value.node, changed, found);
          changed := changed || found;
        } else if entry.value.Items? {
          changed := ReplaceListed(cells, node, entry.value.items, before, i, nodes, changed);
        }
        MidwayPass(before, cells[..], node, i, Entered(entries[..i + 1]), changed);
      }
    }
    MidwayEnd(before, cells[..], node, changed);
  }

  /** The inner loop, over the items of a list that the object holds */
  method ReplaceListed(cells: array<Cell>, node: nat, items: seq<Item>, ghost before: seq<Cell>, ghost done: nat,
                       ghost nodes: seq<nat>, sofar: bool) returns (changed: bool)
    requires WellFounded(before) && node < |before| && done < |before[node]|
    requires before[node][done].value == Items(items)
    requires cells.Length == |before| && Midway(before, cells[..], node, done, nodes, sofar)
    modifies cells
    ensures Midway(before, cells[..], node, done, nodes + ListedIn(items), changed)
    decreases node, 0
  {
    hide *;
    changed := sofar;
    ListedStart(items);
    assert nodes + [] == nodes;
    for j := 0 to |items|
      invariant Midway(before, cells[..], node, done, nodes + ListedIn(items[..j]), changed)
    {
      ListedSnoc(items, j);
      ghost var entered := nodes + ListedIn(items[..j]);
      if items[j].Ref? {
        ghost var was := cells[..];
        EnteredBelow(before, node, done, items[j].node, j);
        MidwayCell(before, was, node, done, entered, changed);
        var found := ReplaceBounded(cells, items[j].node);
        MidwayEnter(before, was, cells[..], node, done, entered, items[j].node, changed, found);
        changed := changed || found;
        assert nodes + ListedIn(items[..j + 1]) == entered + [items[j].node];
      } else {
        assert nodes + ListedIn(items[..j + 1]) == entered;
      }
    }
  }

  // ----- what a walk leaves behind -----

  /** Afterwards no object that the walk enters holds a bounded policy. */
  lemma NothingBoundedLeft(before: seq<Cell>, after: seq<Cell>, from: nat)
    requires WellFounded(before) && from < |before| && WalkedFrom(before, after, from)
    ensures WellFounded(after) && !BoundedBelow(after, from)
  {
    hide Reaches, RewrittenUpTo, Rewritten, HoldsBounded, Entered;
    WalkedShape(before, after, from);
    SameReach(before, after, from, from);
    forall m | 0 <= m < |after| && Reaches(after, from, m)
      ensures !HoldsBounded(after[m])
    {
      SameReach(before, after, from, m);
      RewrittenTwice(before[m]);
    }
  }

  /** The walk reports a change exactly when the heap is not what it was. */
  lemma ReportsEveryChange(before: seq<Cell>, after: seq<Cell>, from: nat)
    requires WellFounded(before) && from < |before| && WalkedFrom(before, after, from)
    ensures BoundedBelow(before, from) <==> after != before
    ensures BoundedBelow(before, from) <==>
            exists m :: 0 <= m < |before| && Reaches(before, from, m) && after[m] != before[m]
  {
    hide Reaches, RewrittenUpTo, Rewritten, HoldsBounded, Entered;
    forall m | 0 <= m < |before|
      ensures after[m] != before[m] <==> Reaches(before, from, m) && HoldsBounded(before[m])
    {
      RewrittenTwice(before[m]);
    }
    if after != before {
      var m :| 0 <= m < |before| && after[m] != before[m];
      assert Reaches(before, from, m) && HoldsBounded(before[m]);
    }
    if BoundedBelow(before, from) {
      var m :| 0 <= m < |before| && Reaches(before, from, m) && HoldsBounded(before[m]);
      assert after[m] != before[m];
    }
  }

  /** A second walk changes nothing and reports nothing. */
  lemma SecondWalkDoesNothing(before: seq<Cell>, after: seq<Cell>, again: seq<Cell>, from: nat)
    requires WellFounded(before) && from < |before| && WalkedFrom(before, after, from)
    requires WellFounded(after) && WalkedFrom(after, again, from)
    ensures again == after && !BoundedBelow(after, from)
  {
    hide Reaches, RewrittenUpTo, Rewritten, HoldsBounded, Entered, WalkedFrom, BoundedBelow;
    assert |after| == |before| by { WalkedShape(before, after, from); }
    NothingBoundedLeft(before, after, from);
    ReportsEveryChange(after, again, from);
  }

  // ----- objects that no walk enters -----

  /** The object stands in the value, through any number of lists. */
  ghost predicate Holds(value: Item, node: nat) {
    match value
    case Ref(n) => n == node
    case Items(items) => exists i :: 0 <= i < |items| && Holds(items[i], node)
    case _ => false
  }

  ghost predicate HoldsIn(cell: Cell, node: nat) {
    exists i :: 0 <= i < |cell| && Holds(cell[i].value, node)
  }

  /** Each object of the path is held by the one before it. */
  ghost predicate HeldAlong(heap: seq<Cell>, p: seq<nat>) {
    && (forall i :: 0 <= i < |p| ==> p[i] < |heap|)
    && forall i :: 0 <= i < |p| - 1 ==> HoldsIn(heap[p[i]], p[i + 1])
  }

  /** `target` is part of the JSON text of `from`, however many lists lie between. */
  ghost predicate Contains(heap: seq<Cell>, from: nat, target: nat) {
    exists p :: p != [] && p[0] == from && p[|p| - 1] == target && HeldAlong(heap, p)
  }

  lemma {:induction false} ListedAreHeld(items: seq<Item>, k: nat)
    requires k < |ListedIn(items)|
    ensures Holds(Items(items), ListedIn(items)[k])
  {
    if items != [] {
      var init, last := items[..|items| - 1], items[|items| - 1];
      if k < |ListedIn(init)| {
        ListedAreHeld(init, k);
        var i :| 0 <= i < |init| && Holds(init[i], ListedIn(init)[k]);
        assert items[i] == init[i];
      } else {
        assert Holds(last, ListedIn(items)[k]);
      }
    }
  }

  lemma {:induction false} EnteredAreHeld(cell: Cell, k: nat)
    requires k < |Entered(cell)|
    ensures HoldsIn(cell, Entered(cell)[k])
  {
    var init, last := cell[..|cell| - 1], cell[|cell| - 1];
    var node := Entered(cell)[k];
    if k < |Entered(init)| {
      EnteredAreHeld(init, k);
      hide Holds, EnteredBy;
      var i :| 0 <= i < |init| && Holds(init[i].value, node);
      assert cell[i] == init[i];
    } else {
      EnteredByHeld(last, k - |Entered(init)|);
      assert Holds(cell[|cell| - 1].value, node);
    }
  }

  lemma EnteredByHeld(e: Entry, k: nat)
    requires k < |EnteredBy(e)|
    ensures Holds(e.value, EnteredBy(e)[k])
  {
    if e.value.Items? {
      ListedAreHeld(e.value.items, k);
    }
  }

  lemma ContainsItself(heap: seq<Cell>, node: nat)
    requires node < |heap|
    ensures Contains(heap, node, node)
  {
    var p := [node];
    assert p[0] == node && p[|p| - 1] == node && HeldAlong(heap, p);
  }

  lemma ContainsStep(heap: seq<Cell>, from: nat, next: nat, target: nat)
    requires from < |heap| && HoldsIn(heap[from], next) && Contains(heap, next, target)
    ensures Contains(heap, from, target)
  {
    hide HoldsIn;
    var p :| p != [] && p[0] == next && p[|p| - 1] == target && HeldAlong(heap, p);
    var q := [from] + p;
    forall i | 0 <= i < |q| - 1
      ensures HoldsIn(heap[q[i]], q[i + 1])
    {
      if i > 0 {
        assert q[i] == p[i - 1] && q[i + 1] == p[i - 1 + 1];
      }
    }
    assert q[0] == from && q[|q| - 1] == target && HeldAlong(heap, q);
  }

  /** What the walk enters is part of the object it starts from. */
  lemma {:induction false} ReachedIsContained(heap: seq<Cell>, from: nat, target: nat)
    requires WellFounded(heap) && from < |heap| && Reaches(heap, from, target)
    ensures Contains(heap, from, target)
    decreases from
  {
    hide Entered, HoldsIn, Contains;
    if from == target {
      ContainsItself(heap, from);
    } else {
      var nodes := Entered(heap[from]);
      var k :| 0 <= k < |nodes| && Reaches(heap, nodes[k], target);
      ReachedIsContained(heap, nodes[k], target);
      EnteredAreHeld(heap[from], k);
      ContainsStep(heap, from, nodes[k], target);
    }
  }

  /** No list stands in a list. */
  ghost predicate FlatCell(cell: Cell) {
    forall i, j :: 0 <= i < |cell| && cell[i].value.Items? && 0 <= j < |cell[i].value.items| ==>
      !cell[i].value.items[j].Items?
  }

  lemma FlatEnters(cell: Cell, node: nat) returns (k: nat)
    requires FlatCell(cell) && HoldsIn(cell, node)
    ensures k < |Entered(cell)| && Entered(cell)[k] == node
  {
    var i: nat :| i < |cell| && Holds(cell[i].value, node);
    assert node in EnteredBy(cell[i]) by {
      var value := cell[i].value;
      if value.Items? {
        var j :| 0 <= j < |value.items| && Holds(value.items[j], node);
        ListedHolds(value.items, j);
      } else {
        assert EnteredBy(cell[i])[0] == node;
      }
    }
    var m :| 0 <= m < |EnteredBy(cell[i])| && EnteredBy(cell[i])[m] == node;
    k := EnteredAt(cell, i, m);
  }

  lemma {:induction false} EnteredAt(cell: Cell, i: nat, m: nat) returns (k: nat)
    requires i < |cell| && m < |EnteredBy(cell[i])|
    ensures k < |Entered(cell)| && Entered(cell)[k] == EnteredBy(cell[i])[m]
  {
    hide EnteredBy;
    var init := cell[..|cell| - 1];
    if i < |cell| - 1 {
      k := EnteredAt(init, i, m);
    } else {
      k := |Entered(init)| + m;
    }
  }

  /** The walk enters the objects that are an entry's value or stand directly in an entry's list, and no others. */
  lemma EnteredIff(cell: Cell, node: nat)
    ensures node in Entered(cell) <==>
            exists i :: 0 <= i < |cell| &&
              (cell[i].value == Ref(node) || (cell[i].value.Items? && Ref(node) in cell[i].value.items))
  {
    if node in Entered(cell) {
      var k :| 0 <= k < |Entered(cell)| && Entered(cell)[k] == node;
      var i, m := EnteredFrom(cell, k);
      if cell[i].value.Items? {
        ListedIff(cell[i].value.items, node);
      }
    }
    if i :| 0 <= i < |cell| &&
            (cell[i].value == Ref(node) || (cell[i].value.Items? && Ref(node) in cell[i].value.items)) {
      if cell[i].value.Items? {
        ListedIff(cell[i].value.items, node);
      }
      assert node in EnteredBy(cell[i]);
      var m :| 0 <= m < |EnteredBy(cell[i])| && EnteredBy(cell[i])[m] == node;
      var k := EnteredAt(cell, i, m);
    }
  }

  lemma {:induction false} ListedIff(items: seq<Item>, node: nat)
    ensures node in ListedIn(items) <==> Ref(node) in items
  {
    if items != [] {
      ListedIff(items[..|items| - 1], node);
      assert items == items[..|items| - 1] + [items[|items| - 1]];
    }
  }

  lemma {:induction false} EnteredFrom(cell: Cell, k: nat) returns (i: nat, m: nat)
    requires k < |Entered(cell)|
    ensures i < |cell| && m < |EnteredBy(cell[i])| && Entered(cell)[k] == EnteredBy(cell[i])[m]
  {
    hide EnteredBy;
    var init := cell[..|cell| - 1];
    if k < |Entered(init)| {
      i, m := EnteredFrom(init, k);
    } else {
      i, m := |cell| - 1, k - |Entered(init)|;
    }
  }

  /** Where no list stands in a list, the walk enters everything that is contained. */
  lemma {:induction false} FlatIsEntered(heap: seq<Cell>, p: seq<nat>)
    requires WellFounded(heap) && forall n :: 0 <= n < |heap| ==> FlatCell(heap[n])
    requires p != [] && HeldAlong(heap, p)
    ensures Reaches(heap, p[0], p[|p| - 1])
    decreases |p|
  {
    hide Entered, HoldsIn, FlatCell;
    if |p| > 1 {
      var rest := p[1..];
      assert HeldAlong(heap, rest) by {
        assert forall i :: 0 <= i < |rest| ==> rest[i] == p[i + 1];
        forall i | 0 <= i < |rest| - 1
          ensures HoldsIn(heap[rest[i]], rest[i + 1])
        {
          var j := i + 1;
          assert HoldsIn(heap[p[j]], p[j + 1]);
        }
      }
      FlatIsEntered(heap, rest);
      assert HoldsIn(heap[p[0]], p[0 + 1]);
      var k := FlatEnters(heap[p[0]], p[1]);
      assert Reaches(heap, Entered(heap[p[0]])[k], p[|p| - 1]);
    }
  }

  lemma RewrittenHolds(cell: Cell, node: nat)
    ensures HoldsIn(Rewritten(cell), node) <==> HoldsIn(cell, node)
  {
    forall i | 0 <= i < |cell|
      ensures Holds(Rewritten(cell)[i].value, node) <==> Holds(cell[i].value, node)
    {
    }
  }

  /** The walk changes no containment. */
  lemma SameContents(before: seq<Cell>, after: seq<Cell>, from: nat, root: nat, target: nat)
    requires WellFounded(before) && from < |before| && WalkedFrom(before, after, from)
    ensures Contains(before, root, target) <==> Contains(after, root, target)
  {
    hide Reaches, Rewritten, HoldsIn;
    forall m, node: nat | 0 <= m < |before|
      ensures HoldsIn(after[m], node) <==> HoldsIn(before[m], node)
    {
      RewrittenHolds(before[m], node);
    }
    forall p: seq<nat>
      ensures HeldAlong(before, p) <==> HeldAlong(after, p)
    {
    }
  }

  /**
   A walk clears everything it contains exactly when every contained object with a bounded policy is entered;
   what is contained only through a list inside a list keeps its policy.
   */
  lemma ClearsAllIff(before: seq<Cell>, after: seq<Cell>, from: nat)
    requires WellFounded(before) && from < |before| && WalkedFrom(before, after, from)
    ensures (forall m :: 0 <= m < |after| && Contains(after, from, m) ==> !HoldsBounded(after[m])) <==>
            (forall m :: 0 <= m < |before| && Contains(before, from, m) && HoldsBounded(before[m]) ==>
               Reaches(before, from, m))
  {
    hide Reaches, Rewritten, HoldsBounded, Contains;
    forall m | 0 <= m < |before|
      ensures Contains(after, from, m) <==> Contains(before, from, m)
      ensures HoldsBounded(after[m]) <==> HoldsBounded(before[m]) && !Reaches(before, from, m)
    {
      SameContents(before, after, from, from, m);
      RewrittenTwice(before[m]);
    }
  }

  /** Without lists in lists the walk clears everything. */
  lemma FlatIsCleared(before: seq<Cell>, after: seq<Cell>, from: nat, m: nat)
    requires WellFounded(before) && from < |before| && WalkedFrom(before, after, from)
    requires forall n :: 0 <= n < |before| ==> FlatCell(before[n])
    requires m < |after| && Contains(after, from, m)
    ensures !HoldsBounded(after[m])
  {
    hide Reaches, Rewritten, HoldsBounded, FlatCell, HeldAlong;
    SameContents(before, after, from, from, m);
    var p :| p != [] && p[0] == from && p[|p| - 1] == m && HeldAlong(before, p);
    FlatIsEntered(before, p);
    RewrittenTwice(before[m]);
  }

  // ----- one such object -----

  lemma NestedListEnters(e: Entry, items: seq<Item>)
    requires e.value == Items([Items(items)])
    ensures Entered([e]) == []
  {
    var list := [Items(items)];
    EnteredEnds([e]);
    EnteredSnoc([e], 0);
    ListedStart(list);
    ListedSnoc(list, 0);
    assert list[..1] == list && [e][..1] == [e];
  }

  /** An object in a list inside a list: it is contained and bounded, and the walk leaves the heap as it is. */
  lemma NestedListSkipped(inner: Cell, outer: Entry, after: seq<Cell>)
    requires Entered(inner) == [] && HoldsBounded(inner) && outer.key != POLICY
    requires outer.value == Items([Items([Ref(0)])])
    ensures var heap := [inner, [outer]];
            && WellFounded(heap) && Contains(heap, 1, 0) && !Reaches(heap, 1, 0) && !BoundedBelow(heap, 1)
            && (WalkedFrom(heap, after, 1) ==> after == heap && HoldsBounded(after[0]))
  {
    hide Entered, HoldsBounded, Rewritten, HoldsIn, Contains, WellFounded, Reaches, WalkedFrom, BoundedBelow;
    var heap := [inner, [outer]];
    NestedNotEntered(inner, outer);
    NestedIsHeld(outer);
    ContainsItself(heap, 0);
    ContainsStep(heap, 1, 0, 0);
    if WalkedFrom(heap, after, 1) {
      ReportsEveryChange(heap, after, 1);
    }
  }

  lemma NestedNotEntered(inner: Cell, outer: Entry)
    requires Entered(inner) == [] && outer.key != POLICY && outer.value == Items([Items([Ref(0)])])
    ensures var heap := [inner, [outer]];
            WellFounded(heap) && !Reaches(heap, 1, 0) && !BoundedBelow(heap, 1)
  {
    NestedListEnters(outer, [Ref(0)]);
    OneEntry(outer);
    hide Entered, HoldsBounded, EnteredBy;
    var heap := [inner, [outer]];
    assert !HoldsBounded(heap[1]) && Entered(heap[1]) == [];
    forall m | 0 <= m < 2 && Reaches(heap, 1, m)
      ensures m == 1
    {
    }
  }

  lemma NestedIsHeld(outer: Entry)
    requires outer.value == Items([Items([Ref(0)])])
    ensures HoldsIn([outer], 0)
  {
    var inmost := [Ref(0)];
    assert Holds(inmost[0], 0);
    assert Holds(Items(inmost), 0);
    var list := [Items(inmost)];
    assert Holds(list[0], 0);
    assert Holds([outer][0].value, 0);
  }

  lemma OneEntry(e: Entry)
    ensures HoldsBounded([e]) <==> IsBounded(e)
  {
    assert [e][0] == e;
  }

  // ----- every agent's settings -----

  /** Separately decoded settings have no object in common. */
  ghost predicate Unshared(heap: seq<Cell>, rows: seq<Option<nat>>)
    requires WellFounded(heap) && RootsIn(rows, |heap|)
  {
    forall i, j, m :: 0 <= i < j < |rows| && rows[i].Some? && rows[j].Some? && Reaches(heap, rows[i].value, m) ==>
      !Reaches(heap, rows[j].value, m)
  }

  ghost predicate RootsIn(rows: seq<Option<nat>>, size: nat) {
    forall i :: 0 <= i < |rows| && rows[i].Some? ==> rows[i].value < size
  }

  /** Some object of the settings is not what it was. */
  ghost predicate Differs(before: seq<Cell>, after: seq<Cell>, from: nat)
    requires WellFounded(before) && from < |before| && |after| == |before|
  {
    exists m :: 0 <= m < |before| && Reaches(before, from, m) && after[m] != before[m]
  }

  function Roots(rows: seq<Option<nat>>): seq<nat> {
    if rows == [] then []
    else Roots(rows[..|rows| - 1]) + (if rows[|rows| - 1].Some? then [rows[|rows| - 1].value] else [])
  }

  lemma RootsSnoc(rows: seq<Option<nat>>, i: nat)
    requires i < |rows|
    ensures Roots(rows[..i + 1]) == Roots(rows[..i]) + (if rows[i].Some? then [rows[i].value] else [])
  {
    SliceSnoc(rows, 0, i);
    assert rows[..i + 1][..i] == rows[..i];
  }

  lemma {:induction false} RootsAreRows(rows: seq<Option<nat>>, i: nat, size: nat)
    requires i <= |rows| && RootsIn(rows, size)
    ensures Below(Roots(rows[..i]), size)
    ensures forall k :: 0 <= k < |Roots(rows[..i])| ==> exists j :: 0 <= j < i && rows[j] == Some(Roots(rows[..i])[k])
    ensures forall j :: 0 <= j < i && rows[j].Some? ==> rows[j].value in Roots(rows[..i])
    decreases i
  {
    if i > 0 {
      RootsAreRows(rows, i - 1, size);
      RootsSnoc(rows, i - 1);
    }
  }

  lemma UnsharedRow(before: seq<Cell>, mid: seq<Cell>, rows: seq<Option<nat>>, i: nat)
    requires WellFounded(before) && RootsIn(rows, |before|) && Unshared(before, rows)
    requires i < |rows| && rows[i].Some?
    requires Below(Roots(rows[..i]), |before|) && SameShape(before, mid) && WellFounded(mid)
    requires Walked(before, mid, |before|, Roots(rows[..i]))
    ensures BoundedBelow(mid, rows[i].value) <==> BoundedBelow(before, rows[i].value)
  {
    hide Reaches, RewrittenUpTo, Rewritten, HoldsBounded, Entered, Roots, Below;
    var root := rows[i].value;
    RootsAreRows(rows, i, |before|);
    forall m | 0 <= m < |before|
      ensures Reaches(before, root, m) <==> Reaches(mid, root, m)
      ensures Reaches(before, root, m) ==> mid[m] == before[m]
    {
      SameReach(before, mid, root, m);
    }
    if BoundedBelow(before, root) {
      var m :| 0 <= m < |before| && Reaches(before, root, m) && HoldsBounded(before[m]);
      assert Reaches(mid, root, m) && HoldsBounded(mid[m]);
    }
    if BoundedBelow(mid, root) {
      var m :| 0 <= m < |mid| && Reaches(mid, root, m) && HoldsBounded(mid[m]);
      assert Reaches(before, root, m) && HoldsBounded(before[m]);
    }
  }

  lemma DiffersIff(before: seq<Cell>, after: seq<Cell>, nodes: seq<nat>, from: nat)
    requires WellFounded(before) && from < |before| && Below(nodes, |before|) && from in nodes
    requires Walked(before, after, |before|, nodes)
    ensures Differs(before, after, from) <==> BoundedBelow(before, from)
  {
    hide Reaches, RewrittenUpTo, Rewritten, HoldsBounded, Entered, Below;
    var k :| 0 <= k < |nodes| && nodes[k] == from;
    forall m | 0 <= m < |before| && Reaches(before, from, m)
      ensures after[m] != before[m] <==> HoldsBounded(before[m])
    {
      assert AnyReaches(before, |before|, nodes, m);
      RewrittenTwice(before[m]);
    }
  }

  /** The rows written so far: those whose settings held a bounded policy. */
  ghost predicate WrittenSoFar(heap: seq<Cell>, rows: seq<Option<nat>>, done: nat, written: seq<nat>)
    requires WellFounded(heap) && RootsIn(rows, |heap|)
  {
    && done <= |rows|
    && (forall a, b :: 0 <= a < b < |written| ==> written[a] < written[b])
    && (forall a :: 0 <= a < |written| ==> written[a] < done)
    && (forall i :: 0 <= i < done ==> (i in written <==> rows[i].Some? && BoundedBelow(heap, rows[i].value)))
  }

  lemma WrittenNext(heap: seq<Cell>, rows: seq<Option<nat>>, done: nat, written: seq<nat>, also: bool)
    requires WellFounded(heap) && RootsIn(rows, |heap|)
    requires WrittenSoFar(heap, rows, done, written) && done < |rows|
    requires also <==> rows[done].Some? && BoundedBelow(heap, rows[done].value)
    ensures WrittenSoFar(heap, rows, done + 1, if also then written + [done] else written)
  {
    hide BoundedBelow, WellFounded;
  }

  lemma SameShapeTrans(a: seq<Cell>, b: seq<Cell>, c: seq<Cell>)
    requires SameShape(a, b) && SameShape(b, c)
    ensures SameShape(a, c)
  {
  }

  lemma WalkedStart(heap: seq<Cell>, rows: seq<Option<nat>>)
    requires WellFounded(heap) && RootsIn(rows, |heap|)
    ensures Roots(rows[..0]) == [] && rows[..|rows|] == rows
    ensures SameShape(heap, heap) && Below([], |heap|) && Walked(heap, heap, |heap|, [])
    ensures WrittenSoFar(heap, rows, 0, [])
  {
  }

  lemma WrittenAll(before: seq<Cell>, after: seq<Cell>, rows: seq<Option<nat>>, written: seq<nat>)
    requires WellFounded(before) && RootsIn(rows, |before|) && Below(Roots(rows), |before|)
    requires Walked(before, after, |before|, Roots(rows)) && WrittenSoFar(before, rows, |rows|, written)
    ensures forall a, b :: 0 <= a < b < |written| ==> written[a] < written[b]
    ensures forall i :: i in written <==> 0 <= i < |rows| && rows[i].Some? && Differs(before, after, rows[i].value)
  {
    hide WellFounded, Differs, BoundedBelow, AnyReaches, Below, Roots;
    assert rows[..|rows|] == rows;
    RootsAreRows(rows, |rows|, |before|);
    forall i | 0 <= i < |rows| && rows[i].Some?
      ensures Differs(before, after, rows[i].value) <==> BoundedBelow(before, rows[i].value)
    {
      DiffersIff(before, after, Roots(rows), rows[i].value);
    }
  }

  /** `_rewrite_agent_settings`: one row per agent, None when the stored value is no JSON object */
  method RewriteAgentSettings(cells: array<Cell>, rows: seq<Option<nat>>) returns (written: seq<nat>)
    requires WellFounded(cells[..]) && RootsIn(rows, cells.Length) && Unshared(cells[..], rows)
    modifies cells
    ensures Below(Roots(rows), cells.Length) && Walked(old(cells[..]), cells[..], cells.Length, Roots(rows))
    ensures forall a, b :: 0 <= a < b < |written| ==> written[a] < written[b]
    ensures forall i :: i in written <==>
            0 <= i < |rows| && rows[i].Some? && Differs(old(cells[..]), cells[..], rows[i].value)
  {
    hide *;
    ghost var before := cells[..];
    written := [];
    WalkedStart(before, rows);
    for i := 0 to |rows|
      invariant SameShape(before, cells[..]) && WellFounded(cells[..])
      invariant Below(Roots(rows[..i]), |before|) && Walked(before, cells[..], |before|, Roots(rows[..i]))
      invariant WrittenSoFar(before, rows, i, written)
    {
      RootsSnoc(rows, i);
      RootsAreRows(rows, i + 1, |before|);
      if rows[i].Some? {
        ghost var was := cells[..];
        UnsharedRow(before, was, rows, i);
        var changed := ReplaceBounded(cells, rows[i].value);
        WalkedShape(was, cells[..], rows[i].value);
        WalkStep(before, was, cells[..], |before|, Roots(rows[..i]), rows[i].value);
        assert SameShape(before, cells[..]) by { SameShapeTrans(before, was, cells[..]); }
        assert WellFounded(cells[..]) by { SameReach(was, cells[..], rows[i].value, 0); }
        WrittenNext(before, rows, i, written, changed);
        if changed {
          written := written + [i];
        }
      } else {
        assert Roots(rows[..i + 1]) == Roots(rows[..i]);
        WrittenNext(before, rows, i, written, false);
      }
    }
    WrittenAll(before, cells[..], rows, written);
  }
}
