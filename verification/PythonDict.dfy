/**
 Insertion-ordered dictionaries built from lists of keyed records, as in
 `{item.id: item for item in items}`, beside first-match scans over the same lists.
 */
module PythonDict {
  import opened Basics

  /** `keys` in order of first insertion; assigning to a key again keeps its place. */
  datatype Dict<T> = Dict(keys: seq<string>, entries: map<string, T>)

  function Empty<T>(): Dict<T> {
    Dict([], map[])
  }

  /** `d[key] = value` */
  function Put<T>(d: Dict<T>, key: string, value: T): Dict<T> {
    Dict(if key in d.entries then d.keys else d.keys + [key], d.entries[key := value])
  }

  /** `{key: value for key, value in items}` */
  function FromItems<T>(items: seq<(string, T)>): Dict<T> {
    if items == [] then Empty()
    else Put(FromItems(items[..|items| - 1]), items[|items| - 1].0, items[|items| - 1].1)
  }

  ghost predicate WellFormed<T>(d: Dict<T>) {
    && Distinct(d.keys)
    && (forall k :: k in d.keys <==> k in d.entries)
  }

  /** `list(d.values())` */
  function Values<T>(d: Dict<T>): seq<T>
    requires forall k :: k in d.keys ==> k in d.entries
  {
    seq(|d.keys|, i requires 0 <= i < |d.keys| => d.entries[d.keys[i]])
  }

  /** The first item with the key, or None: the linear scans that raise KeyError. */
  function Find<T>(items: seq<(string, T)>, key: string): Option<T> {
    if items == [] then None
    else if items[0].0 == key then Some(items[0].1)
    else Find(items[1..], key)
  }

  predicate DistinctItems<T>(items: seq<(string, T)>) {
    forall i, j :: 0 <= i < j < |items| ==> items[i].0 != items[j].0
  }

  predicate HasKey<T>(items: seq<(string, T)>, key: string) {
    exists i :: 0 <= i < |items| && items[i].0 == key
  }

  lemma HasKeySnoc<T>(items: seq<(string, T)>, key: string)
    requires items != []
    ensures HasKey(items, key) <==> HasKey(items[..|items| - 1], key) || items[|items| - 1].0 == key
  {
    var init := items[..|items| - 1];
    if i :| 0 <= i < |init| && init[i].0 == key {
      assert items[i].0 == key;
    }
    if i :| 0 <= i < |items| && items[i].0 == key {
      assert i < |init| ==> init[i].0 == key;
    }
  }

  lemma FirstWithKey<T>(items: seq<(string, T)>, key: string)
    requires HasKey(items, key)
    ensures exists i :: 0 <= i < |items| && items[i].0 == key && forall j :: 0 <= j < i ==> items[j].0 != key
  {
    var i :| 0 <= i < |items| && items[i].0 == key;
    var k := 0;
    while items[k].0 != key
      invariant 0 <= k <= i && forall j :: 0 <= j < k ==> items[j].0 != key
      decreases i - k
    {
      k := k + 1;
    }
  }

  lemma {:induction false} FromItemsWellFormed<T>(items: seq<(string, T)>)
    ensures WellFormed(FromItems(items))
  {
    if items != [] {
      FromItemsWellFormed(items[..|items| - 1]);
    }
  }

  lemma {:induction false} FromItemsKeys<T>(items: seq<(string, T)>, key: string)
    ensures key in FromItems(items).entries <==> HasKey(items, key)
  {
    if items != [] {
      HasKeySnoc(items, key);
      FromItemsKeys(items[..|items| - 1], key);
    }
  }

  /** The dictionary holds the last item with a key. */
  lemma {:induction false} FromItemsIsLast<T>(items: seq<(string, T)>, i: nat)
    requires i < |items| && forall j :: i < j < |items| ==> items[j].0 != items[i].0
    ensures items[i].0 in FromItems(items).entries
    ensures FromItems(items).entries[items[i].0] == items[i].1
  {
    var init := items[..|items| - 1];
    if i < |items| - 1 {
      FromItemsIsLast(init, i);
    }
  }

  /** The scan finds the first item with a key. */
  lemma {:induction false} FindIsFirst<T>(items: seq<(string, T)>, i: nat)
    requires i < |items| && forall j :: 0 <= j < i ==> items[j].0 != items[i].0
    ensures Find(items, items[i].0) == Some(items[i].1)
  {
    if i > 0 {
      FindIsFirst(items[1..], i - 1);
    }
  }

  lemma {:induction false} FindNone<T>(items: seq<(string, T)>, key: string)
    ensures Find(items, key).Some? <==> HasKey(items, key)
  {
    if items != [] {
      FindNone(items[1..], key);
      if i :| 0 <= i < |items| && items[i].0 == key && i > 0 {
        assert items[1..][i - 1].0 == key;
      }
      if i :| 0 <= i < |items| - 1 && items[1..][i].0 == key {
        assert items[i + 1].0 == key;
      }
    }
  }

  /** What looking a key up in the dictionary gives. */
  function Lookup<T>(d: Dict<T>, key: string): Option<T> {
    if key in d.entries then Some(d.entries[key]) else None
  }

  /** With distinct keys the index refines the scan on every key, present or not. */
  lemma IndexRefinesScan<T>(items: seq<(string, T)>, key: string)
    requires DistinctItems(items)
    ensures Lookup(FromItems(items), key) == Find(items, key)
  {
    FromItemsKeys(items, key);
    FindNone(items, key);
    if i :| 0 <= i < |items| && items[i].0 == key {
      FromItemsIsLast(items, i);
      FindIsFirst(items, i);
    }
  }

  /** With a repeated key they agree exactly when its first and last items are equal. */
  lemma IndexVersusScan<T>(items: seq<(string, T)>, first: nat, last: nat)
    requires first <= last < |items| && items[first].0 == items[last].0
    requires forall j :: 0 <= j < first ==> items[j].0 != items[first].0
    requires forall j :: last < j < |items| ==> items[j].0 != items[last].0
    ensures Lookup(FromItems(items), items[first].0) == Find(items, items[first].0) <==>
            items[first].1 == items[last].1
  {
    FromItemsIsLast(items, last);
    FindIsFirst(items, first);
  }

  function Keys<T>(items: seq<(string, T)>): seq<string> {
    seq(|items|, i requires 0 <= i < |items| => items[i].0)
  }

  function Payloads<T>(items: seq<(string, T)>): seq<T> {
    seq(|items|, i requires 0 <= i < |items| => items[i].1)
  }

  /** With distinct keys the dictionary lists the items in their own order. */
  lemma {:induction false} ValuesInOrder<T>(items: seq<(string, T)>)
    requires DistinctItems(items)
    ensures WellFormed(FromItems(items))
    ensures FromItems(items).keys == Keys(items)
    ensures Values(FromItems(items)) == Payloads(items)
  {
    FromItemsWellFormed(items);
    if items != [] {
      var init, last := items[..|items| - 1], items[|items| - 1];
      ValuesInOrder(init);
      FromItemsKeys(init, last.0);
      assert !HasKey(init, last.0) by {
        assert forall i :: 0 <= i < |init| ==> init[i] == items[i];
      }
      var before, after := FromItems(init), FromItems(items);
      assert after.keys == before.keys + [last.0];
      assert forall i :: 0 <= i < |init| ==> before.keys[i] != last.0;
      assert Values(after) == Values(before) + [last.1];
      assert Keys(items) == Keys(init) + [last.0];
      assert Payloads(items) == Payloads(init) + [last.1];
    }
  }
}
