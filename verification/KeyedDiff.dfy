/**
 The keyed diff that agent review applies to facts, to transitions and to tool bindings: both
 versions become dictionaries, and the sorted union of their keys is walked once.
 */
module KeyedDiff {
  import opened Basics
  import opened Ordering
  import opened PythonDict

  datatype Status = Added | Removed | Changed

  datatype Change<T> = Change(key: string, status: Status, before: Option<T>, after: Option<T>)

  /** `{key(item): item for item in items}` */
  function Keyed<T>(items: seq<T>, key: T -> string): seq<(string, T)> {
    seq(|items|, i requires 0 <= i < |items| => (key(items[i]), items[i]))
  }

  function IndexOf<T>(items: seq<T>, key: T -> string): map<string, T> {
    FromItems(Keyed(items, key)).entries
  }

  /** What the walk records at one key; `dump` is the JSON form by which two records are compared. */
  function ChangeAt<T, J(==)>(source: map<string, T>, against: map<string, T>, dump: T -> J, k: string): seq<Change<T>>
    requires k in source || k in against
  {
    if k !in source then [Change(k, Removed, Some(against[k]), None)]
    else if k !in against then [Change(k, Added, None, Some(source[k]))]
    else if dump(source[k]) != dump(against[k]) then [Change(k, Changed, Some(against[k]), Some(source[k]))]
    else []
  }

  lemma AtMostOneChange<T, J>(source: map<string, T>, against: map<string, T>, dump: T -> J, k: string)
    requires k in source || k in against
    ensures |ChangeAt(source, against, dump, k)| <= 1
  {
  }

  predicate Covered<T>(keys: seq<string>, source: map<string, T>, against: map<string, T>) {
    forall i :: 0 <= i < |keys| ==> keys[i] in source || keys[i] in against
  }

  function ChangesAt<T, J(==)>(source: map<string, T>, against: map<string, T>, dump: T -> J,
                               keys: seq<string>): seq<Change<T>>
    requires Covered(keys, source, against)
  {
    if keys == [] then []
    else ChangesAt(source, against, dump, keys[..|keys| - 1]) + ChangeAt(source, against, dump, keys[|keys| - 1])
  }

  function Diff<T, J(==)>(source: map<string, T>, against: map<string, T>, dump: T -> J): seq<Change<T>> {
    ChangesAt(source, against, dump, SortedKeys(source.Keys + against.Keys))
  }

  method DiffItems<T, J(==)>(source: seq<T>, against: seq<T>, key: T -> string, dump: T -> J)
    returns (changes: seq<Change<T>>)
    ensures changes == Diff(IndexOf(source, key), IndexOf(against, key), dump)
  {
    hide StrictlySorted, IndexOf;
    var sourceByKey, againstByKey := IndexOf(source, key), IndexOf(against, key);
    var keys := SortedKeys(sourceByKey.Keys + againstByKey.Keys);
    changes := [];
    for i := 0 to |keys|
      invariant changes == ChangesAt(sourceByKey, againstByKey, dump, keys[..i])
    {
      var k := keys[i];
      assert keys[..i + 1][..i] == keys[..i];
      assert k in keys;
      if k !in sourceByKey {
        changes := changes + [Change(k, Removed, Some(againstByKey[k]), None)];
        continue;
      }
      if k !in againstByKey {
        changes := changes + [Change(k, Added, None, Some(sourceByKey[k]))];
        continue;
      }
      if dump(sourceByKey[k]) != dump(againstByKey[k]) {
        changes := changes + [Change(k, Changed, Some(againstByKey[k]), Some(sourceByKey[k]))];
      }
    }
    assert keys[..|keys|] == keys;
  }

  // ----- what a diff contains -----

  predicate KeyOrdered<T>(changes: seq<Change<T>>) {
    forall i, j :: 0 <= i < j < |changes| ==> StrLess(changes[i].key, changes[j].key)
  }

  predicate HasChange<T>(changes: seq<Change<T>>, k: string) {
    exists i :: 0 <= i < |changes| && changes[i].key == k
  }

  lemma SortedInit(keys: seq<string>)
    requires StrictlySorted(keys) && keys != []
    ensures var init := keys[..|keys| - 1];
            && StrictlySorted(init)
            && (forall k :: k in init ==> StrLess(k, keys[|keys| - 1]))
            && keys[|keys| - 1] !in init
  {
    assert forall i :: 0 <= i < |keys| - 1 ==> StrLess(keys[i], keys[|keys| - 1]);
  }

  lemma {:induction false} ChangesAtOrdered<T, J>(source: map<string, T>, against: map<string, T>, dump: T -> J,
                                                  keys: seq<string>)
    requires Covered(keys, source, against)
    requires StrictlySorted(keys)
    ensures KeyOrdered(ChangesAt(source, against, dump, keys))
    ensures forall i :: 0 <= i < |ChangesAt(source, against, dump, keys)| ==>
              ChangesAt(source, against, dump, keys)[i].key in keys
  {
    if keys != [] {
      SortedInit(keys);
      hide StrLess, StrictlySorted;
      ChangesAtOrdered(source, against, dump, keys[..|keys| - 1]);
    }
  }

  /** A diff lists a key at most once, in sorted order. */
  lemma DiffOrdered<T, J>(source: map<string, T>, against: map<string, T>, dump: T -> J)
    ensures KeyOrdered(Diff(source, against, dump))
  {
    hide StrLess, KeyOrdered;
    ChangesAtOrdered(source, against, dump, SortedKeys(source.Keys + against.Keys));
  }

  lemma {:induction false} ChangesAtSound<T, J>(source: map<string, T>, against: map<string, T>, dump: T -> J,
                                                keys: seq<string>, i: nat)
    requires Covered(keys, source, against)
    requires i < |ChangesAt(source, against, dump, keys)|
    ensures var c := ChangesAt(source, against, dump, keys)[i];
            (c.key in source || c.key in against) && ChangeAt(source, against, dump, c.key) == [c]
  {
    var earlier := ChangesAt(source, against, dump, keys[..|keys| - 1]);
    if i < |earlier| {
      ChangesAtSound(source, against, dump, keys[..|keys| - 1], i);
    }
  }

  lemma {:induction false} ChangesAtComplete<T, J>(source: map<string, T>, against: map<string, T>, dump: T -> J,
                                                   keys: seq<string>, k: string)
    requires Covered(keys, source, against)
    requires k in keys
    ensures ChangeAt(source, against, dump, k) != [] ==> HasChange(ChangesAt(source, against, dump, keys), k)
  {
    var init, last := keys[..|keys| - 1], keys[|keys| - 1];
    var earlier, here := ChangesAt(source, against, dump, init), ChangeAt(source, against, dump, last);
    var changes := earlier + here;
    if k == last {
      if here != [] {
        assert changes[|earlier|].key == k;
      }
    } else {
      ChangesAtComplete(source, against, dump, init, k);
      if i :| 0 <= i < |earlier| && earlier[i].key == k {
        assert changes[i].key == k;
      }
    }
  }

  /** It lists exactly the keys at which the versions differ, each with what differs there. */
  lemma DiffDescribes<T, J>(source: map<string, T>, against: map<string, T>, dump: T -> J, k: string)
    ensures HasChange(Diff(source, against, dump), k) <==>
            (k in source || k in against) && ChangeAt(source, against, dump, k) != []
    ensures forall i :: 0 <= i < |Diff(source, against, dump)| && Diff(source, against, dump)[i].key == k ==>
              (k in source || k in against) && ChangeAt(source, against, dump, k) == [Diff(source, against, dump)[i]]
  {
    var keys := SortedKeys(source.Keys + against.Keys);
    var changes := ChangesAt(source, against, dump, keys);
    hide SortedKeys, ChangesAt, StrictlySorted, ChangeAt;
    forall i | 0 <= i < |changes| && changes[i].key == k
      ensures (k in source || k in against) && ChangeAt(source, against, dump, k) == [changes[i]]
    {
      ChangesAtSound(source, against, dump, keys, i);
    }
    if k in keys {
      ChangesAtComplete(source, against, dump, keys, k);
    }
  }

  /** A change that is due between the versions, told by its status. */
  ghost predicate Due<T, J>(source: map<string, T>, against: map<string, T>, dump: T -> J, c: Change<T>) {
    match c.status
    case Removed => c.key in against && c.key !in source && c.before == Some(against[c.key]) && c.after == None
    case Added => c.key in source && c.key !in against && c.before == None && c.after == Some(source[c.key])
    case Changed =>
      && c.key in source && c.key in against && dump(source[c.key]) != dump(against[c.key])
      && c.before == Some(against[c.key]) && c.after == Some(source[c.key])
  }

  /** The changes in a diff are exactly those that are due. */
  lemma DiffIff<T, J>(source: map<string, T>, against: map<string, T>, dump: T -> J, c: Change<T>)
    ensures c in Diff(source, against, dump) <==> Due(source, against, dump, c)
  {
    var changes := Diff(source, against, dump);
    DiffDescribes(source, against, dump, c.key);
    hide Diff;
    if c in changes {
      var i :| 0 <= i < |changes| && changes[i] == c;
      assert ChangeAt(source, against, dump, c.key)[0] == c;
    }
    if Due(source, against, dump, c) {
      var i :| 0 <= i < |changes| && changes[i].key == c.key;
      assert ChangeAt(source, against, dump, c.key) == [changes[i]];
      assert ChangeAt(source, against, dump, c.key) == [c];
      assert [changes[i]][0] == [c][0];
    }
  }

  /** An index of the items: under every key the last item that has it, and no other keys. */
  ghost predicate IndexedBy<T>(items: seq<T>, key: T -> string, index: map<string, T>) {
    && (forall k :: k in index ==> exists i :: 0 <= i < |items| && key(items[i]) == k)
    && (forall i :: LastOfKey(items, key, i) ==> key(items[i]) in index && index[key(items[i])] == items[i])
  }

  ghost predicate LastOfKey<T>(items: seq<T>, key: T -> string, i: int) {
    0 <= i < |items| && forall j :: i < j < |items| ==> key(items[j]) != key(items[i])
  }

  lemma IndexIs<T>(items: seq<T>, key: T -> string)
    ensures IndexedBy(items, key, IndexOf(items, key))
  {
    hide FromItems;
    forall k | k in IndexOf(items, key)
      ensures exists i :: 0 <= i < |items| && key(items[i]) == k
    {
      FromItemsKeys(Keyed(items, key), k);
      var i :| 0 <= i < |items| && Keyed(items, key)[i].0 == k;
      assert key(items[i]) == k;
    }
    forall i | LastOfKey(items, key, i)
      ensures key(items[i]) in IndexOf(items, key) && IndexOf(items, key)[key(items[i])] == items[i]
    {
      FromItemsIsLast(Keyed(items, key), i);
    }
  }

  // ----- a diff is a patch -----

  function Apply<T>(changes: seq<Change<T>>, base: map<string, T>): map<string, T> {
    if changes == [] then base
    else
      var last := changes[|changes| - 1];
      var earlier := Apply(changes[..|changes| - 1], base);
      if last.after.Some? then earlier[last.key := last.after.value] else earlier - {last.key}
  }

  /** The same keys, with records that dump alike. */
  ghost predicate SameDump<T, J>(a: map<string, T>, b: map<string, T>, dump: T -> J) {
    a.Keys == b.Keys && forall k :: k in a ==> dump(a[k]) == dump(b[k])
  }

  /** The effect of what was recorded at one key. */
  function ApplyHere<T>(base: map<string, T>, here: seq<Change<T>>): map<string, T> {
    if here == [] then base
    else if here[0].after.Some? then base[here[0].key := here[0].after.value]
    else base - {here[0].key}
  }

  lemma ApplySnoc<T>(changes: seq<Change<T>>, here: seq<Change<T>>, base: map<string, T>)
    requires |here| <= 1
    ensures Apply(changes + here, base) == ApplyHere(Apply(changes, base), here)
  {
    if here == [] {
      assert changes + here == changes;
    } else {
      assert (changes + here)[..|changes + here| - 1] == changes;
    }
  }

  lemma ApplyHereAt<T, J>(base: map<string, T>, source: map<string, T>, against: map<string, T>, dump: T -> J,
                          last: string, k: string)
    requires last in source || last in against
    ensures var result := ApplyHere(base, ChangeAt(source, against, dump, last));
            && (k != last ==> (k in result <==> k in base) && (k in base ==> result[k] == base[k]))
            && ((last in base <==> last in against) && (last in base ==> base[last] == against[last]) ==>
                  PatchedAt(result, source, against, dump, last))
  {
  }

  /** At `k` the patched version holds the source's record, or keeps the old one where they dump alike. */
  ghost predicate PatchedAt<T, J>(patched: map<string, T>, source: map<string, T>, against: map<string, T>,
                                  dump: T -> J, k: string) {
    && (k in patched <==> k in source)
    && (k in source ==>
          || patched[k] == source[k]
          || (k in against && patched[k] == against[k] && dump(against[k]) == dump(source[k])))
  }

  lemma {:induction false} ApplyAt<T, J>(source: map<string, T>, against: map<string, T>, dump: T -> J,
                                         keys: seq<string>, k: string)
    requires Covered(keys, source, against)
    requires StrictlySorted(keys)
    ensures var patched := Apply(ChangesAt(source, against, dump, keys), against);
            if k in keys then PatchedAt(patched, source, against, dump, k)
            else (k in patched <==> k in against) && (k in against ==> patched[k] == against[k])
  {
    if keys != [] {
      var init, last := keys[..|keys| - 1], keys[|keys| - 1];
      SortedInit(keys);
      assert k in keys <==> k in init || k == last;
      assert last in source || last in against;
      ApplySnoc(ChangesAt(source, against, dump, init), ChangeAt(source, against, dump, last), against);
      hide StrictlySorted, StrLess, Apply, ApplyHere, ChangeAt;
      ApplyAt(source, against, dump, init, k);
      ApplyHereAt(Apply(ChangesAt(source, against, dump, init), against), source, against, dump, last, k);
    }
  }

  lemma PatchAt<T, J>(source: map<string, T>, against: map<string, T>, dump: T -> J, k: string)
    ensures k in source || k in against ==>
            PatchedAt(Apply(Diff(source, against, dump), against), source, against, dump, k)
    ensures k !in source && k !in against ==> k !in Apply(Diff(source, against, dump), against)
  {
    hide Apply, ChangesAt, StrictlySorted;
    ApplyAt(source, against, dump, SortedKeys(source.Keys + against.Keys), k);
  }

  /** Applying a diff to the version it was taken against yields the version it was taken of. */
  lemma DiffIsPatch<T, J>(source: map<string, T>, against: map<string, T>, dump: T -> J)
    ensures SameDump(Apply(Diff(source, against, dump), against), source, dump)
  {
    hide Apply, Diff;
    forall k
      ensures var patched := Apply(Diff(source, against, dump), against);
              (k in patched <==> k in source) && (k in source ==> dump(patched[k]) == dump(source[k]))
    {
      PatchAt(source, against, dump, k);
    }
  }

  /** If records that dump alike are equal, the patch yields the very same version. */
  lemma DiffIsExactPatch<T, J>(source: map<string, T>, against: map<string, T>, dump: T -> J)
    requires forall k :: k in source && k in against && dump(source[k]) == dump(against[k]) ==> source[k] == against[k]
    ensures Apply(Diff(source, against, dump), against) == source
  {
    hide Apply, Diff;
    var patched := Apply(Diff(source, against, dump), against);
    forall k
      ensures (k in patched <==> k in source) && (k in source ==> patched[k] == source[k])
    {
      PatchAt(source, against, dump, k);
    }
  }

  /** A diff is empty exactly when nothing that is compared differs; in particular a self-diff is empty. */
  lemma DiffEmptyIff<T, J>(source: map<string, T>, against: map<string, T>, dump: T -> J)
    ensures Diff(source, against, dump) == [] <==> SameDump(source, against, dump)
  {
    var changes := Diff(source, against, dump);
    hide Diff;
    if changes == [] {
      forall k
        ensures k in source <==> k in against
        ensures k in source && k in against ==> dump(source[k]) == dump(against[k])
      {
        DiffDescribes(source, against, dump, k);
      }
    } else {
      DiffDescribes(source, against, dump, changes[0].key);
    }
  }

  // ----- swapping the versions -----

  function MirrorChange<T>(c: Change<T>): Change<T> {
    Change(c.key, match c.status case Added => Removed case Removed => Added case Changed => Changed, c.after, c.before)
  }

  function Mirror<T>(changes: seq<Change<T>>): seq<Change<T>> {
    seq(|changes|, i requires 0 <= i < |changes| => MirrorChange(changes[i]))
  }

  lemma {:induction false} ChangesAtMirror<T, J>(source: map<string, T>, against: map<string, T>, dump: T -> J,
                                                 keys: seq<string>)
    requires Covered(keys, source, against)
    ensures ChangesAt(against, source, dump, keys) == Mirror(ChangesAt(source, against, dump, keys))
  {
    if keys != [] {
      var init, last := keys[..|keys| - 1], keys[|keys| - 1];
      ChangesAtMirror(source, against, dump, init);
      assert ChangeAt(against, source, dump, last) == Mirror(ChangeAt(source, against, dump, last));
    }
  }

  /** Swapping the versions swaps added with removed and before with after, key by key. */
  lemma DiffAntisymmetric<T, J>(source: map<string, T>, against: map<string, T>, dump: T -> J)
    ensures Diff(against, source, dump) == Mirror(Diff(source, against, dump))
  {
    assert source.Keys + against.Keys == against.Keys + source.Keys;
    ChangesAtMirror(source, against, dump, SortedKeys(source.Keys + against.Keys));
  }

  // ----- counting -----

  function CountStatus<T>(changes: seq<Change<T>>, status: Status): nat {
    if changes == [] then 0
    else CountStatus(changes[..|changes| - 1], status) + (if changes[|changes| - 1].status == status then 1 else 0)
  }

  /** Added records less removed ones. */
  function Balance<T>(changes: seq<Change<T>>): int {
    CountStatus(changes, Added) - CountStatus(changes, Removed)
  }

  lemma CountStatusConcat<T>(changes: seq<Change<T>>, here: seq<Change<T>>, status: Status)
    requires |here| <= 1
    ensures CountStatus(changes + here, status) == CountStatus(changes, status) + CountStatus(here, status)
  {
    if here == [] {
      assert changes + here == changes;
    } else {
      assert (changes + here)[..|changes + here| - 1] == changes;
      assert here[..0] == [];
    }
  }

  lemma BalanceConcat<T>(changes: seq<Change<T>>, here: seq<Change<T>>)
    requires |here| <= 1
    ensures Balance(changes + here) == Balance(changes) + Balance(here)
  {
    hide CountStatus;
    CountStatusConcat(changes, here, Added);
    CountStatusConcat(changes, here, Removed);
  }

  lemma CountStatusOne<T>(c: Change<T>, status: Status)
    ensures CountStatus([c], status) == if c.status == status then 1 else 0
  {
    assert [c][..0] == [];
  }

  lemma HereBalances<T, J>(source: map<string, T>, against: map<string, T>, dump: T -> J, k: string)
    requires k in source || k in against
    ensures Balance(ChangeAt(source, against, dump, k)) ==
            (if k in source then 1 else 0) - (if k in against then 1 else 0)
  {
    var here := ChangeAt(source, against, dump, k);
    if here != [] {
      assert here == [here[0]];
      CountStatusOne(here[0], Added);
      CountStatusOne(here[0], Removed);
    }
  }

  /** How many more of the keys the source has than the version it is compared against. */
  function Growth<T>(keys: seq<string>, source: map<string, T>, against: map<string, T>): int {
    |ToSet(keys) * source.Keys| - |ToSet(keys) * against.Keys|
  }

  lemma SetSnoc(keys: seq<string>, members: set<string>)
    requires keys != [] && keys[|keys| - 1] !in keys[..|keys| - 1]
    ensures var init := keys[..|keys| - 1];
            |ToSet(keys) * members| == |ToSet(init) * members| + (if keys[|keys| - 1] in members then 1 else 0)
  {
    var init, last := keys[..|keys| - 1], keys[|keys| - 1];
    assert ToSet(keys) == ToSet(init) + {last};
    assert ToSet(keys) * members == if last in members then ToSet(init) * members + {last} else ToSet(init) * members;
  }

  lemma GrowthSnoc<T>(keys: seq<string>, source: map<string, T>, against: map<string, T>)
    requires keys != [] && keys[|keys| - 1] !in keys[..|keys| - 1]
    ensures Growth(keys, source, against) ==
            Growth(keys[..|keys| - 1], source, against)
            + (if keys[|keys| - 1] in source then 1 else 0) - (if keys[|keys| - 1] in against then 1 else 0)
  {
    hide ToSet;
    SetSnoc(keys, source.Keys);
    SetSnoc(keys, against.Keys);
  }

  lemma {:induction false} ChangesAtBalance<T, J>(source: map<string, T>, against: map<string, T>, dump: T -> J,
                                                  keys: seq<string>)
    requires Covered(keys, source, against)
    requires StrictlySorted(keys)
    ensures Balance(ChangesAt(source, against, dump, keys)) == Growth(keys, source, against)
  {
    if keys == [] {
      assert ToSet(keys) * source.Keys == {} && ToSet(keys) * against.Keys == {};
    } else {
      hide ToSet, StrLess, ChangeAt, Balance, Growth;
      var init, last := keys[..|keys| - 1], keys[|keys| - 1];
      SortedInit(keys);
      hide StrictlySorted;
      GrowthSnoc(keys, source, against);
      ChangesAtBalance(source, against, dump, init);
      HereBalances(source, against, dump, last);
      AtMostOneChange(source, against, dump, last);
      BalanceConcat(ChangesAt(source, against, dump, init), ChangeAt(source, against, dump, last));
    }
  }

  /** Added less removed is the growth in the number of records. */
  lemma DiffBalances<T, J>(source: map<string, T>, against: map<string, T>, dump: T -> J)
    ensures Balance(Diff(source, against, dump)) == |source| - |against|
  {
    var keys := SortedKeys(source.Keys + against.Keys);
    hide StrictlySorted, ChangesAt, Balance;
    ChangesAtBalance(source, against, dump, keys);
    assert ToSet(keys) * source.Keys == source.Keys;
    assert ToSet(keys) * against.Keys == against.Keys;
  }
}
