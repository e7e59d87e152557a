/** Insertion-ordered maps as plain sequences of entries with distinct keys. */
module OrderedEntries {
  ghost predicate DistinctKeys<K, E>(entries: seq<(K, E)>) {
    forall i, j :: 0 <= i < j < |entries| ==> entries[i].0 != entries[j].0
  }

  ghost predicate HasKey<K, E>(entries: seq<(K, E)>, k: K) {
    exists i :: 0 <= i < |entries| && entries[i].0 == k
  }

  ghost function Without<T>(s: seq<T>, i: nat): (r: seq<T>)
    requires i < |s|
    ensures |r| == |s| - 1
  {
    s[..i] + s[i + 1..]
  }

  lemma WithoutIsPart<T>(s: seq<T>, i: nat)
    requires i < |s|
    ensures forall k :: 0 <= k < |Without(s, i)| ==> Without(s, i)[k] in s
  {
    forall k | 0 <= k < |Without(s, i)|
      ensures Without(s, i)[k] in s
    {
      assert Without(s, i)[k] == s[if k < i then k else k + 1];
    }
  }

  lemma InWithout<T>(s: seq<T>, i: nat, x: T)
    requires i < |s| && x in s && x != s[i]
    ensures x in Without(s, i)
  {
    var k :| 0 <= k < |s| && s[k] == x;
    if k < i {
      assert Without(s, i)[k] == x;
    } else {
      assert Without(s, i)[k - 1] == x;
    }
  }

  /** The entries a condition does not hold of, in their order. */
  ghost function Remaining<K, E>(entries: seq<(K, E)>, condition: (K, E) -> bool): seq<(K, E)> {
    if entries == [] then []
    else
      var last := entries[|entries| - 1];
      Remaining(entries[..|entries| - 1], condition) + if condition(last.0, last.1) then [] else [last]
  }

  /** A scan that has visited these entries: what it kept of them, then the rest. */
  ghost predicate Scanned<K, E>(all: seq<(K, E)>, condition: (K, E) -> bool, visited: seq<(K, E)>,
                                entries: seq<(K, E)>, position: nat)
  {
    var kept := Remaining(visited, condition);
    visited <= all && entries == kept + all[|visited|..] && position == |kept|
  }

  lemma ScanBegins<K, E>(all: seq<(K, E)>, condition: (K, E) -> bool)
    ensures Scanned(all, condition, [], all, 0)
  {
  }

  lemma ScanStep<K, E>(all: seq<(K, E)>, condition: (K, E) -> bool, visited: seq<(K, E)>,
                       entries: seq<(K, E)>, position: nat)
    requires Scanned(all, condition, visited, entries, position) && position < |entries|
    ensures var x := entries[position];
            if condition(x.0, x.1)
            then Scanned(all, condition, visited + [x], Without(entries, position), position)
            else Scanned(all, condition, visited + [x], entries, position + 1)
  {
    var kept, seen := Remaining(visited, condition), |visited|;
    assert all[seen..] == [all[seen]] + all[seen + 1..];
    assert (visited + [all[seen]])[..seen] == visited;
    assert Without(entries, position) == kept + all[seen + 1..];
    assert entries == kept + [all[seen]] + all[seen + 1..];
    assert kept + [] == kept;
  }

  /** The cursor reaches the end exactly when everything was visited. */
  lemma ScanEnds<K, E>(all: seq<(K, E)>, condition: (K, E) -> bool, visited: seq<(K, E)>,
                       entries: seq<(K, E)>, position: nat)
    requires Scanned(all, condition, visited, entries, position)
    ensures position <= |entries| && |visited| <= |all|
    ensures position == |entries| <==> |visited| == |all|
    ensures position == |entries| ==> visited == all && entries == Remaining(all, condition)
  {
  }

  // ---- the map the entries stand for ----

  ghost function AsMap<K, E>(entries: seq<(K, E)>): map<K, E> {
    if entries == [] then map[]
    else
      var last := entries[|entries| - 1];
      AsMap(entries[..|entries| - 1])[last.0 := last.1]
  }

  lemma {:induction false} MapHasKeys<K, E>(entries: seq<(K, E)>, k: K)
    ensures k in AsMap(entries) <==> HasKey(entries, k)
  {
    if entries == [] {
    } else {
      var rest, last := entries[..|entries| - 1], entries[|entries| - 1];
      MapHasKeys(rest, k);
      if HasKey(rest, k) {
        var i :| 0 <= i < |rest| && rest[i].0 == k;
        assert entries[i].0 == k;
      }
      if HasKey(entries, k) {
        var i :| 0 <= i < |entries| && entries[i].0 == k;
        assert i == |rest| || rest[i].0 == k;
      }
      assert last.0 == k ==> entries[|rest|].0 == k;
    }
  }

  /** With distinct keys each entry is what its key maps to. */
  lemma {:induction false} MapHasEntries<K, E>(entries: seq<(K, E)>, i: nat)
    requires DistinctKeys(entries) && i < |entries|
    ensures entries[i].0 in AsMap(entries) && AsMap(entries)[entries[i].0] == entries[i].1
    decreases |entries|
  {
    if i < |entries| - 1 {
      MapHasEntries(entries[..|entries| - 1], i);
    }
  }

  /** Deleting an entry removes its key from the map and nothing else. */
  lemma {:induction false} DeletionRemovesKey<K, E>(entries: seq<(K, E)>, i: nat)
    requires DistinctKeys(entries) && i < |entries|
    ensures AsMap(Without(entries, i)) == AsMap(entries) - {entries[i].0}
    decreases |entries|
  {
    var rest, last := entries[..|entries| - 1], entries[|entries| - 1];
    if i == |rest| {
      assert Without(entries, i) == rest;
      MapHasKeys(rest, last.0);
    } else {
      DeletionRemovesKey(rest, i);
      assert Without(entries, i)[..|rest| - 1] == Without(rest, i);
      assert Without(entries, i)[|rest| - 1] == last;
    }
  }

  /** A map without the keys the condition deletes. */
  ghost function Spared<K, E>(m: map<K, E>, condition: (K, E) -> bool): map<K, E> {
    map k | k in m && !condition(k, m[k]) :: m[k]
  }

  lemma SparedNext<K, E>(m: map<K, E>, condition: (K, E) -> bool, k: K, e: E)
    requires k !in m
    ensures Spared(m[k := e], condition) ==
            if condition(k, e) then Spared(m, condition) else Spared(m, condition)[k := e]
  {
  }

  lemma MapNext<K, E>(rest: seq<(K, E)>, last: (K, E))
    ensures AsMap(rest + [last]) == AsMap(rest)[last.0 := last.1]
  {
    assert (rest + [last])[..|rest|] == rest;
  }

  lemma DistinctNext<K, E>(rest: seq<(K, E)>, last: (K, E))
    requires DistinctKeys(rest + [last])
    ensures DistinctKeys(rest) && last.0 !in AsMap(rest)
  {
    MapHasKeys(rest, last.0);
    var all := rest + [last];
    forall i | 0 <= i < |rest|
      ensures rest[i].0 != last.0
    {
      assert all[i] == rest[i] && all[|rest|] == last;
    }
    forall i, j | 0 <= i < j < |rest|
      ensures rest[i].0 != rest[j].0
    {
      assert all[i] == rest[i] && all[j] == rest[j];
    }
  }

  lemma RemainingNext<K, E>(rest: seq<(K, E)>, condition: (K, E) -> bool, last: (K, E))
    ensures AsMap(Remaining(rest + [last], condition)) ==
            if condition(last.0, last.1) then AsMap(Remaining(rest, condition))
            else AsMap(Remaining(rest, condition))[last.0 := last.1]
  {
    var kept := Remaining(rest, condition);
    assert (rest + [last])[..|rest|] == rest;
    assert (kept + [last])[..|kept|] == kept && kept + [] == kept;
  }

  /** What a scan leaves is the map restricted to the keys its condition spares. */
  lemma {:induction false} ScanRestrictsMap<K, E>(entries: seq<(K, E)>, condition: (K, E) -> bool)
    requires DistinctKeys(entries)
    ensures AsMap(Remaining(entries, condition)) == Spared(AsMap(entries), condition)
  {
    if entries == [] {
    } else {
      hide Remaining, Spared, AsMap, DistinctKeys;
      var rest, last := entries[..|entries| - 1], entries[|entries| - 1];
      assert entries == rest + [last];
      DistinctNext(rest, last);
      MapNext(rest, last);
      ScanRestrictsMap(rest, condition);
      RemainingNext(rest, condition, last);
      SparedNext(AsMap(rest), condition, last.0, last.1);
    }
  }

  /** A new entry in front adds its key to the map. */
  lemma {:induction false} FrontAddsKey<K, E>(entries: seq<(K, E)>, k: K, e: E)
    requires !HasKey(entries, k)
    ensures AsMap([(k, e)] + entries) == AsMap(entries)[k := e]
    ensures DistinctKeys(entries) ==> DistinctKeys([(k, e)] + entries)
    decreases |entries|
  {
    if entries == [] {
      assert [(k, e)][..0] == [];
      assert [(k, e)] + entries == [(k, e)];
    } else {
      var rest, last := entries[..|entries| - 1], entries[|entries| - 1];
      assert !HasKey(rest, k) && last.0 != k;
      FrontAddsKey(rest, k, e);
      assert ([(k, e)] + entries)[..|entries|] == [(k, e)] + rest;
      assert AsMap(entries)[k := e] == AsMap(rest)[k := e][last.0 := last.1];
    }
  }

  /** Changing the element of one entry changes what its key maps to. */
  lemma {:induction false} UpdateChangesKey<K, E>(entries: seq<(K, E)>, i: nat, e: E)
    requires DistinctKeys(entries) && i < |entries|
    ensures AsMap(entries[i := (entries[i].0, e)]) == AsMap(entries)[entries[i].0 := e]
    ensures DistinctKeys(entries[i := (entries[i].0, e)])
    decreases |entries|
  {
    var rest, last := entries[..|entries| - 1], entries[|entries| - 1];
    if i == |rest| {
      assert entries[i := (last.0, e)][..|rest|] == rest;
    } else {
      UpdateChangesKey(rest, i, e);
      assert entries[i := (entries[i].0, e)][..|rest|] == rest[i := (rest[i].0, e)];
      assert last.0 != entries[i].0;
    }
  }

  lemma {:induction false} MapSize<K, E>(entries: seq<(K, E)>)
    requires DistinctKeys(entries)
    ensures |AsMap(entries)| == |entries|
  {
    if entries == [] {
    } else {
      var rest, last := entries[..|entries| - 1], entries[|entries| - 1];
      MapSize(rest);
      MapHasKeys(rest, last.0);
      assert AsMap(entries).Keys == AsMap(rest).Keys + {last.0};
    }
  }
}
