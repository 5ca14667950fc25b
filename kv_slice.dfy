/** Conversion of the aggregated intermediate mapping into the list of entries handed
    to the reduce tasks. Map iteration order is unspecified, so the conversion is
    specified only up to the order of its entries. */
module KVSlice {
  import opened Entries

  /** kvs lists every key of kvMap exactly once, each with its values verbatim. */
  ghost predicate Enumerates(kvs: seq<MRInput>, kvMap: Results)
  {
    && (forall i :: 0 <= i < |kvs| ==> kvs[i].key in kvMap && kvs[i].values == kvMap[kvs[i].key])
    && (forall i, j :: 0 <= i < j < |kvs| ==> kvs[i].key != kvs[j].key)
    && KeysOf(kvs) == kvMap.Keys
  }

  /** Visits the keys in an arbitrary order and appends one entry per key. */
  method MapToKVSlice(kvMap: Results) returns (kvs: seq<MRInput>)
    ensures Enumerates(kvs, kvMap)
    ensures |kvs| == |kvMap|
  {
    kvs := [];
    var unvisited := kvMap.Keys;
    while unvisited != {}
      invariant EnumeratesVisited(kvs, kvMap, unvisited)
      decreases |unvisited|
    {
      var key :| key in unvisited;
      VisitKey(kvs, kvMap, unvisited, key);
      kvs := kvs + [MRInput(key, kvMap[key])];
      unvisited := unvisited - {key};
    }
  }

  /** The conversion so far lists every key outside `unvisited` exactly once. */
  ghost predicate EnumeratesVisited(kvs: seq<MRInput>, kvMap: Results, unvisited: set<string>)
  {
    && unvisited <= kvMap.Keys
    && Enumerates(kvs, kvMap - unvisited)
    && |kvs| + |unvisited| == |kvMap|
  }

  lemma VisitKey(kvs: seq<MRInput>, kvMap: Results, unvisited: set<string>, key: string)
    requires EnumeratesVisited(kvs, kvMap, unvisited) && key in unvisited
    ensures EnumeratesVisited(kvs + [MRInput(key, kvMap[key])], kvMap, unvisited - {key})
  {
    var visited, next := kvMap - unvisited, kvMap - (unvisited - {key});
    assert |unvisited - {key}| == |unvisited| - 1;
    assert next == visited[key := kvMap[key]];
    EnumeratesSnoc(kvs, visited, MRInput(key, kvMap[key]));
  }

  /** Appending an entry for a fresh key extends a conversion by that key. */
  lemma EnumeratesSnoc(kvs: seq<MRInput>, kvMap: Results, entry: MRInput)
    requires Enumerates(kvs, kvMap) && entry.key !in kvMap
    ensures Enumerates(kvs + [entry], kvMap[entry.key := entry.values])
  {
    var longer, bigger := kvs + [entry], kvMap[entry.key := entry.values];
    KeysOfSnoc(kvs, entry);
    assert bigger.Keys == kvMap.Keys + {entry.key};
    forall i | 0 <= i < |longer|
      ensures longer[i].key in bigger && longer[i].values == bigger[longer[i].key]
    {
      if i < |kvs| { assert longer[i] == kvs[i]; }
    }
    forall i, j | 0 <= i < j < |longer| ensures longer[i].key != longer[j].key {
      if j == |kvs| {
        assert longer[i] == kvs[i];
      } else {
        assert longer[i] == kvs[i] && longer[j] == kvs[j];
      }
    }
  }

  /** The mapping a list of entries describes; a later entry for a key wins. */
  function ToMap(kvs: seq<MRInput>): Results
  {
    if kvs == [] then map[] else ToMap(kvs[..|kvs| - 1])[kvs[|kvs| - 1].key := kvs[|kvs| - 1].values]
  }

  /** Converting the mapping to a list of entries and back gives the mapping again,
      and the list has one entry per key. */
  lemma {:induction false} EnumerationRoundTrip(kvs: seq<MRInput>, kvMap: Results)
    requires Enumerates(kvs, kvMap)
    ensures ToMap(kvs) == kvMap
    ensures |kvs| == |kvMap|
  {
    if kvs == [] {
      assert kvMap.Keys == {};
    } else {
      var init, last := kvs[..|kvs| - 1], kvs[|kvs| - 1];
      EnumeratesInit(kvs, kvMap);
      EnumerationRoundTrip(init, kvMap - {last.key});
      RemoveThenRestore(kvMap, last.key);
    }
  }

  lemma RemoveThenRestore(kvMap: Results, key: string)
    requires key in kvMap
    ensures (kvMap - {key})[key := kvMap[key]] == kvMap
    ensures |kvMap| == |kvMap - {key}| + 1
  {
    var rest := kvMap - {key};
    assert kvMap.Keys == rest.Keys + {key};
    assert |kvMap.Keys| == |rest.Keys| + 1;
  }

  /** Dropping the last entry of a conversion gives a conversion of the mapping
      without that entry's key. */
  lemma EnumeratesInit(kvs: seq<MRInput>, kvMap: Results)
    requires Enumerates(kvs, kvMap) && kvs != []
    ensures var last := kvs[|kvs| - 1];
      && last.key in kvMap && kvMap[last.key] == last.values
      && Enumerates(kvs[..|kvs| - 1], kvMap - {last.key})
  {
    var init, last := kvs[..|kvs| - 1], kvs[|kvs| - 1];
    assert kvs == init + [last];
    KeysOfSnoc(init, last);
    assert last.key !in KeysOf(init);
  }

  /** In a list whose keys are distinct every entry occurs once. */
  lemma {:induction false} DistinctOccursOnce(kvs: seq<MRInput>, x: MRInput)
    requires forall i, j :: 0 <= i < j < |kvs| ==> kvs[i].key != kvs[j].key
    ensures multiset(kvs)[x] == if x in kvs then 1 else 0
  {
    if kvs != [] {
      assert kvs == [kvs[0]] + kvs[1..];
      DistinctOccursOnce(kvs[1..], x);
      if x == kvs[0] {
        assert x !in kvs[1..];
      }
    }
  }

  /** Any two conversions of the same mapping list the same entries: they differ at
      most in order. */
  lemma EnumerationsArePermutations(a: seq<MRInput>, b: seq<MRInput>, kvMap: Results)
    requires Enumerates(a, kvMap) && Enumerates(b, kvMap)
    ensures multiset(a) == multiset(b)
  {
    forall x | x in a ensures x in b {
      assert x.key in KeysOf(b);
      var y :| y in b && y.key == x.key;
    }
    forall x | x in b ensures x in a {
      assert x.key in KeysOf(a);
      var y :| y in a && y.key == x.key;
    }
    forall x ensures multiset(a)[x] == multiset(b)[x] {
      DistinctOccursOnce(a, x);
      DistinctOccursOnce(b, x);
    }
  }
}
