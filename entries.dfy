/** Entries flowing through the map and reduce stages, the aggregated mapping a
    collector builds, and the sequence operations the rest of the model is stated with. */
module Entries {

  /** One key with its ordered values: a raw input record, a message a task emits,
      or an entry of the converted intermediate result. */
  datatype MRInput = MRInput(key: string, values: seq<string>)

  /** An aggregated mapping from key to its concatenated values. */
  type Results = map<string, seq<string>>

  datatype Option<T> = None | Some(value: T)

  /** Indexing a map with a missing key yields the zero value, an empty slice. */
  function Lookup(results: Results, key: string): (v: seq<string>)
    ensures key in results ==> v == results[key]
    ensures key !in results ==> v == []
  {
    if key in results then results[key] else []
  }

  /** The in-order concatenation of f over xs. */
  function FlatMap<A, B>(xs: seq<A>, f: A -> seq<B>): seq<B>
  {
    if xs == [] then [] else f(xs[0]) + FlatMap(xs[1..], f)
  }

  lemma {:induction false} FlatMapAppend<A, B>(xs: seq<A>, ys: seq<A>, f: A -> seq<B>)
    ensures FlatMap(xs + ys, f) == FlatMap(xs, f) + FlatMap(ys, f)
  {
    if xs == [] {
      assert xs + ys == ys;
    } else {
      assert (xs + ys)[1..] == xs[1..] + ys;
      FlatMapAppend(xs[1..], ys, f);
    }
  }

  /** Reordering the inputs of a flat map only reorders its output. */
  lemma {:induction false} FlatMapPermutation<A, B>(xs: seq<A>, ys: seq<A>, f: A -> seq<B>)
    requires multiset(xs) == multiset(ys)
    ensures multiset(FlatMap(xs, f)) == multiset(FlatMap(ys, f))
    decreases |xs|
  {
    if xs == [] {
      assert |ys| == |multiset(ys)| == 0;
    } else {
      var x := xs[0];
      assert x in multiset(ys);
      var j :| 0 <= j < |ys| && ys[j] == x;
      var front, back := ys[..j], ys[j + 1..];
      RemoveAt(xs, ys, j);
      FlatMapPermutation(xs[1..], front + back, f);
      FlatMapAppend(front, back, f);
      SplitAt(ys, j, f);
      assert FlatMap(xs, f) == f(x) + FlatMap(xs[1..], f);
    }
  }

  lemma SplitAt<A, B>(ys: seq<A>, j: nat, f: A -> seq<B>)
    requires j < |ys|
    ensures multiset(FlatMap(ys, f))
         == multiset(f(ys[j])) + multiset(FlatMap(ys[..j], f)) + multiset(FlatMap(ys[j + 1..], f))
  {
    var front, back := ys[..j], ys[j + 1..];
    assert ys == front + ([ys[j]] + back);
    FlatMapAppend(front, [ys[j]] + back, f);
    assert ([ys[j]] + back)[1..] == back;
  }

  /** Removing the first element of xs and one equal element of ys keeps the multisets equal. */
  lemma RemoveAt<A>(xs: seq<A>, ys: seq<A>, j: nat)
    requires xs != [] && j < |ys| && ys[j] == xs[0]
    requires multiset(xs) == multiset(ys)
    ensures multiset(xs[1..]) == multiset(ys[..j] + ys[j + 1..])
  {
    var x := xs[0];
    assert ys == ys[..j] + [x] + ys[j + 1..];
    assert xs == [x] + xs[1..];
    calc {
      multiset(xs[1..]);
      multiset(xs) - multiset{x};
      multiset(ys) - multiset{x};
      multiset(ys[..j]) + multiset(ys[j + 1..]);
      multiset(ys[..j] + ys[j + 1..]);
    }
  }

  /** The set of keys occurring in a sequence of entries. */
  function KeysOf(ms: seq<MRInput>): set<string>
  {
    set m | m in ms :: m.key
  }

  /** The values an entry contributes to key k. */
  function ValuesIfKey(k: string): MRInput -> seq<string>
  {
    (m: MRInput) => if m.key == k then m.values else []
  }

  /** The in-order concatenation of the values of every entry with key k. */
  function ValuesOf(ms: seq<MRInput>, k: string): seq<string>
  {
    FlatMap(ms, ValuesIfKey(k))
  }

  lemma {:induction false} ValuesOfAbsent(ms: seq<MRInput>, k: string)
    requires k !in KeysOf(ms)
    ensures ValuesOf(ms, k) == []
  {
    if ms != [] {
      assert ms[0] in ms;
      assert KeysOf(ms[1..]) <= KeysOf(ms) by {
        forall key | key in KeysOf(ms[1..]) ensures key in KeysOf(ms) {
          var m :| m in ms[1..] && m.key == key;
          assert m in ms;
        }
      }
      ValuesOfAbsent(ms[1..], k);
    }
  }

  lemma ValuesOfSnoc(ms: seq<MRInput>, m: MRInput, k: string)
    ensures ValuesOf(ms + [m], k) == ValuesOf(ms, k) + (if m.key == k then m.values else [])
  {
    FlatMapAppend(ms, [m], ValuesIfKey(k));
    assert [m][1..] == [];
  }

  lemma KeysOfSnoc(ms: seq<MRInput>, m: MRInput)
    ensures KeysOf(ms + [m]) == KeysOf(ms) + {m.key}
  {
    assert m in ms + [m];
    forall x | x in ms ensures x in ms + [m] { }
    forall key | key in KeysOf(ms + [m]) ensures key in KeysOf(ms) + {m.key} {
      var y :| y in ms + [m] && y.key == key;
      if y != m { assert y in ms; }
    }
  }

  lemma KeysOfPermutation(ms: seq<MRInput>, ns: seq<MRInput>)
    requires multiset(ms) == multiset(ns)
    ensures KeysOf(ms) == KeysOf(ns)
  {
    forall m ensures m in ms <==> m in ns {
      assert m in ms <==> m in multiset(ms);
      assert m in ns <==> m in multiset(ns);
    }
  }
}
