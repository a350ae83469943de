/** What several gates do with lists: report along one, and read one as a set. */
module Sequences {

  function Elements<T(==)>(s: seq<T>): set<T> {
    set x | x in s
  }

  predicate Distinct<T(==)>(s: seq<T>) {
    forall i, j | 0 <= i < j < |s| :: s[i] != s[j]
  }

  /** What `f` reports along a list. */
  function Gather<K, R>(keys: seq<K>, f: K -> seq<R>): seq<R> {
    if keys == [] then [] else Gather(keys[..|keys| - 1], f) + f(keys[|keys| - 1])
  }

  function When<R>(condition: bool, report: R): seq<R> {
    if condition then [report] else []
  }

  lemma {:induction false} GatherEmpty<K, R>(keys: seq<K>, f: K -> seq<R>)
    ensures Gather(keys, f) == [] <==> forall key | key in keys :: f(key) == []
  {
    if keys == [] {
    } else {
      var rest := keys[..|keys| - 1];
      GatherEmpty(rest, f);
      assert keys == rest + [keys[|keys| - 1]];
    }
  }

  /** What is reported is what some key reports. */
  lemma {:induction false} InGather<K, R>(keys: seq<K>, f: K -> seq<R>, p: R)
    ensures p in Gather(keys, f) <==> exists key | key in keys :: p in f(key)
  {
    if keys == [] {
    } else {
      var rest := keys[..|keys| - 1];
      InGather(rest, f, p);
      assert keys == rest + [keys[|keys| - 1]];
    }
  }

  lemma GatherNone<K, R>(keys: seq<K>, f: K -> seq<R>)
    requires keys == []
    ensures Gather(keys, f) == []
  {
  }

  lemma GatherNext<K, R>(keys: seq<K>, k: nat, f: K -> seq<R>)
    requires k < |keys|
    ensures Gather(keys[..k + 1], f) == Gather(keys[..k], f) + f(keys[k])
  {
    assert keys[..k + 1][..k] == keys[..k];
  }

  lemma Regroup<T>(x: seq<T>, y: seq<T>, z: seq<T>)
    ensures (x + y) + z == x + (y + z)
  {
  }
}
