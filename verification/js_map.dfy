/**
  A JavaScript `Map` seen through `entries()`: each key appears once, in the
  order it was first set, carrying the value it was last set to.
 */
module JsMap {
  import opened Seqs

  function Key<K, V>(p: (K, V)): K
  {
    p.0
  }

  /** `m.set(k, v)`: an existing key keeps its place and takes the new value;
      a new key goes to the end. */
  function Put<K(==), V>(m: seq<(K, V)>, k: K, v: V): seq<(K, V)>
  {
    var i := FindIndex(m, Key, k);
    if i == -1 then m + [(k, v)] else m[i := (k, v)]
  }

  /** The entries of a `Map` built from `pairs[..n]` in order. */
  function EntriesPrefix<K(==), V>(pairs: seq<(K, V)>, n: nat): seq<(K, V)>
    requires n <= |pairs|
  {
    if n == 0 then [] else Put(EntriesPrefix(pairs, n - 1), pairs[n - 1].0, pairs[n - 1].1)
  }

  /** Position by position, `a` and `b` carry the same keys. */
  ghost predicate SameKeys<K, V, T>(a: seq<(K, V)>, b: seq<T>, key: T -> K)
  {
    |a| == |b| && forall p :: 0 <= p < |a| ==> a[p].0 == key(b[p])
  }

  lemma SameKeysMap<K, V>(a: seq<(K, V)>, b: seq<(K, V)>)
    requires SameKeys(a, b, Key)
    ensures MapSeq(a, Key) == MapSeq(b, Key)
  {
    forall p | 0 <= p < |a|
      ensures MapSeq(a, Key)[p] == MapSeq(b, Key)[p]
    {
      assert a[p].0 == Key(b[p]);
    }
  }

  lemma KeysStepNew<K, V>(pairs: seq<(K, V)>, n: nat)
    requires 0 < n <= |pairs|
    requires FindIndex(pairs, Key, pairs[n - 1].0) == n - 1
    requires SameKeys(EntriesPrefix(pairs, n - 1), DedupePrefix(pairs, Key, n - 1), Key)
    ensures SameKeys(EntriesPrefix(pairs, n), DedupePrefix(pairs, Key, n), Key)
  {
    var m := EntriesPrefix(pairs, n - 1);
    DedupeStepNew(pairs, Key, n);
    assert FindIndex(m, Key, pairs[n - 1].0) == -1;
  }

  lemma KeysStepOld<K, V>(pairs: seq<(K, V)>, n: nat)
    requires 0 < n <= |pairs|
    requires FindIndex(pairs, Key, pairs[n - 1].0) != n - 1
    requires SameKeys(EntriesPrefix(pairs, n - 1), DedupePrefix(pairs, Key, n - 1), Key)
    ensures SameKeys(EntriesPrefix(pairs, n), DedupePrefix(pairs, Key, n), Key)
  {
    var m := EntriesPrefix(pairs, n - 1);
    var p := DedupeStepOld(pairs, Key, n);
    assert m[p].0 == pairs[n - 1].0;
  }

  /** The keys of the entries are those of the first occurrences, in order. */
  lemma {:induction false} EntriesPrefixKeys<K, V>(pairs: seq<(K, V)>, n: nat)
    requires n <= |pairs|
    ensures SameKeys(EntriesPrefix(pairs, n), DedupePrefix(pairs, Key, n), Key)
  {
    if n > 0 {
      EntriesPrefixKeys(pairs, n - 1);
      if FindIndex(pairs, Key, pairs[n - 1].0) == n - 1 {
        KeysStepNew(pairs, n);
      } else {
        KeysStepOld(pairs, n);
      }
    }
  }

  /** Every entry of `r` is the last of the first `n` pairs carrying its key. */
  ghost predicate LastOfKey<K, V>(pairs: seq<(K, V)>, n: nat, r: seq<(K, V)>)
    requires n <= |pairs|
  {
    forall p :: 0 <= p < |r| ==>
      0 <= LastIndex(pairs, Key, n, r[p].0) && r[p] == pairs[LastIndex(pairs, Key, n, r[p].0)]
  }

  lemma ValuesStep<K, V>(pairs: seq<(K, V)>, n: nat)
    requires 0 < n <= |pairs|
    requires LastOfKey(pairs, n - 1, EntriesPrefix(pairs, n - 1))
    requires SameKeys(EntriesPrefix(pairs, n - 1), DedupePrefix(pairs, Key, n - 1), Key)
    ensures LastOfKey(pairs, n, EntriesPrefix(pairs, n))
  {
    var m := EntriesPrefix(pairs, n - 1);
    var d := DedupePrefix(pairs, Key, n - 1);
    var k := pairs[n - 1].0;
    assert pairs[n - 1] == (k, pairs[n - 1].1);
    var i := FindIndex(m, Key, k);
    var r := EntriesPrefix(pairs, n);
    if i == -1 {
      assert r == m + [pairs[n - 1]];
    } else {
      assert r == m[i := pairs[n - 1]];
    }
    forall p | 0 <= p < |r|
      ensures 0 <= LastIndex(pairs, Key, n, r[p].0) && r[p] == pairs[LastIndex(pairs, Key, n, r[p].0)]
    {
      if (i == -1 && p == |m|) || p == i {
        assert r[p] == pairs[n - 1];
      } else {
        assert r[p] == m[p];
        assert r[p].0 != k by {
          if i != -1 {
            assert Key(d[p]) != Key(d[i]);
          }
        }
        LastIndexPast(pairs, n, r[p].0);
      }
    }
  }

  /** Every entry is the last of the first `n` pairs carrying its key. */
  lemma {:induction false} EntriesPrefixValues<K, V>(pairs: seq<(K, V)>, n: nat)
    requires n <= |pairs|
    ensures LastOfKey(pairs, n, EntriesPrefix(pairs, n))
  {
    if n > 0 {
      EntriesPrefixValues(pairs, n - 1);
      EntriesPrefixKeys(pairs, n - 1);
      ValuesStep(pairs, n);
    }
  }

  lemma LastIndexPast<K, V>(pairs: seq<(K, V)>, n: nat, k: K)
    requires 0 < n <= |pairs| && pairs[n - 1].0 != k
    ensures LastIndex(pairs, Key, n, k) == LastIndex(pairs, Key, n - 1, k)
  {
    assert Key(pairs[n - 1]) != k;
  }

  /** `Array.from(new Map(pairs).entries())`. */
  function Entries<K(==), V>(pairs: seq<(K, V)>): (r: seq<(K, V)>)
    ensures MapSeq(r, Key) == MapSeq(DedupeBy(pairs, Key), Key)
    ensures LastOfKey(pairs, |pairs|, r)
  {
    EntriesPrefixKeys(pairs, |pairs|);
    SameKeysMap(EntriesPrefix(pairs, |pairs|), DedupeBy(pairs, Key));
    EntriesPrefixValues(pairs, |pairs|);
    EntriesPrefix(pairs, |pairs|)
  }
}
