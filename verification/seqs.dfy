/**
  Sequence operations the JavaScript source leans on: `map`, `filter`,
  `findIndex`, and the `filter`-by-first-index idiom that removes duplicate
  keys. Each comes with the facts the rest of the model needs.
 */
module Seqs {

  /** `s.map(f)`. */
  function MapSeq<T, U>(s: seq<T>, f: T -> U): (r: seq<U>)
    ensures |r| == |s|
    ensures forall i :: 0 <= i < |s| ==> r[i] == f(s[i])
  {
    seq(|s|, i requires 0 <= i < |s| => f(s[i]))
  }

  lemma MapSeqMember<T, U>(s: seq<T>, f: T -> U, y: U)
    ensures y in MapSeq(s, f) <==> exists x :: x in s && y == f(x)
  {
    if exists x :: x in s && y == f(x) {
      var x :| x in s && y == f(x);
      var i :| 0 <= i < |s| && s[i] == x;
      assert MapSeq(s, f)[i] == y;
    }
  }

  /** `s.filter(p)`: the elements satisfying `p`, in their original order. */
  function Filter<T>(s: seq<T>, p: T -> bool): (r: seq<T>)
    ensures forall i :: 0 <= i < |r| ==> p(r[i])
    ensures |r| <= |s|
  {
    if |s| == 0 then []
    else (if p(s[0]) then [s[0]] else []) + Filter(s[1..], p)
  }

  /** The filter keeps every element satisfying `p` as often as it occurs,
      and nothing else. */
  lemma {:induction false} FilterCounts<T>(s: seq<T>, p: T -> bool)
    ensures forall x :: x in s && p(x) ==> multiset(Filter(s, p))[x] == multiset(s)[x]
    ensures forall x :: x in Filter(s, p) ==> x in s
  {
    if |s| > 0 {
      FilterCounts(s[1..], p);
      assert s == [s[0]] + s[1..];
    }
  }

  lemma {:induction false} FilterConcat<T>(a: seq<T>, b: seq<T>, p: T -> bool)
    ensures Filter(a + b, p) == Filter(a, p) + Filter(b, p)
  {
    if |a| == 0 {
      assert a + b == b;
    } else {
      assert (a + b)[1..] == a[1..] + b;
      FilterConcat(a[1..], b, p);
    }
  }

  lemma FilterSingleton<T>(x: T, p: T -> bool)
    ensures Filter([x], p) == if p(x) then [x] else []
  {
    assert [x][1..] == [];
  }

  lemma FilterUncons<T>(s: seq<T>, p: T -> bool)
    requires |s| > 0
    ensures Filter(s, p) == Filter([s[0]], p) + Filter(s[1..], p)
  {
    FilterSingleton(s[0], p);
  }

  /** Two concatenations whose first parts have equal length are equal exactly
      when the parts are. */
  lemma ConcatSplit<T>(a1: seq<T>, b1: seq<T>, a2: seq<T>, b2: seq<T>)
    requires |a1| == |a2|
    ensures a1 + b1 == a2 + b2 <==> a1 == a2 && b1 == b2
  {
    if a1 + b1 == a2 + b2 {
      assert a1 == (a1 + b1)[..|a1|] && a2 == (a2 + b2)[..|a2|];
      assert b1 == (a1 + b1)[|a1|..] && b2 == (a2 + b2)[|a2|..];
    }
  }

  /** The filter keeps something exactly when some element satisfies `p`. */
  lemma FilterNonEmpty<T>(s: seq<T>, p: T -> bool)
    ensures |Filter(s, p)| > 0 <==> exists x :: x in s && p(x)
  {
    FilterCounts(s, p);
    if exists x :: x in s && p(x) {
      var x :| x in s && p(x);
      assert x in multiset(Filter(s, p));
    }
  }

  lemma FilterMember<T>(s: seq<T>, p: T -> bool, x: T)
    ensures x in Filter(s, p) <==> x in s && p(x)
  {
    FilterCounts(s, p);
    if x in s && p(x) {
      assert x in multiset(s);
    }
  }

  /** Filtering twice with the same predicate changes nothing the second time. */
  lemma {:induction false} FilterIdempotent<T>(s: seq<T>, p: T -> bool)
    ensures Filter(Filter(s, p), p) == Filter(s, p)
  {
    if |s| > 0 {
      var head := if p(s[0]) then [s[0]] else [];
      assert Filter(s, p) == head + Filter(s[1..], p);
      FilterConcat(head, Filter(s[1..], p), p);
      FilterIdempotent(s[1..], p);
      if p(s[0]) {
        assert Filter(head, p) == [s[0]] + Filter([], p);
      }
    }
  }

  // ---------------------------------------------------------------------------
  // Subsequences

  ghost predicate Increasing(idx: seq<int>)
  {
    forall i, j :: 0 <= i < j < |idx| ==> idx[i] < idx[j]
  }

  /** `a` sits inside `b` at the increasing positions `idx`. */
  ghost predicate EmbedsVia<T>(a: seq<T>, b: seq<T>, idx: seq<int>)
  {
    && |idx| == |a|
    && Increasing(idx)
    && forall k :: 0 <= k < |a| ==> 0 <= idx[k] < |b| && a[k] == b[idx[k]]
  }

  /** `a` is `b` with some elements removed and the rest kept in order. */
  ghost predicate IsSubseq<T>(a: seq<T>, b: seq<T>)
  {
    exists idx :: EmbedsVia(a, b, idx)
  }

  function Shift(idx: seq<int>): (r: seq<int>)
    ensures |r| == |idx|
    ensures forall k :: 0 <= k < |idx| ==> r[k] == idx[k] + 1
  {
    seq(|idx|, k requires 0 <= k < |idx| => idx[k] + 1)
  }

  /** An embedding survives putting one more element in front of the host. */
  lemma EmbedsUnderCons<T>(a: seq<T>, b: seq<T>, x: T, idx: seq<int>)
    requires EmbedsVia(a, b, idx)
    ensures EmbedsVia(a, [x] + b, Shift(idx))
    ensures EmbedsVia([x] + a, [x] + b, [0] + Shift(idx))
  {
    var sh := Shift(idx);
    assert EmbedsVia(a, [x] + b, sh) by {
      forall k | 0 <= k < |a|
        ensures 0 <= sh[k] < |[x] + b| && a[k] == ([x] + b)[sh[k]]
      {
      }
    }
    var r := [0] + sh;
    assert forall k :: 0 < k < |r| ==> r[k] == sh[k - 1];
  }

  lemma {:induction false} FilterIsSubseq<T>(s: seq<T>, p: T -> bool) returns (idx: seq<int>)
    ensures EmbedsVia(Filter(s, p), s, idx)
    ensures IsSubseq(Filter(s, p), s)
  {
    if |s| == 0 {
      idx := [];
    } else {
      var rest := Filter(s[1..], p);
      var tail := FilterIsSubseq(s[1..], p);
      EmbedsUnderCons(rest, s[1..], s[0], tail);
      assert [s[0]] + s[1..] == s;
      if p(s[0]) {
        assert Filter(s, p) == [s[0]] + rest;
        idx := [0] + Shift(tail);
      } else {
        assert Filter(s, p) == rest;
        idx := Shift(tail);
      }
    }
    assert EmbedsVia(Filter(s, p), s, idx);
  }

  // ---------------------------------------------------------------------------
  // Keys, first and last occurrences

  /** The set of keys carried by the elements of `s`. */
  ghost function KeySet<T, K>(s: seq<T>, key: T -> K): set<K>
  {
    set x | x in s :: key(x)
  }

  /** No two elements of `s` carry the same key. */
  ghost predicate UniqueBy<T, K>(s: seq<T>, key: T -> K)
  {
    forall i, j :: 0 <= i < j < |s| ==> key(s[i]) != key(s[j])
  }

  /** `s.findIndex(t => key(t) === k)`: the first index whose key is `k`, or -1. */
  function FindIndex<T, K(==)>(s: seq<T>, key: T -> K, k: K): (i: int)
    ensures -1 <= i < |s|
    ensures i == -1 <==> forall j :: 0 <= j < |s| ==> key(s[j]) != k
    ensures 0 <= i ==> key(s[i]) == k && forall j :: 0 <= j < i ==> key(s[j]) != k
  {
    if |s| == 0 then -1
    else if key(s[0]) == k then 0
    else
      var j := FindIndex(s[1..], key, k);
      if j == -1 then -1 else j + 1
  }

  /** The last index below `n` whose key is `k`, or -1. */
  function LastIndex<T, K(==)>(s: seq<T>, key: T -> K, n: nat, k: K): (i: int)
    requires n <= |s|
    ensures -1 <= i < n
    ensures i == -1 <==> forall j :: 0 <= j < n ==> key(s[j]) != k
    ensures 0 <= i ==> key(s[i]) == k && forall j :: i < j < n ==> key(s[j]) != k
  {
    if n == 0 then -1
    else if key(s[n - 1]) == k then n - 1
    else LastIndex(s, key, n - 1, k)
  }

  lemma KeySetAppend<T, K>(s: seq<T>, x: T, key: T -> K)
    ensures KeySet(s + [x], key) == KeySet(s, key) + {key(x)}
  {
    assert forall y :: y in s + [x] <==> y in s || y == x;
  }

  lemma KeySetPrefix<T, K>(s: seq<T>, n: nat, key: T -> K)
    requires n < |s|
    ensures KeySet(s[..n + 1], key) == KeySet(s[..n], key) + {key(s[n])}
  {
    assert s[..n + 1] == s[..n] + [s[n]];
    KeySetAppend(s[..n], s[n], key);
  }

  lemma KeySetIndex<T, K>(s: seq<T>, key: T -> K, k: K)
    ensures k in KeySet(s, key) <==> exists j :: 0 <= j < |s| && key(s[j]) == k
  {
    if k in KeySet(s, key) {
      var x :| x in s && key(x) == k;
      var j :| 0 <= j < |s| && s[j] == x;
      assert key(s[j]) == k;
    }
  }

  // ---------------------------------------------------------------------------
  // Removing duplicate keys, keeping first occurrences

  /** `s.filter((v, i, arr) => arr.findIndex(t => key(t) === key(v)) === i)`
      restricted to the first `n` positions. */
  function DedupePrefix<T, K(==)>(s: seq<T>, key: T -> K, n: nat): (r: seq<T>)
    requires n <= |s|
    ensures UniqueBy(r, key)
    ensures KeySet(r, key) == KeySet(s[..n], key)
    ensures forall k :: 0 <= k < |r| ==>
              0 <= FindIndex(s, key, key(r[k])) < n && r[k] == s[FindIndex(s, key, key(r[k]))]
    ensures |r| <= n
    decreases n
  {
    if n == 0 then []
    else
      var rest := DedupePrefix(s, key, n - 1);
      KeySetPrefix(s, n - 1, key);
      if FindIndex(s, key, key(s[n - 1])) == n - 1 then
        KeySetIndex(s[..n - 1], key, key(s[n - 1]));
        KeySetIndex(rest, key, key(s[n - 1]));
        KeySetAppend(rest, s[n - 1], key);
        UniqueAppend(rest, s[n - 1], key);
        FirstsAppend(s, key, rest, n - 1);
        rest + [s[n - 1]]
      else
        var j := FindIndex(s, key, key(s[n - 1]));
        assert s[..n - 1][j] == s[j];
        KeySetIndex(s[..n - 1], key, key(s[n - 1]));
        rest
  }

  lemma UniqueAppend<T, K>(s: seq<T>, x: T, key: T -> K)
    requires UniqueBy(s, key)
    requires forall p :: 0 <= p < |s| ==> key(s[p]) != key(x)
    ensures UniqueBy(s + [x], key)
  {
  }

  /** Appending the first element with a new key keeps every element the
      first one of `s` with its key. */
  lemma FirstsAppend<T, K>(s: seq<T>, key: T -> K, r: seq<T>, n: nat)
    requires n < |s| && FindIndex(s, key, key(s[n])) == n
    requires forall k :: 0 <= k < |r| ==>
               0 <= FindIndex(s, key, key(r[k])) < n && r[k] == s[FindIndex(s, key, key(r[k]))]
    ensures forall k :: 0 <= k < |r + [s[n]]| ==>
              0 <= FindIndex(s, key, key((r + [s[n]])[k])) < n + 1
              && (r + [s[n]])[k] == s[FindIndex(s, key, key((r + [s[n]])[k]))]
  {
    forall k | 0 <= k < |r + [s[n]]|
      ensures 0 <= FindIndex(s, key, key((r + [s[n]])[k])) < n + 1
      ensures (r + [s[n]])[k] == s[FindIndex(s, key, key((r + [s[n]])[k]))]
    {
      if k < |r| {
        assert (r + [s[n]])[k] == r[k];
      }
    }
  }

  /** A key seen for the first time at `n - 1` is carried by none of the
      elements kept before it. */
  lemma DedupeStepNew<T, K>(s: seq<T>, key: T -> K, n: nat)
    requires 0 < n <= |s|
    requires FindIndex(s, key, key(s[n - 1])) == n - 1
    ensures var d := DedupePrefix(s, key, n - 1);
            forall p :: 0 <= p < |d| ==> key(d[p]) != key(s[n - 1])
  {
  }

  /** A key seen before `n - 1` is carried by one of the elements kept. */
  lemma DedupeStepOld<T, K>(s: seq<T>, key: T -> K, n: nat) returns (p: nat)
    requires 0 < n <= |s|
    requires FindIndex(s, key, key(s[n - 1])) != n - 1
    ensures var d := DedupePrefix(s, key, n - 1);
            p < |d| && key(d[p]) == key(s[n - 1])
  {
    var d := DedupePrefix(s, key, n - 1);
    var j := FindIndex(s, key, key(s[n - 1]));
    assert s[..n - 1][j] == s[j];
    KeySetIndex(s[..n - 1], key, key(s[n - 1]));
    KeySetIndex(d, key, key(s[n - 1]));
    var q :| 0 <= q < |d| && key(d[q]) == key(s[n - 1]);
    p := q;
  }

  /** Removes every element whose key already occurred earlier in `s`. */
  function DedupeBy<T, K(==)>(s: seq<T>, key: T -> K): (r: seq<T>)
    ensures |r| <= |s|
    ensures UniqueBy(r, key)
    ensures KeySet(r, key) == KeySet(s, key)
    ensures forall k :: 0 <= k < |r| ==>
              0 <= FindIndex(s, key, key(r[k])) && r[k] == s[FindIndex(s, key, key(r[k]))]
  {
    assert s[..|s|] == s;
    DedupePrefix(s, key, |s|)
  }

  /** An embedding extends by any host position past all those it uses. */
  lemma EmbedsAppend<T>(a: seq<T>, b: seq<T>, idx: seq<int>, j: int)
    requires EmbedsVia(a, b, idx)
    requires 0 <= j < |b| && forall k :: 0 <= k < |idx| ==> idx[k] < j
    ensures EmbedsVia(a + [b[j]], b, idx + [j])
    ensures forall k :: 0 <= k < |idx + [j]| ==> (idx + [j])[k] <= j
  {
  }

  /** The kept elements appear in `s` at strictly increasing positions below `n`. */
  lemma {:induction false} DedupePrefixEmbeds<T, K>(s: seq<T>, key: T -> K, n: nat) returns (idx: seq<int>)
    requires n <= |s|
    ensures EmbedsVia(DedupePrefix(s, key, n), s, idx)
    ensures forall k :: 0 <= k < |idx| ==> idx[k] < n
  {
    if n == 0 {
      idx := [];
    } else {
      var prev := DedupePrefixEmbeds(s, key, n - 1);
      if FindIndex(s, key, key(s[n - 1])) == n - 1 {
        EmbedsAppend(DedupePrefix(s, key, n - 1), s, prev, n - 1);
        idx := prev + [n - 1];
      } else {
        idx := prev;
      }
    }
  }

  lemma DedupeIsSubseq<T, K>(s: seq<T>, key: T -> K)
    ensures IsSubseq(DedupeBy(s, key), s)
  {
    var idx := DedupePrefixEmbeds(s, key, |s|);
  }

  /** With keys already unique, every element is its key's first occurrence. */
  lemma {:induction false} DedupePrefixOfUnique<T, K>(s: seq<T>, key: T -> K, n: nat)
    requires n <= |s|
    requires UniqueBy(s, key)
    ensures DedupePrefix(s, key, n) == s[..n]
  {
    if n > 0 {
      DedupePrefixOfUnique(s, key, n - 1);
      assert FindIndex(s, key, key(s[n - 1])) == n - 1;
      assert s[..n] == s[..n - 1] + [s[n - 1]];
    }
  }

  lemma DedupeOfUnique<T, K>(s: seq<T>, key: T -> K)
    requires UniqueBy(s, key)
    ensures DedupeBy(s, key) == s
  {
    DedupePrefixOfUnique(s, key, |s|);
    assert s[..|s|] == s;
  }

  /** Removing duplicates a second time changes nothing. */
  lemma DedupeIdempotent<T, K>(s: seq<T>, key: T -> K)
    ensures DedupeBy(DedupeBy(s, key), key) == DedupeBy(s, key)
  {
    DedupeOfUnique(DedupeBy(s, key), key);
  }

  /** A sequence with unique keys has as many elements as distinct keys. */
  lemma {:induction false} UniqueCount<T, K>(s: seq<T>, key: T -> K)
    requires UniqueBy(s, key)
    ensures |KeySet(s, key)| == |s|
  {
    if |s| > 0 {
      var n := |s| - 1;
      assert s == s[..n] + [s[n]];
      UniqueCount(s[..n], key);
      KeySetAppend(s[..n], s[n], key);
      KeySetIndex(s[..n], key, key(s[n]));
    }
  }

  lemma {:induction false} KeySetBound<T, K>(s: seq<T>, key: T -> K)
    ensures |KeySet(s, key)| <= |s|
  {
    if |s| > 0 {
      var n := |s| - 1;
      assert s == s[..n] + [s[n]];
      KeySetBound(s[..n], key);
      KeySetAppend(s[..n], s[n], key);
    }
  }

  /** Two elements sharing a key leave fewer keys than elements. */
  lemma RepeatedKeyCount<T, K>(s: seq<T>, key: T -> K, i: nat, j: nat)
    requires i < j < |s| && key(s[i]) == key(s[j])
    ensures |KeySet(s, key)| < |s|
  {
    var t := s[..j] + s[j + 1..];
    assert s == s[..j] + [s[j]] + s[j + 1..];
    assert forall x :: x in s <==> x in t || x == s[j];
    assert s[i] == t[i];
    assert KeySet(s, key) == KeySet(t, key);
    KeySetBound(t, key);
  }

  /** Rearranging the elements keeps keys unique. */
  lemma PermutationKeepsUnique<T, K>(a: seq<T>, b: seq<T>, key: T -> K)
    requires multiset(a) == multiset(b)
    requires UniqueBy(a, key)
    ensures UniqueBy(b, key)
  {
    assert |a| == |multiset(a)| == |multiset(b)| == |b|;
    assert forall x :: x in a <==> x in b by {
      forall x
        ensures x in a <==> x in b
      {
        assert x in a <==> x in multiset(a);
        assert x in b <==> x in multiset(b);
      }
    }
    assert KeySet(a, key) == KeySet(b, key);
    UniqueCount(a, key);
    if !UniqueBy(b, key) {
      var i, j :| 0 <= i < j < |b| && key(b[i]) == key(b[j]);
      RepeatedKeyCount(b, key, i, j);
    }
  }

  /** The deduplicated sequence has one element per distinct key of the input. */
  lemma DedupeCount<T, K>(s: seq<T>, key: T -> K)
    ensures |DedupeBy(s, key)| == |KeySet(s, key)|
  {
    UniqueCount(DedupeBy(s, key), key);
  }

  /** Every key of `s` is carried by exactly one element of the result, and
      that element is the key's first occurrence in `s`. */
  lemma DedupeKeepsFirst<T, K>(s: seq<T>, key: T -> K, j: nat)
    requires j < |s|
    ensures var r := DedupeBy(s, key);
            exists k :: 0 <= k < |r| && r[k] == s[FindIndex(s, key, key(s[j]))]
  {
    var r := DedupeBy(s, key);
    assert key(s[j]) in KeySet(s, key);
    KeySetIndex(r, key, key(s[j]));
  }

  /** The elements of `r` appear in the order their keys first occur in `s`. */
  ghost predicate FirstOccurrenceOrder<T, K>(r: seq<T>, s: seq<T>, key: T -> K)
  {
    forall a, b :: 0 <= a < b < |r| ==> FindIndex(s, key, key(r[a])) < FindIndex(s, key, key(r[b]))
  }

  lemma {:induction false} DedupePrefixOrdered<T, K>(s: seq<T>, key: T -> K, n: nat)
    requires n <= |s|
    ensures FirstOccurrenceOrder(DedupePrefix(s, key, n), s, key)
  {
    if n > 0 {
      DedupePrefixOrdered(s, key, n - 1);
      if FindIndex(s, key, key(s[n - 1])) == n - 1 {
        OrderAppend(DedupePrefix(s, key, n - 1), s[n - 1], s, key);
      }
    }
  }

  lemma OrderAppend<T, K>(rest: seq<T>, x: T, s: seq<T>, key: T -> K)
    requires FirstOccurrenceOrder(rest, s, key)
    requires forall a :: 0 <= a < |rest| ==> FindIndex(s, key, key(rest[a])) < FindIndex(s, key, key(x))
    ensures FirstOccurrenceOrder(rest + [x], s, key)
  {
    var r := rest + [x];
    forall a, b | 0 <= a < b < |r|
      ensures FindIndex(s, key, key(r[a])) < FindIndex(s, key, key(r[b]))
    {
      assert r[a] == rest[a];
      if b < |rest| {
        assert r[b] == rest[b];
      }
    }
  }

  /** Removing duplicates keeps the order of first occurrence. */
  lemma DedupeOrdered<T, K>(s: seq<T>, key: T -> K)
    ensures FirstOccurrenceOrder(DedupeBy(s, key), s, key)
  {
    DedupePrefixOrdered(s, key, |s|);
  }

  /** Position-wise equal keys give equal search results. */
  lemma {:induction false} FindIndexTransfer<T, U, K>(s: seq<T>, ks: T -> K, t: seq<U>, kt: U -> K, k: K)
    requires |s| == |t|
    requires forall i :: 0 <= i < |s| ==> ks(s[i]) == kt(t[i])
    ensures FindIndex(s, ks, k) == FindIndex(t, kt, k)
  {
    if |s| > 0 && ks(s[0]) != k {
      FindIndexTransfer(s[1..], ks, t[1..], kt, k);
    }
  }

  lemma {:induction false} LastIndexTransfer<T, U, K>(s: seq<T>, ks: T -> K, t: seq<U>, kt: U -> K, n: nat, k: K)
    requires n <= |s| == |t|
    requires forall i :: 0 <= i < |s| ==> ks(s[i]) == kt(t[i])
    ensures LastIndex(s, ks, n, k) == LastIndex(t, kt, n, k)
  {
    if n > 0 && ks(s[n - 1]) != k {
      LastIndexTransfer(s, ks, t, kt, n - 1, k);
    }
  }

  // ---------------------------------------------------------------------------
  // Sequences without repeated elements

  ghost predicate Distinct<T>(s: seq<T>)
  {
    forall i, j :: 0 <= i < j < |s| ==> s[i] != s[j]
  }

  ghost function Elements<T>(s: seq<T>): set<T>
  {
    set x | x in s
  }

  /** A sequence without repetitions has as many elements as its set. */
  lemma {:induction false} DistinctCount<T>(s: seq<T>)
    requires Distinct(s)
    ensures |Elements(s)| == |s|
  {
    if |s| > 0 {
      DistinctCount(s[1..]);
      assert Elements(s) == {s[0]} + Elements(s[1..]);
      assert s[0] !in Elements(s[1..]);
    }
  }

  lemma {:induction false} SubsetCount<T>(a: set<T>, b: set<T>)
    requires a <= b
    ensures |a| <= |b|
  {
    if a != {} {
      var x :| x in a;
      SubsetCount(a - {x}, b - {x});
    }
  }

  /** When every element of `a` occurs in `b` and neither repeats, `a` is as
      long as `b` exactly when it holds all of `b`. */
  lemma DistinctCover<T>(a: seq<T>, b: seq<T>)
    requires Distinct(a) && Distinct(b)
    requires forall x :: x in a ==> x in b
    ensures |a| == |b| <==> forall x :: x in b ==> x in a
  {
    DistinctCount(a);
    DistinctCount(b);
    assert Elements(a) <= Elements(b);
    if exists x :: x in b && x !in a {
      var x :| x in b && x !in a;
      SubsetCount(Elements(a), Elements(b) - {x});
    }
    if forall x :: x in b ==> x in a {
      assert Elements(a) == Elements(b);
    }
  }

  /** Unique keys, mapped out, do not repeat. */
  lemma UniqueKeysDistinct<T, K>(s: seq<T>, key: T -> K)
    requires UniqueBy(s, key)
    ensures Distinct(MapSeq(s, key))
  {
  }

  /** A subsequence of a sequence with unique keys has unique keys. */
  lemma FilterKeepsUnique<T, K>(s: seq<T>, p: T -> bool, key: T -> K)
    requires UniqueBy(s, key)
    ensures UniqueBy(Filter(s, p), key)
  {
    var idx := FilterIsSubseq(s, p);
  }

  /** Filtering with a predicate every element meets changes nothing. */
  lemma {:induction false} FilterAll<T>(s: seq<T>, p: T -> bool)
    requires forall x :: x in s ==> p(x)
    ensures Filter(s, p) == s
  {
    if |s| > 0 {
      FilterAll(s[1..], p);
      assert s == [s[0]] + s[1..];
    }
  }

  /** Position-wise equal keys give equal key sets. */
  lemma KeySetTransfer<T, U, K>(s: seq<T>, ks: T -> K, t: seq<U>, kt: U -> K)
    requires |s| == |t|
    requires forall i :: 0 <= i < |s| ==> ks(s[i]) == kt(t[i])
    ensures KeySet(s, ks) == KeySet(t, kt)
  {
    forall k
      ensures k in KeySet(s, ks) <==> k in KeySet(t, kt)
    {
      KeySetIndex(s, ks, k);
      KeySetIndex(t, kt, k);
    }
  }

  /** Dropping elements never creates a repetition. */
  lemma FilterKeepsDistinct<T>(s: seq<T>, p: T -> bool)
    requires Distinct(s)
    ensures Distinct(Filter(s, p))
  {
    var idx := FilterIsSubseq(s, p);
  }
}
