/**
  `Array.prototype.sort` with a comparator, which the language requires to be
  stable. The model is an insertion sort; what it promises is stated by the
  permutation contract of `SortBy` together with `SortSorted` and
  `SortStable`.
 */
module Sorting {
  import opened Seqs

  /** `cmp` places `a` no later than `b`. */
  ghost predicate Le<T>(cmp: (T, T) -> int, a: T, b: T)
  {
    cmp(a, b) <= 0
  }

  /** `cmp` finds `a` and `b` equivalent. */
  ghost predicate Equiv<T>(cmp: (T, T) -> int, a: T, b: T)
  {
    cmp(a, b) == 0
  }

  /** What `sort` asks of its comparator: a three-way answer that is zero on
      equal arguments, whose sign flips with the arguments, and whose `<= 0`
      and `== 0` answers are transitive. */
  ghost predicate Consistent<T(!new)>(cmp: (T, T) -> int)
  {
    && (forall a :: cmp(a, a) == 0)
    && (forall a, b :: cmp(a, b) < 0 <==> cmp(b, a) > 0)
    && (forall a, b, c :: Le(cmp, a, b) && Le(cmp, b, c) ==> Le(cmp, a, c))
    && (forall a, b, c :: Equiv(cmp, a, b) && Equiv(cmp, b, c) ==> Equiv(cmp, a, c))
  }

  lemma LeTrans<T(!new)>(cmp: (T, T) -> int, a: T, b: T, c: T)
    requires Consistent(cmp)
    requires cmp(a, b) <= 0 && cmp(b, c) <= 0
    ensures cmp(a, c) <= 0
  {
    assert Le(cmp, a, b) && Le(cmp, b, c);
  }

  lemma EquivTrans<T(!new)>(cmp: (T, T) -> int, a: T, b: T, c: T)
    requires Consistent(cmp)
    requires cmp(a, b) == 0 && cmp(b, c) == 0
    ensures cmp(a, c) == 0
  {
    assert Equiv(cmp, a, b) && Equiv(cmp, b, c);
  }

  lemma LtLeTrans<T(!new)>(cmp: (T, T) -> int, a: T, b: T, c: T)
    requires Consistent(cmp)
    requires cmp(a, b) < 0 && cmp(b, c) <= 0
    ensures cmp(a, c) < 0
  {
    LeTrans(cmp, a, b, c);
    if cmp(a, c) == 0 {
      LeTrans(cmp, b, c, a);
    }
  }

  lemma LeLtTrans<T(!new)>(cmp: (T, T) -> int, a: T, b: T, c: T)
    requires Consistent(cmp)
    requires cmp(a, b) <= 0 && cmp(b, c) < 0
    ensures cmp(a, c) < 0
  {
    LeTrans(cmp, a, b, c);
    if cmp(a, c) == 0 {
      LeTrans(cmp, c, a, b);
    }
  }

  /** Every element is at most every later one. */
  ghost predicate Sorted<T>(s: seq<T>, cmp: (T, T) -> int)
  {
    forall i, j :: 0 <= i < j < |s| ==> cmp(s[i], s[j]) <= 0
  }

  /** The elements that compare equal to `e`. */
  function EquivalentTo<T>(cmp: (T, T) -> int, e: T): T -> bool
  {
    y => cmp(y, e) == 0
  }

  /** Puts `x` before the first element it is not greater than. */
  function Insert<T>(x: T, s: seq<T>, cmp: (T, T) -> int): (r: seq<T>)
    ensures multiset(r) == multiset(s) + multiset{x}
    ensures |r| == |s| + 1
  {
    if |s| == 0 then [x]
    else if cmp(x, s[0]) <= 0 then [x] + s
    else
      assert s == [s[0]] + s[1..];
      [s[0]] + Insert(x, s[1..], cmp)
  }

  /** `s.sort(cmp)` without mutation. */
  function SortBy<T>(s: seq<T>, cmp: (T, T) -> int): (r: seq<T>)
    ensures multiset(r) == multiset(s)
    ensures |r| == |s|
  {
    if |s| == 0 then []
    else
      assert s == [s[0]] + s[1..];
      Insert(s[0], SortBy(s[1..], cmp), cmp)
  }

  /** A sorted sequence stays sorted under a new head that is at most all of it. */
  lemma ConsSorted<T>(x: T, s: seq<T>, cmp: (T, T) -> int)
    requires Sorted(s, cmp)
    requires forall y :: y in s ==> cmp(x, y) <= 0
    ensures Sorted([x] + s, cmp)
  {
    var r := [x] + s;
    forall i, j | 0 <= i < j < |r|
      ensures cmp(r[i], r[j]) <= 0
    {
      if i == 0 {
        assert r[j] == s[j - 1];
      } else {
        assert r[i] == s[i - 1] && r[j] == s[j - 1];
      }
    }
  }

  lemma {:induction false} InsertSorted<T(!new)>(x: T, s: seq<T>, cmp: (T, T) -> int)
    requires Consistent(cmp)
    requires Sorted(s, cmp)
    ensures Sorted(Insert(x, s, cmp), cmp)
  {
    if |s| == 0 {
    } else if cmp(x, s[0]) <= 0 {
      forall y | y in s
        ensures cmp(x, y) <= 0
      {
        var j :| 0 <= j < |s| && s[j] == y;
        if j > 0 {
          LeTrans(cmp, x, s[0], y);
        }
      }
      ConsSorted(x, s, cmp);
    } else {
      var rest := Insert(x, s[1..], cmp);
      InsertSorted(x, s[1..], cmp);
      assert cmp(s[0], x) < 0;
      forall y | y in rest
        ensures cmp(s[0], y) <= 0
      {
        assert y in multiset(rest);
        if y != x {
          assert y in multiset(s[1..]);
          var j :| 0 <= j < |s[1..]| && s[1..][j] == y;
          assert s[j + 1] == y;
        }
      }
      ConsSorted(s[0], rest, cmp);
    }
  }

  /** With a consistent comparator the result is in order. */
  lemma {:induction false} SortSorted<T(!new)>(s: seq<T>, cmp: (T, T) -> int)
    requires Consistent(cmp)
    ensures Sorted(SortBy(s, cmp), cmp)
  {
    if |s| > 0 {
      SortSorted(s[1..], cmp);
      InsertSorted(s[0], SortBy(s[1..], cmp), cmp);
    }
  }

  /** Two elements on either side of a strict comparison are never both
      equivalent to the same `e`. */
  lemma SplitClasses<T(!new)>(x: T, y: T, cmp: (T, T) -> int, e: T)
    requires Consistent(cmp)
    requires cmp(x, y) > 0
    ensures Filter([x], EquivalentTo(cmp, e)) == [] || Filter([y], EquivalentTo(cmp, e)) == []
  {
    var p := EquivalentTo(cmp, e);
    FilterSingleton(x, p);
    FilterSingleton(y, p);
    if p(x) && p(y) {
      assert cmp(y, e) == 0;
      assert cmp(e, y) == 0;
      EquivTrans(cmp, x, e, y);
    }
  }

  lemma InsertPastHead<T>(x: T, s: seq<T>, cmp: (T, T) -> int)
    requires |s| > 0 && cmp(x, s[0]) > 0
    ensures Insert(x, s, cmp) == [s[0]] + Insert(x, s[1..], cmp)
  {
  }

  lemma SwapAroundEmpty<T>(a: seq<T>, b: seq<T>, c: seq<T>)
    requires a == [] || b == []
    ensures a + (b + c) == b + (a + c)
  {
    if a == [] {
      assert a + (b + c) == b + c;
      assert a + c == c;
    } else {
      assert b + c == c;
      assert b + (a + c) == a + c;
    }
  }

  /** One step of `Insert` past a smaller head keeps the class order. */
  lemma InsertStableStep<T>(x: T, s: seq<T>, cmp: (T, T) -> int, e: T)
    requires |s| > 0 && cmp(x, s[0]) > 0
    requires Filter([x], EquivalentTo(cmp, e)) == [] || Filter([s[0]], EquivalentTo(cmp, e)) == []
    requires Filter(Insert(x, s[1..], cmp), EquivalentTo(cmp, e))
          == Filter([x], EquivalentTo(cmp, e)) + Filter(s[1..], EquivalentTo(cmp, e))
    ensures Filter(Insert(x, s, cmp), EquivalentTo(cmp, e))
         == Filter([x], EquivalentTo(cmp, e)) + Filter(s, EquivalentTo(cmp, e))
  {
    var p := EquivalentTo(cmp, e);
    var tail := Insert(x, s[1..], cmp);
    InsertPastHead(x, s, cmp);
    FilterConcat([s[0]], tail, p);
    FilterUncons(s, p);
    SwapAroundEmpty(Filter([s[0]], p), Filter([x], p), Filter(s[1..], p));
  }

  /** Inserting `x` puts it in front of every element equivalent to it. */
  lemma {:induction false} InsertStable<T(!new)>(x: T, s: seq<T>, cmp: (T, T) -> int, e: T)
    requires Consistent(cmp)
    ensures Filter(Insert(x, s, cmp), EquivalentTo(cmp, e))
         == Filter([x], EquivalentTo(cmp, e)) + Filter(s, EquivalentTo(cmp, e))
  {
    if |s| == 0 {
      assert [x] + s == [x];
    } else if cmp(x, s[0]) <= 0 {
      FilterConcat([x], s, EquivalentTo(cmp, e));
    } else {
      InsertStable(x, s[1..], cmp, e);
      SplitClasses(x, s[0], cmp, e);
      InsertStableStep(x, s, cmp, e);
    }
  }

  /** Stability: the elements of each equivalence class keep their input order. */
  lemma {:induction false} SortStable<T(!new)>(s: seq<T>, cmp: (T, T) -> int, e: T)
    requires Consistent(cmp)
    ensures Filter(SortBy(s, cmp), EquivalentTo(cmp, e)) == Filter(s, EquivalentTo(cmp, e))
  {
    if |s| > 0 {
      var p, t := EquivalentTo(cmp, e), SortBy(s[1..], cmp);
      assert SortBy(s, cmp) == Insert(s[0], t, cmp);
      SortStable(s[1..], cmp, e);
      InsertStable(s[0], t, cmp, e);
      FilterUncons(s, p);
    }
  }
}
