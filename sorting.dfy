/**
 * `Array.prototype.sort` with a comparator, as the engine performs it: a
 * stable sort, so elements the comparator ranks equal keep their input order.
 * It is modelled as an insertion sort driven by the caller's own comparator;
 * for a comparator that is consistent on the array this yields the one stable
 * ordering, which is what the engine returns.
 */
module Sorting {
  import opened Seqs

  /** `cmp` orders the elements of `s` totally and transitively: a result
      `<= 0` means "the first may stay in front of the second". */
  ghost predicate ConsistentOn<T>(cmp: (T, T) -> int, s: seq<T>) {
    && (forall a, b :: a in s && b in s ==> cmp(a, b) <= 0 || cmp(b, a) <= 0)
    && (forall a, b, c :: a in s && b in s && c in s && cmp(a, b) <= 0 && cmp(b, c) <= 0 ==> cmp(a, c) <= 0)
  }

  /** Every element may stay in front of every later one. */
  predicate SortedBy<T>(s: seq<T>, cmp: (T, T) -> int) {
    forall i, j :: 0 <= i < j < |s| ==> cmp(s[i], s[j]) <= 0
  }

  /** Places `x` in front of the first element it does not exceed. */
  function Insert<T(==)>(x: T, s: seq<T>, cmp: (T, T) -> int): (r: seq<T>)
    ensures multiset(r) == multiset(s) + multiset{x}
    ensures |r| == |s| + 1
  {
    if s == [] || cmp(x, s[0]) <= 0 then [x] + s
    else
      assert s == [s[0]] + s[1..];
      [s[0]] + Insert(x, s[1..], cmp)
  }

  /** `[...s].sort(cmp)`. Each element is inserted in front of the already
      sorted later elements it does not exceed, hence in front of those it ties
      with: the sort is stable. */
  function SortBy<T(==)>(s: seq<T>, cmp: (T, T) -> int): (r: seq<T>)
    ensures multiset(r) == multiset(s)
    ensures |r| == |s|
  {
    if s == [] then []
    else
      assert s == [s[0]] + s[1..];
      Insert(s[0], SortBy(s[1..], cmp), cmp)
  }

  /** A sorted sequence stays sorted behind an element that may stay in front
      of each of its elements. */
  lemma ConsSorted<T>(x: T, s: seq<T>, cmp: (T, T) -> int)
    requires SortedBy(s, cmp)
    requires forall y :: y in s ==> cmp(x, y) <= 0
    ensures SortedBy([x] + s, cmp)
  {
    var r := [x] + s;
    forall i, j | 0 <= i < j < |r| ensures cmp(r[i], r[j]) <= 0 {
      assert r[j] == s[j - 1];
      if i > 0 {
        assert r[i] == s[i - 1];
      }
    }
  }

  /** Inserting into a sorted sequence keeps it sorted. */
  lemma {:induction false} InsertSorted<T>(x: T, s: seq<T>, cmp: (T, T) -> int, all: seq<T>)
    requires ConsistentOn(cmp, all)
    requires x in all && forall y :: y in s ==> y in all
    requires SortedBy(s, cmp)
    ensures SortedBy(Insert(x, s, cmp), cmp)
  {
    if s == [] || cmp(x, s[0]) <= 0 {
      forall y | y in s ensures cmp(x, y) <= 0 {
        var j :| 0 <= j < |s| && s[j] == y;
        if j > 0 { assert cmp(s[0], s[j]) <= 0; }
      }
      ConsSorted(x, s, cmp);
    } else {
      var t := Insert(x, s[1..], cmp);
      InsertSorted(x, s[1..], cmp, all);
      forall y | y in t ensures cmp(s[0], y) <= 0 {
        assert y in multiset(t);
        if y != x {
          assert y in multiset(s[1..]);
          var j :| 0 <= j < |s[1..]| && s[1..][j] == y;
          assert s[j + 1] == y;
        }
      }
      ConsSorted(s[0], t, cmp);
    }
  }

  /** The stable sort returns a sorted permutation (permutation: see SortBy). */
  lemma {:induction false} SortBySorted<T>(s: seq<T>, cmp: (T, T) -> int)
    requires ConsistentOn(cmp, s)
    ensures SortedBy(SortBy(s, cmp), cmp)
  {
    if s != [] {
      assert forall y :: y in s[1..] ==> y in s;
      SortBySorted(s[1..], cmp);
      var t := SortBy(s[1..], cmp);
      assert forall y :: y in t ==> y in s by {
        forall y | y in t ensures y in s {
          assert y in multiset(t);
        }
      }
      InsertSorted(s[0], t, cmp, s);
    }
  }

  /** The comparator `(a, b) => key(b) - key(a)`: larger keys first. */
  function Desc<T>(key: T -> int): (T, T) -> int {
    (a, b) => key(b) - key(a)
  }

  /** Sorting by a descending key gives a permutation whose keys never increase. */
  lemma SortDescOrdered<T>(s: seq<T>, key: T -> int)
    ensures multiset(SortBy(s, Desc(key))) == multiset(s)
    ensures forall i, j :: 0 <= i < j < |s| ==> key(SortBy(s, Desc(key))[i]) >= key(SortBy(s, Desc(key))[j])
  {
    SortBySorted(s, Desc(key));
  }

  /** Stability at the front: the first element after a descending sort is the
      first element of the input that holds the largest key. */
  lemma {:induction false} SortDescHead<T>(s: seq<T>, key: T -> int)
    requires |s| > 0
    ensures SortBy(s, Desc(key))[0] == s[FirstMaxIndex(s, key)]
  {
    var k := SortDescHeadAt(s, key);
    FirstMaxUnique(s, key, k, FirstMaxIndex(s, key));
  }

  lemma {:induction false} SortDescHeadAt<T>(s: seq<T>, key: T -> int) returns (k: int)
    requires |s| > 0
    ensures IsFirstMax(s, key, k) && SortBy(s, Desc(key))[0] == s[k]
  {
    if |s| == 1 {
      k := 0;
      assert SortBy(s, Desc(key)) == Insert(s[0], [], Desc(key));
    } else {
      var k' := SortDescHeadAt(s[1..], key);
      var t := SortBy(s[1..], Desc(key));
      assert SortBy(s, Desc(key)) == Insert(s[0], t, Desc(key));
      if key(t[0]) - key(s[0]) <= 0 {
        k := 0;
        assert Insert(s[0], t, Desc(key))[0] == s[0];
        HeadAtFront(s, key, k');
      } else {
        k := k' + 1;
        assert Insert(s[0], t, Desc(key))[0] == t[0];
        HeadBehindFront(s, key, k');
      }
    }
  }

  /** The first element is a first maximum when it is at least the first
      maximum of the rest. */
  lemma HeadAtFront<T>(s: seq<T>, key: T -> int, k': int)
    requires |s| > 1 && IsFirstMax(s[1..], key, k') && key(s[1..][k']) <= key(s[0])
    ensures IsFirstMax(s, key, 0)
  {
    forall j | 0 < j < |s| ensures key(s[j]) <= key(s[0]) {
      assert s[j] == s[1..][j - 1];
    }
  }

  /** The first maximum of the rest is the first maximum when it exceeds the
      first element. */
  lemma HeadBehindFront<T>(s: seq<T>, key: T -> int, k': int)
    requires |s| > 1 && IsFirstMax(s[1..], key, k') && key(s[1..][k']) > key(s[0])
    ensures IsFirstMax(s, key, k' + 1)
  {
    forall j | 0 < j < |s| ensures key(s[j]) <= key(s[k' + 1]) && (j < k' + 1 ==> key(s[j]) < key(s[k' + 1])) {
      assert s[j] == s[1..][j - 1];
    }
  }

  /** Inserting adds the inserted element's term to a sum. */
  lemma {:induction false} SumByInsert<T>(x: T, s: seq<T>, cmp: (T, T) -> int, f: T -> int)
    ensures SumBy(Insert(x, s, cmp), f) == f(x) + SumBy(s, f)
  {
    if s == [] || cmp(x, s[0]) <= 0 {
      SumByConcat([x], s, f);
    } else {
      SumByInsert(x, s[1..], cmp, f);
      SumByConcat([s[0]], Insert(x, s[1..], cmp), f);
      SumByConcat([s[0]], s[1..], f);
      assert [s[0]] + s[1..] == s;
    }
  }

  /** Sorting does not change a sum. */
  lemma {:induction false} SumBySortBy<T>(s: seq<T>, cmp: (T, T) -> int, f: T -> int)
    ensures SumBy(SortBy(s, cmp), f) == SumBy(s, f)
  {
    if s != [] {
      var t := SortBy(s[1..], cmp);
      assert SortBy(s, cmp) == Insert(s[0], t, cmp);
      SumBySortBy(s[1..], cmp, f);
      SumByInsert(s[0], t, cmp, f);
      SumByConcat([s[0]], s[1..], f);
      assert [s[0]] + s[1..] == s;
      assert SumBy([s[0]], f) == f(s[0]);
    }
  }

  /** `[...s].sort((a, b) => key(b) - key(a)).slice(0, n)`. */
  function TopBy<T(==)>(s: seq<T>, key: T -> int, n: nat): (r: seq<T>)
    ensures |r| == if |s| < n then |s| else n
  {
    Take(SortBy(s, Desc(key)), n)
  }

  /** The top `n` are elements of `s`, each as often at most as in `s`. */
  lemma TopBySubset<T>(s: seq<T>, key: T -> int, n: nat)
    ensures multiset(TopBy(s, key, n)) <= multiset(s)
  {
    var r := SortBy(s, Desc(key));
    var t := TopBy(s, key, n);
    assert r == t + r[|t|..];
    assert multiset(r) == multiset(t) + multiset(r[|t|..]);
  }

  /** The keys of the top `n` never increase. */
  lemma TopByOrdered<T>(s: seq<T>, key: T -> int, n: nat)
    ensures forall i, j :: 0 <= i < j < |TopBy(s, key, n)| ==> key(TopBy(s, key, n)[i]) >= key(TopBy(s, key, n)[j])
  {
    SortDescOrdered(s, key);
  }

  /** An element of `s` left out of the top `n` has a key no larger than that
      of any element kept. */
  lemma TopByDominates<T>(s: seq<T>, key: T -> int, n: nat)
    ensures forall x, y :: x in s && x !in TopBy(s, key, n) && y in TopBy(s, key, n) ==> key(y) >= key(x)
  {
    var r := SortBy(s, Desc(key));
    var t := TopBy(s, key, n);
    SortDescOrdered(s, key);
    forall x, y | x in s && x !in t && y in t ensures key(y) >= key(x) {
      assert x in multiset(r);
      var j :| 0 <= j < |r| && r[j] == x;
      var i :| 0 <= i < |t| && t[i] == y;
      assert r[i] == y;
      forall k | 0 <= k < |t| ensures r[k] != x {
        assert t[k] in t;
      }
    }
  }

  /** The top `n` are the first `n` places of the sorted list, and each of
      them has a key no smaller than that of any later place. */
  lemma TopByCut<T>(s: seq<T>, key: T -> int, n: nat)
    ensures var r := SortBy(s, Desc(key));
      TopBy(s, key, n) == r[..|TopBy(s, key, n)|]
    ensures var r := SortBy(s, Desc(key));
      forall i, j :: 0 <= i < |TopBy(s, key, n)| <= j < |r| ==> key(TopBy(s, key, n)[i]) >= key(r[j])
  {
    var r := SortBy(s, Desc(key));
    var t := TopBy(s, key, n);
    SortDescOrdered(s, key);
    forall i, j | 0 <= i < |t| <= j < |r| ensures key(t[i]) >= key(r[j]) {
      assert t[i] == r[i];
    }
  }

  /** The top `n` of the elements passing a filter pass it and come from `s`. */
  lemma TopByFilterMembers<T>(s: seq<T>, p: T -> bool, key: T -> int, n: nat)
    ensures forall x :: x in TopBy(Filter(s, p), key, n) ==> x in s && p(x)
  {
    var t := TopBy(Filter(s, p), key, n);
    TopBySubset(Filter(s, p), key, n);
    forall x | x in t ensures x in s && p(x) {
      assert x in multiset(t);
    }
  }

  /** An element passing the filter but left out of the top `n` has a key no
      larger than that of any element kept. */
  lemma TopByFilterDominates<T>(s: seq<T>, p: T -> bool, key: T -> int, n: nat)
    ensures forall x, y :: x in s && p(x) && x !in TopBy(Filter(s, p), key, n) && y in TopBy(Filter(s, p), key, n) ==>
      key(y) >= key(x)
  {
    var f := Filter(s, p);
    TopByDominates(f, key, n);
    forall x | x in s && p(x) ensures x in f {
      assert multiset(f)[x] == multiset(s)[x];
    }
  }
}
