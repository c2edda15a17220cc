/**
 * The array idioms the pages use: `Array.prototype.filter`, and a stable
 * sort on a numeric timestamp, newest first (the comparator `b - a`).
 */
module Seqs {

  /** `s.filter(p)`. */
  function Filter<T>(s: seq<T>, p: T -> bool): (r: seq<T>)
    ensures |r| <= |s|
    ensures forall k :: 0 <= k < |r| ==> r[k] in s && p(r[k])
    ensures forall k :: 0 <= k < |s| && p(s[k]) ==> s[k] in r
    decreases |s|
  {
    if s == [] then []
    else (if p(s[0]) then [s[0]] else []) + Filter(s[1..], p)
  }

  /** `r` is `s` with some elements left out, the rest in their original order. */
  predicate SubsequenceOf<T(==)>(r: seq<T>, s: seq<T>)
    decreases |s|
  {
    if r == [] then true
    else if s == [] then false
    else if r[0] == s[0] then SubsequenceOf(r[1..], s[1..])
    else SubsequenceOf(r, s[1..])
  }

  lemma {:induction false} EmptySubsequence<T>(s: seq<T>)
    ensures SubsequenceOf([], s)
  {
  }

  /** The filter keeps the surviving elements in their original order. */
  lemma {:induction false} FilterIsSubsequence<T>(s: seq<T>, p: T -> bool)
    ensures SubsequenceOf(Filter(s, p), s)
    decreases |s|
  {
    if s != [] {
      FilterIsSubsequence(s[1..], p);
      var r := Filter(s, p);
      if p(s[0]) {
        assert r[0] == s[0] && r[1..] == Filter(s[1..], p);
      } else {
        assert r == Filter(s[1..], p);
      }
    }
  }

  /** The filter keeps every occurrence of a kept element: counts are preserved for kept values and zero otherwise. */
  lemma {:induction false} FilterCount<T>(s: seq<T>, p: T -> bool, x: T)
    ensures multiset(Filter(s, p))[x] == if p(x) then multiset(s)[x] else 0
    decreases |s|
  {
    if s != [] {
      FilterCount(s[1..], p, x);
      assert s == [s[0]] + s[1..];
    }
  }

  /** An element survives the filter exactly when it occurs in the input and satisfies the predicate. */
  lemma FilterMember<T>(s: seq<T>, p: T -> bool, x: T)
    ensures x in Filter(s, p) <==> x in s && p(x)
  {
    if x in Filter(s, p) {
      var k :| 0 <= k < |Filter(s, p)| && Filter(s, p)[k] == x;
    }
    if x in s && p(x) {
      var k :| 0 <= k < |s| && s[k] == x;
    }
  }

  /** Two predicates that agree on every element filter alike. */
  lemma {:induction false} FilterAgree<T>(s: seq<T>, p: T -> bool, q: T -> bool)
    requires forall k :: 0 <= k < |s| ==> p(s[k]) == q(s[k])
    ensures Filter(s, p) == Filter(s, q)
    decreases |s|
  {
    if s != [] {
      FilterAgree(s[1..], p, q);
    }
  }

  /** A predicate that holds of every element keeps the whole sequence. */
  lemma {:induction false} FilterAll<T>(s: seq<T>, p: T -> bool)
    requires forall k :: 0 <= k < |s| ==> p(s[k])
    ensures Filter(s, p) == s
    decreases |s|
  {
    if s != [] {
      FilterAll(s[1..], p);
    }
  }

  /** A predicate that fails at exactly one position removes exactly that element. */
  lemma {:induction false} FilterRemovesOne<T>(s: seq<T>, p: T -> bool, k: nat)
    requires k < |s| && !p(s[k])
    requires forall j :: 0 <= j < |s| && j != k ==> p(s[j])
    ensures Filter(s, p) == s[..k] + s[k + 1..]
    decreases |s|
  {
    if k == 0 {
      assert forall j :: 0 <= j < |s[1..]| ==> p(s[1..][j]) by {
        TailHolds(s, p, 0);
      }
      FilterAll(s[1..], p);
    } else {
      assert forall j :: 0 <= j < |s[1..]| && j != k - 1 ==> p(s[1..][j]) by {
        TailHolds(s, p, k);
      }
      FilterRemovesOne(s[1..], p, k - 1);
      SliceAround(s, k);
    }
  }

  lemma TailHolds<T>(s: seq<T>, p: T -> bool, k: nat)
    requires s != []
    requires forall j :: 0 <= j < |s| && j != k ==> p(s[j])
    ensures forall j :: 0 <= j < |s| - 1 && j + 1 != k ==> p(s[1..][j])
  {
  }

  lemma SliceAround<T>(s: seq<T>, k: nat)
    requires 1 <= k < |s|
    ensures [s[0]] + (s[1..][..k - 1] + s[1..][k..]) == s[..k] + s[k + 1..]
  {
    assert s[1..][..k - 1] == s[1..k];
    assert s[1..][k..] == s[k + 1..];
    assert [s[0]] + s[1..k] == s[..k];
  }

  /** Filtering twice with the same predicate changes nothing more. */
  lemma {:induction false} FilterIdempotent<T>(s: seq<T>, p: T -> bool)
    ensures Filter(Filter(s, p), p) == Filter(s, p)
  {
    var r := Filter(s, p);
    forall k | 0 <= k < |r| ensures p(r[k]) {
      assert r[k] in r;
    }
    FilterAll(r, p);
  }

  /** Every timestamp key in `s` is at least as large as the ones after it. */
  predicate NewestFirst<T>(s: seq<T>, key: T -> int) {
    forall i, j :: 0 <= i < j < |s| ==> key(s[i]) >= key(s[j])
  }

  /** Places `x` in front of the first element that is not newer than it. */
  function InsertNewestFirst<T>(x: T, s: seq<T>, key: T -> int): (r: seq<T>)
    ensures |r| == |s| + 1
    decreases |s|
  {
    if s == [] || key(s[0]) <= key(x) then [x] + s
    else [s[0]] + InsertNewestFirst(x, s[1..], key)
  }

  lemma {:induction false} InsertKeepsElements<T>(x: T, s: seq<T>, key: T -> int)
    ensures multiset(InsertNewestFirst(x, s, key)) == multiset(s) + multiset{x}
    decreases |s|
  {
    if s != [] && key(s[0]) > key(x) {
      InsertKeepsElements(x, s[1..], key);
      assert s == [s[0]] + s[1..];
    }
  }

  /** Nothing inserted is newer than both the new element and the old first element. */
  lemma {:induction false} InsertBound<T>(x: T, s: seq<T>, key: T -> int, k: nat)
    requires NewestFirst(s, key)
    requires s != [] && k < |s| + 1
    ensures key(InsertNewestFirst(x, s, key)[k]) <= key(x) || key(InsertNewestFirst(x, s, key)[k]) <= key(s[0])
    decreases |s|
  {
    var r := InsertNewestFirst(x, s, key);
    if key(s[0]) <= key(x) {
      if k > 0 {
        assert r[k] == s[k - 1];
      }
    } else if k > 0 {
      if |s| == 1 {
        assert r[k] == x;
      } else {
        InsertBound(x, s[1..], key, k - 1);
        assert key(s[1]) <= key(s[0]);
      }
    }
  }

  lemma {:induction false} InsertSorted<T>(x: T, s: seq<T>, key: T -> int)
    requires NewestFirst(s, key)
    ensures NewestFirst(InsertNewestFirst(x, s, key), key)
    decreases |s|
  {
    var r := InsertNewestFirst(x, s, key);
    if s != [] && key(s[0]) > key(x) {
      var rest := InsertNewestFirst(x, s[1..], key);
      InsertSorted(x, s[1..], key);
      forall i, j | 0 <= i < j < |r| ensures key(r[i]) >= key(r[j]) {
        if i == 0 {
          if |s| == 1 {
            assert r[j] == x;
          } else {
            InsertBound(x, s[1..], key, j - 1);
            assert key(s[1]) <= key(s[0]);
          }
        } else {
          assert r[i] == rest[i - 1] && r[j] == rest[j - 1];
        }
      }
    }
  }

  /**
   * A stable sort, newest first: `s.sort((a, b) => key(b) - key(a))`.
   * Elements with equal keys keep their input order.
   */
  function SortNewestFirst<T>(s: seq<T>, key: T -> int): (r: seq<T>)
    ensures |r| == |s|
    ensures NewestFirst(r, key)
    ensures multiset(r) == multiset(s)
    decreases |s|
  {
    if s == [] then []
    else
      var sorted := SortNewestFirst(s[1..], key);
      InsertKeepsElements(s[0], sorted, key);
      InsertSorted(s[0], sorted, key);
      assert s == [s[0]] + s[1..];
      InsertNewestFirst(s[0], sorted, key)
  }

  /** The elements whose timestamp key is `t`. */
  function KeyIs<T>(key: T -> int, t: int): T -> bool {
    (y: T) => key(y) == t
  }

  /** Inserting puts `x` ahead of every element with its own key, so equal keys keep their order. */
  lemma {:induction false} InsertStable<T>(x: T, s: seq<T>, key: T -> int, t: int)
    ensures Filter(InsertNewestFirst(x, s, key), KeyIs(key, t))
         == (if key(x) == t then [x] else []) + Filter(s, KeyIs(key, t))
    decreases |s|
  {
    var p := KeyIs(key, t);
    if s != [] && key(s[0]) > key(x) {
      InsertStable(x, s[1..], key, t);
      var r := InsertNewestFirst(x, s, key);
      assert r[0] == s[0] && r[1..] == InsertNewestFirst(x, s[1..], key);
      assert Filter(r, p) == (if p(s[0]) then [s[0]] else []) + Filter(r[1..], p);
    }
  }

  /**
   * The sort is stable: for every key, the elements with that key appear in
   * the result in the order they had in the input.
   */
  lemma {:induction false} SortStable<T>(s: seq<T>, key: T -> int, t: int)
    ensures Filter(SortNewestFirst(s, key), KeyIs(key, t)) == Filter(s, KeyIs(key, t))
    decreases |s|
  {
    if s != [] {
      SortStable(s[1..], key, t);
      InsertStable(s[0], SortNewestFirst(s[1..], key), key, t);
    }
  }
}
