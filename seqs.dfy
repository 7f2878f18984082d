/**
 * Generic sequence operations used throughout the model: list
 * comprehensions with a condition (`Filter`), `sum(...)` over a
 * generator (`Sum`) and Python's stable `list.sort` (`Sort`).
 */
module Seqs {
  import opened Wrappers

  /** `[x for x in s if p(x)]` */
  function Filter<T(!new)>(s: seq<T>, p: T -> bool): (r: seq<T>)
    ensures |r| <= |s|
    ensures forall x :: x in r <==> x in s && p(x)
    ensures forall i :: 0 <= i < |r| ==> p(r[i])
  {
    if s == [] then [] else (if p(s[0]) then [s[0]] else []) + Filter(s[1..], p)
  }

  lemma {:induction false} FilterAppend<T(!new)>(a: seq<T>, b: seq<T>, p: T -> bool)
    ensures Filter(a + b, p) == Filter(a, p) + Filter(b, p)
  {
    if a == [] {
      assert a + b == b;
    } else {
      assert (a + b)[1..] == a[1..] + b;
      FilterAppend(a[1..], b, p);
    }
  }

  /** Filtering twice is filtering once by the conjunction. */
  lemma {:induction false} FilterFilter<T(!new)>(s: seq<T>, p: T -> bool, q: T -> bool, pq: T -> bool)
    requires forall x :: pq(x) == (p(x) && q(x))
    ensures Filter(Filter(s, p), q) == Filter(s, pq)
  {
    if s != [] {
      var y := Filter(s[1..], p);
      FilterFilter(s[1..], p, q, pq);
      assert pq(s[0]) == (p(s[0]) && q(s[0]));
      if p(s[0]) {
        var x := [s[0]] + y;
        assert Filter(s, p) == x;
        assert x[1..] == y;
        assert Filter(x, q) == (if q(s[0]) then [s[0]] else []) + Filter(y, q);
      } else {
        assert Filter(s, p) == y;
      }
    }
  }

  /** The number of elements that satisfy `p`, split by a second condition. */
  lemma {:induction false} FilterSplit<T(!new)>(s: seq<T>, p: T -> bool, q: T -> bool, pq: T -> bool, pnq: T -> bool)
    requires forall x :: pq(x) == (p(x) && q(x))
    requires forall x :: pnq(x) == (p(x) && !q(x))
    ensures |Filter(s, p)| == |Filter(s, pq)| + |Filter(s, pnq)|
  {
    if s != [] {
      FilterSplit(s[1..], p, q, pq, pnq);
    }
  }

  /**
   * `for index, x in enumerate(s)`, keeping `f(x, index)` when it yields a
   * value: a loop that appends at most one element per item.
   */
  function FilterMapIndexed<T, U>(s: seq<T>, f: (T, nat) -> Option<U>): seq<U>
  {
    if s == [] then []
    else
      var r := f(s[|s| - 1], |s| - 1);
      FilterMapIndexed(s[..|s| - 1], f) + (if r.Some? then [r.value] else [])
  }

  lemma FilterMapIndexedSnoc<T, U>(s: seq<T>, i: nat, f: (T, nat) -> Option<U>)
    requires i < |s|
    ensures FilterMapIndexed(s[..i + 1], f) ==
              FilterMapIndexed(s[..i], f) + (if f(s[i], i).Some? then [f(s[i], i).value] else [])
  {
    var p := s[..i + 1];
    assert p[..|p| - 1] == s[..i];
    assert p[|p| - 1] == s[i];
  }

  /** An element is kept exactly when some item yields it at its own index. */
  lemma {:induction false} FilterMapIndexedMembership<T, U(!new)>(s: seq<T>, f: (T, nat) -> Option<U>)
    ensures forall u :: u in FilterMapIndexed(s, f) <==> exists k :: 0 <= k < |s| && f(s[k], k) == Some(u)
  {
    if s != [] {
      var init := s[..|s| - 1];
      FilterMapIndexedMembership(init, f);
      forall u ensures u in FilterMapIndexed(s, f) <==> exists k :: 0 <= k < |s| && f(s[k], k) == Some(u) {
        if exists k :: 0 <= k < |init| && f(init[k], k) == Some(u) {
          var k :| 0 <= k < |init| && f(init[k], k) == Some(u);
          assert s[k] == init[k];
        }
        if exists k :: 0 <= k < |s| && f(s[k], k) == Some(u) {
          var k :| 0 <= k < |s| && f(s[k], k) == Some(u);
          if k < |init| {
            assert init[k] == s[k];
          }
        }
      }
    }
  }

  /** At most one element per item. */
  lemma {:induction false} FilterMapIndexedLength<T, U>(s: seq<T>, f: (T, nat) -> Option<U>)
    ensures |FilterMapIndexed(s, f)| <= |s|
  {
    if s != [] {
      FilterMapIndexedLength(s[..|s| - 1], f);
    }
  }

  /** `sum(f(x) for x in s)`, accumulated from the left. */
  function Sum<T>(s: seq<T>, f: T -> real): real
  {
    if s == [] then 0.0 else f(s[0]) + Sum(s[1..], f)
  }

  lemma {:induction false} SumAppend<T>(a: seq<T>, b: seq<T>, f: T -> real)
    ensures Sum(a + b, f) == Sum(a, f) + Sum(b, f)
  {
    if a == [] {
      assert a + b == b;
    } else {
      assert (a + b)[1..] == a[1..] + b;
      SumAppend(a[1..], b, f);
    }
  }

  /** Summing over the filtered elements is summing `f` where `p` holds and 0 elsewhere. */
  lemma {:induction false} SumFilter<T(!new)>(s: seq<T>, p: T -> bool, f: T -> real, g: T -> real)
    requires forall x :: g(x) == (if p(x) then f(x) else 0.0)
    ensures Sum(Filter(s, p), f) == Sum(s, g)
  {
    if s != [] {
      var y := Filter(s[1..], p);
      SumFilter(s[1..], p, f, g);
      assert g(s[0]) == (if p(s[0]) then f(s[0]) else 0.0);
      if p(s[0]) {
        var x := [s[0]] + y;
        assert Filter(s, p) == x;
        assert x[1..] == y;
      } else {
        assert Filter(s, p) == y;
      }
    }
  }

  lemma {:induction false} SumNonNegative<T>(s: seq<T>, f: T -> real)
    requires forall x :: x in s ==> f(x) >= 0.0
    ensures Sum(s, f) >= 0.0
  {
    if s != [] {
      SumNonNegative(s[1..], f);
    }
  }

  /** `le` orders every pair and is transitive: what `list.sort` needs of its key. */
  ghost predicate TotalPreorder<T(!new)>(le: (T, T) -> bool)
  {
    (forall a, b :: le(a, b) || le(b, a)) &&
    (forall a, b, c :: le(a, b) && le(b, c) ==> le(a, c))
  }

  ghost predicate SortedBy<T>(s: seq<T>, le: (T, T) -> bool)
  {
    forall i, j :: 0 <= i < j < |s| ==> le(s[i], s[j])
  }

  /** Puts `x` in front of the first element it may precede. */
  function Insert<T>(x: T, s: seq<T>, le: (T, T) -> bool): seq<T>
  {
    if s == [] || le(x, s[0]) then [x] + s else [s[0]] + Insert(x, s[1..], le)
  }

  /**
   * Python's stable `sort`: insertion sort that puts each element before
   * the later elements it ties with, so equal keys keep their input order.
   * Ascending order uses `le(a, b) == key(a) <= key(b)`; `reverse=True`
   * uses `le(a, b) == key(b) <= key(a)`.
   */
  function Sort<T>(s: seq<T>, le: (T, T) -> bool): seq<T>
  {
    if s == [] then [] else Insert(s[0], Sort(s[1..], le), le)
  }

  lemma {:induction false} InsertPermutation<T>(x: T, s: seq<T>, le: (T, T) -> bool)
    ensures multiset(Insert(x, s, le)) == multiset([x]) + multiset(s)
    ensures |Insert(x, s, le)| == |s| + 1
  {
    if s != [] && !le(x, s[0]) {
      InsertPermutation(x, s[1..], le);
      assert s == [s[0]] + s[1..];
    }
  }

  lemma {:induction false} SortPermutation<T>(s: seq<T>, le: (T, T) -> bool)
    ensures multiset(Sort(s, le)) == multiset(s)
    ensures |Sort(s, le)| == |s|
  {
    if s != [] {
      SortPermutation(s[1..], le);
      InsertPermutation(s[0], Sort(s[1..], le), le);
      assert s == [s[0]] + s[1..];
    }
  }

  lemma {:induction false} InsertSorted<T(!new)>(x: T, s: seq<T>, le: (T, T) -> bool)
    requires TotalPreorder(le)
    requires SortedBy(s, le)
    ensures SortedBy(Insert(x, s, le), le)
  {
    if s == [] || le(x, s[0]) {
      var r := [x] + s;
      forall i, j | 0 <= i < j < |r|
        ensures le(r[i], r[j])
      {
        if i == 0 && j > 1 {
          assert le(s[0], s[j - 1]);
        }
      }
    } else {
      var t := Insert(x, s[1..], le);
      InsertSorted(x, s[1..], le);
      InsertPermutation(x, s[1..], le);
      var r := [s[0]] + t;
      forall j | 0 <= j < |t|
        ensures le(s[0], t[j])
      {
        assert t[j] in multiset(t);
        assert t[j] == x || t[j] in multiset(s[1..]);
        if t[j] != x {
          var k :| 0 <= k < |s[1..]| && s[1..][k] == t[j];
          assert le(s[0], s[k + 1]);
        }
      }
      assert Insert(x, s, le) == r;
      forall i, j | 0 <= i < j < |r|
        ensures le(r[i], r[j])
      {
        if i == 0 {
          assert r[j] == t[j - 1];
        } else {
          assert r[i] == t[i - 1] && r[j] == t[j - 1];
        }
      }
    }
  }

  lemma {:induction false} SortSorted<T(!new)>(s: seq<T>, le: (T, T) -> bool)
    requires TotalPreorder(le)
    ensures SortedBy(Sort(s, le), le)
  {
    if s != [] {
      SortSorted(s[1..], le);
      InsertSorted(s[0], Sort(s[1..], le), le);
    }
  }

  /**
   * Inserting `x` skips only elements `x` may not precede; when `x` may
   * precede every element tied with it, none of the skipped ones is tied,
   * so `x` lands in front of every element of its class.
   */
  lemma {:induction false} InsertKeepsTies<T(!new)>(x: T, s: seq<T>, le: (T, T) -> bool, tied: T -> bool)
    requires forall y :: tied(x) && tied(y) ==> le(x, y)
    ensures Filter(Insert(x, s, le), tied) == (if tied(x) then [x] else []) + Filter(s, tied)
  {
    if s == [] || le(x, s[0]) {
      FilterCons(x, s, tied);
    } else {
      var s0 := s[0];
      var t := Insert(x, s[1..], le);
      InsertKeepsTies(x, s[1..], le, tied);
      FilterCons(s0, t, tied);
      FilterCons(s0, s[1..], tied);
      assert [s0] + s[1..] == s;
      assert !(tied(x) && tied(s0));
    }
  }

  lemma FilterCons<T(!new)>(x: T, s: seq<T>, p: T -> bool)
    ensures Filter([x] + s, p) == (if p(x) then [x] else []) + Filter(s, p)
  {
    assert ([x] + s)[1..] == s;
  }

  /**
   * `Sort` is stable: elements that all tie with each other (for a key
   * order, those with one key) appear in the result in exactly the order
   * they had in the input.
   */
  lemma {:induction false} SortKeepsTies<T(!new)>(s: seq<T>, le: (T, T) -> bool, tied: T -> bool)
    requires forall y, z :: tied(y) && tied(z) ==> le(y, z)
    ensures Filter(Sort(s, le), tied) == Filter(s, tied)
  {
    if s != [] {
      SortKeepsTies(s[1..], le, tied);
      InsertKeepsTies(s[0], Sort(s[1..], le), le, tied);
    }
  }

  /** `key` takes a different value on every element. */
  ghost predicate DistinctBy<T, K>(s: seq<T>, key: T -> K)
  {
    forall i, j :: 0 <= i < j < |s| ==> key(s[i]) != key(s[j])
  }

  lemma {:induction false} InsertDistinct<T, K>(x: T, s: seq<T>, le: (T, T) -> bool, key: T -> K)
    requires DistinctBy(s, key)
    requires forall k :: 0 <= k < |s| ==> key(s[k]) != key(x)
    ensures DistinctBy(Insert(x, s, le), key)
  {
    if s == [] || le(x, s[0]) {
      var r := [x] + s;
      forall i, j | 0 <= i < j < |r|
        ensures key(r[i]) != key(r[j])
      {
        assert r[j] == s[j - 1];
        if i > 0 {
          assert r[i] == s[i - 1];
        }
      }
    } else {
      var t := Insert(x, s[1..], le);
      InsertDistinct(x, s[1..], le, key);
      InsertPermutation(x, s[1..], le);
      forall j | 0 <= j < |t|
        ensures key(s[0]) != key(t[j])
      {
        assert t[j] in multiset(t);
        if t[j] != x {
          assert t[j] in multiset(s[1..]);
          var k :| 0 <= k < |s[1..]| && s[1..][k] == t[j];
          assert s[k + 1] == t[j];
        }
      }
      var r := [s[0]] + t;
      assert Insert(x, s, le) == r;
      forall i, j | 0 <= i < j < |r|
        ensures key(r[i]) != key(r[j])
      {
        assert r[j] == t[j - 1];
        if i > 0 {
          assert r[i] == t[i - 1];
        }
      }
    }
  }

  /** Sorting keeps distinct keys distinct. */
  lemma {:induction false} SortDistinct<T, K>(s: seq<T>, le: (T, T) -> bool, key: T -> K)
    requires DistinctBy(s, key)
    ensures DistinctBy(Sort(s, le), key)
  {
    if s != [] {
      var t := Sort(s[1..], le);
      assert DistinctBy(s[1..], key) by {
        forall i, j | 0 <= i < j < |s[1..]| ensures key(s[1..][i]) != key(s[1..][j]) {
          assert s[1..][i] == s[i + 1] && s[1..][j] == s[j + 1];
        }
      }
      SortDistinct(s[1..], le, key);
      SortPermutation(s[1..], le);
      forall k | 0 <= k < |t|
        ensures key(t[k]) != key(s[0])
      {
        assert t[k] in multiset(t);
        assert t[k] in multiset(s[1..]);
        var m :| 0 <= m < |s[1..]| && s[1..][m] == t[k];
        assert s[m + 1] == t[k];
      }
      InsertDistinct(s[0], t, le, key);
    }
  }
}
