/** Sequence utilities used by the server's queries and the browser's list
    pipelines: order-preserving filtering, first-match search and a stable sort. */
module Seqs {
  import opened Wrappers

  /** `r` is obtained from `s` by deleting elements, keeping the order of the rest. */
  ghost predicate Subsequence<T>(r: seq<T>, s: seq<T>)
    decreases |s|
  {
    if r == [] then true
    else if s == [] then false
    else (r[0] == s[0] && Subsequence(r[1..], s[1..])) || Subsequence(r, s[1..])
  }

  /** An element that passes the filter is kept. */
  lemma FilterKeeps<T(!new)>(s: seq<T>, keep: T -> bool, i: nat)
    requires i < |s| && keep(s[i])
    ensures s[i] in Filter(s, keep)
  {
    assert multiset(s)[s[i]] > 0;
  }

  /** The elements of `s` that satisfy `keep`, in their original order
      (JavaScript's `Array.prototype.filter`, Django's `QuerySet.filter`). */
  function Filter<T(!new)>(s: seq<T>, keep: T -> bool): (r: seq<T>)
    ensures forall x :: multiset(r)[x] == if keep(x) then multiset(s)[x] else 0
    ensures forall i :: 0 <= i < |r| ==> keep(r[i])
    ensures Subsequence(r, s)
    decreases |s|
  {
    if s == [] then []
    else
      assert s == [s[0]] + s[1..];
      var rest := Filter(s[1..], keep);
      if keep(s[0]) then
        var r := [s[0]] + rest;
        assert r[1..] == rest;
        r
      else rest
  }

  lemma {:induction false} SubsequenceIn<T>(r: seq<T>, s: seq<T>)
    requires Subsequence(r, s)
    ensures forall k :: 0 <= k < |r| ==> r[k] in s
    decreases |s|
  {
    if r != [] {
      if r[0] == s[0] && Subsequence(r[1..], s[1..]) {
        SubsequenceIn(r[1..], s[1..]);
        forall k | 0 <= k < |r| ensures r[k] in s {
          if k > 0 {
            assert r[k] == r[1..][k - 1];
          }
        }
      } else {
        SubsequenceIn(r, s[1..]);
      }
    }
  }

  /** A relation that holds between every earlier and later element of `s` still
      holds in any subsequence of it; so uniqueness of a key survives filtering. */
  lemma {:induction false} SubsequencePairs<T>(r: seq<T>, s: seq<T>, P: (T, T) -> bool)
    requires Subsequence(r, s)
    requires forall i, j :: 0 <= i < j < |s| ==> P(s[i], s[j])
    ensures forall i, j :: 0 <= i < j < |r| ==> P(r[i], r[j])
    decreases |s|
  {
    if r != [] {
      var t := s[1..];
      forall i, j | 0 <= i < j < |t| ensures P(t[i], t[j]) {
        assert t[i] == s[i + 1] && t[j] == s[j + 1];
      }
      if r[0] == s[0] && Subsequence(r[1..], t) {
        SubsequencePairs(r[1..], t, P);
        SubsequenceIn(r[1..], t);
        forall i, j | 0 <= i < j < |r| ensures P(r[i], r[j]) {
          assert r[j] == r[1..][j - 1];
          if i == 0 {
            var m :| 0 <= m < |t| && t[m] == r[j];
            assert s[m + 1] == r[j];
          } else {
            assert r[i] == r[1..][i - 1];
          }
        }
      } else {
        SubsequencePairs(r, t, P);
      }
    }
  }

  /** Index of the first element satisfying `p` (JavaScript's `Array.prototype.find`,
      Django's `.filter(...).first()`), or `None` when no element does. */
  function FirstIndex<T>(s: seq<T>, p: T -> bool): (r: Option<nat>)
    ensures r.Some? ==> r.value < |s| && p(s[r.value])
    ensures r.Some? ==> forall j :: 0 <= j < r.value ==> !p(s[j])
    ensures r.None? <==> forall j :: 0 <= j < |s| ==> !p(s[j])
    decreases |s|
  {
    if s == [] then None
    else if p(s[0]) then Some(0)
    else
      match FirstIndex(s[1..], p)
      case None => None
      case Some(i) => Some(i + 1)
  }

  /** `le` is a total preorder: what a consistent JavaScript comparator
      (`cmp(a, b) <= 0`) or an SQL `ORDER BY` key describes. */
  ghost predicate TotalPreorder<T(!new)>(le: (T, T) -> bool) {
    && (forall a, b :: le(a, b) || le(b, a))
    && (forall a, b, c :: le(a, b) && le(b, c) ==> le(a, c))
  }

  ghost predicate Sorted<T>(s: seq<T>, le: (T, T) -> bool) {
    forall i, j :: 0 <= i < j < |s| ==> le(s[i], s[j])
  }

  /** Places `x` in front of the first element it is `le`; elements strictly
      below `x` stay in front of it. */
  function Insert<T>(x: T, s: seq<T>, le: (T, T) -> bool): (r: seq<T>)
    ensures multiset(r) == multiset(s) + multiset{x}
    ensures |r| == |s| + 1
    decreases |s|
  {
    if s == [] then [x]
    else if le(x, s[0]) then [x] + s
    else
      assert s == [s[0]] + s[1..];
      [s[0]] + Insert(x, s[1..], le)
  }

  /** Stable insertion sort: JavaScript's `Array.prototype.sort` with a consistent
      comparator is stable, and so is this. */
  function Sort<T>(s: seq<T>, le: (T, T) -> bool): (r: seq<T>)
    ensures multiset(r) == multiset(s)
    ensures |r| == |s|
    decreases |s|
  {
    if s == [] then []
    else
      assert s == [s[0]] + s[1..];
      Insert(s[0], Sort(s[1..], le), le)
  }

  lemma {:induction false} InsertSorted<T(!new)>(x: T, s: seq<T>, le: (T, T) -> bool)
    requires TotalPreorder(le)
    requires Sorted(s, le)
    ensures Sorted(Insert(x, s, le), le)
    decreases |s|
  {
    if s == [] {
    } else if le(x, s[0]) {
      ConsSorted(x, s, le);
    } else {
      var tail := s[1..];
      assert Sorted(tail, le) by {
        forall i, j | 0 <= i < j < |tail| ensures le(tail[i], tail[j]) {
          assert tail[i] == s[i + 1] && tail[j] == s[j + 1];
        }
      }
      InsertSorted(x, tail, le);
      var t := Insert(x, tail, le);
      forall k | 0 <= k < |t| ensures le(s[0], t[k]) {
        assert t[k] in multiset(t);
        if t[k] != x {
          assert t[k] in multiset(tail);
          var j :| 0 <= j < |tail| && tail[j] == t[k];
          assert s[j + 1] == t[k];
        }
      }
      ConsBelowSorted(s[0], t, le);
    }
  }

  /** An element below the head of a sorted sequence can be put in front of it. */
  lemma ConsSorted<T(!new)>(x: T, s: seq<T>, le: (T, T) -> bool)
    requires TotalPreorder(le)
    requires Sorted(s, le) && s != [] && le(x, s[0])
    ensures Sorted([x] + s, le)
  {
    var r := [x] + s;
    forall i, j | 0 <= i < j < |r| ensures le(r[i], r[j]) {
      if i == 0 {
        assert r[j] == s[j - 1];
        if j > 1 { assert le(s[0], s[j - 1]); }
      } else {
        assert r[i] == s[i - 1] && r[j] == s[j - 1];
      }
    }
  }

  /** An element below every element of a sorted sequence can be put in front of it. */
  lemma ConsBelowSorted<T>(x: T, t: seq<T>, le: (T, T) -> bool)
    requires Sorted(t, le)
    requires forall k :: 0 <= k < |t| ==> le(x, t[k])
    ensures Sorted([x] + t, le)
  {
    var r := [x] + t;
    forall i, j | 0 <= i < j < |r| ensures le(r[i], r[j]) {
      if i == 0 {
        assert r[j] == t[j - 1];
      } else {
        assert r[i] == t[i - 1] && r[j] == t[j - 1];
      }
    }
  }

  /** The sort's result is ordered by `le`. */
  lemma {:induction false} SortSorted<T(!new)>(s: seq<T>, le: (T, T) -> bool)
    requires TotalPreorder(le)
    ensures Sorted(Sort(s, le), le)
    decreases |s|
  {
    if s != [] {
      SortSorted(s[1..], le);
      InsertSorted(s[0], Sort(s[1..], le), le);
    }
  }

  /** A comparator that calls every pair equal (`return 0`) leaves the order unchanged. */
  lemma {:induction false} SortUnderTrivialOrder<T>(s: seq<T>, le: (T, T) -> bool)
    requires forall a, b :: le(a, b)
    ensures Sort(s, le) == s
    decreases |s|
  {
    if s != [] {
      SortUnderTrivialOrder(s[1..], le);
      assert s == [s[0]] + s[1..];
    }
  }

  /** The elements of `s` that `le` cannot tell apart from `x`, in order. */
  function ClassOf<T(!new)>(s: seq<T>, le: (T, T) -> bool, x: T): seq<T> {
    Filter(s, y => le(x, y) && le(y, x))
  }

  lemma {:induction false} ClassOfCons<T(!new)>(a: T, t: seq<T>, le: (T, T) -> bool, x: T)
    ensures ClassOf([a] + t, le, x) == if le(x, a) && le(a, x) then [a] + ClassOf(t, le, x) else ClassOf(t, le, x)
  {
    assert ([a] + t)[0] == a;
    assert ([a] + t)[1..] == t;
  }

  lemma ClassOfHead<T(!new)>(s: seq<T>, le: (T, T) -> bool, x: T)
    requires s != []
    ensures ClassOf(s, le, x) == if le(x, s[0]) && le(s[0], x) then [s[0]] + ClassOf(s[1..], le, x) else ClassOf(s[1..], le, x)
  {
  }

  lemma {:induction false} ClassOfInsert<T(!new)>(a: T, t: seq<T>, le: (T, T) -> bool, x: T)
    requires TotalPreorder(le)
    ensures ClassOf(Insert(a, t, le), le, x)
         == if le(x, a) && le(a, x) then [a] + ClassOf(t, le, x) else ClassOf(t, le, x)
    decreases |t|
  {
    if t == [] {
      ClassOfCons(a, t, le, x);
    } else if le(a, t[0]) {
      ClassOfCons(a, t, le, x);
    } else {
      ClassOfInsert(a, t[1..], le, x);
      ClassOfCons(t[0], Insert(a, t[1..], le), le, x);
      ClassOfHead(t, le, x);
      if le(x, a) && le(a, x) {
        // t[0] lies strictly below a, so it cannot be equivalent to x
        var t0 := t[0];
        assert !le(x, t0);
        ClassOfCons(a, ClassOf(t[1..], le, x), le, x);
      }
    }
  }

  /** Stability: among elements the order cannot tell apart, the sort keeps the input order. */
  lemma {:induction false} SortStable<T(!new)>(s: seq<T>, le: (T, T) -> bool, x: T)
    requires TotalPreorder(le)
    ensures ClassOf(Sort(s, le), le, x) == ClassOf(s, le, x)
    decreases |s|
  {
    if s != [] {
      SortStable(s[1..], le, x);
      ClassOfInsert(s[0], Sort(s[1..], le), le, x);
      ClassOfHead(s, le, x);
    }
  }

  /** A sequence in which no value occurs twice has no repeated positions. */
  lemma CountOneDistinct<T>(s: seq<T>)
    requires forall x :: multiset(s)[x] <= 1
    ensures forall i, j :: 0 <= i < j < |s| ==> s[i] != s[j]
  {
    forall i, j | 0 <= i < j < |s| ensures s[i] != s[j] {
      var x, y := s[j], s[i];
      assert s == s[..j] + s[j..];
      assert s[..j][i] == y && s[j..][0] == x;
      assert multiset(s[..j])[y] >= 1 && multiset(s[j..])[x] >= 1;
      assert multiset(s)[x] == multiset(s[..j])[x] + multiset(s[j..])[x];
    }
  }
}
