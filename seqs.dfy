/** Sequence operations that stand for the query builder's `where(...)->first()`,
    `where`, `orderBy(..., 'desc')` and `paginate`, and for JavaScript's
    `Array.prototype.filter`. */
module Seqs {
  import opened Common

  /** The position of the first element satisfying `p`: the row that
      `where(...)->first()` returns when rows are read in id order. */
  function FirstIndex<T>(s: seq<T>, p: T -> bool): (r: Option<nat>)
    ensures r.Some? ==> r.value < |s| && p(s[r.value])
    ensures r.Some? ==> forall j :: 0 <= j < r.value ==> !p(s[j])
    ensures r.None? ==> forall j :: 0 <= j < |s| ==> !p(s[j])
    decreases |s|
  {
    if s == [] then None
    else if p(s[0]) then Some(0)
    else
      match FirstIndex(s[1..], p)
      case None => None
      case Some(k) => Some(k + 1)
  }

  /** The position of the last element satisfying `p`. */
  function LastIndex<T>(s: seq<T>, p: T -> bool): (r: Option<nat>)
    ensures r.Some? ==> r.value < |s| && p(s[r.value])
    ensures r.Some? ==> forall j :: r.value < j < |s| ==> !p(s[j])
    ensures r.None? ==> forall j :: 0 <= j < |s| ==> !p(s[j])
    decreases |s|
  {
    if s == [] then None
    else if p(s[|s| - 1]) then Some(|s| - 1)
    else LastIndex(s[..|s| - 1], p)
  }

  /** `FirstIndex` depends only on which positions satisfy `p`. */
  lemma FirstIndexPointwise<T>(s: seq<T>, t: seq<T>, p: T -> bool)
    requires |s| == |t|
    requires forall j :: 0 <= j < |s| ==> p(s[j]) == p(t[j])
    ensures FirstIndex(s, p) == FirstIndex(t, p)
  {
  }

  /** `xs` is `ys` with some elements dropped, the rest kept in order. */
  predicate IsSubsequence<T(==)>(xs: seq<T>, ys: seq<T>)
    decreases |ys|
  {
    if xs == [] then true
    else if ys == [] then false
    else
      IsSubsequence(xs, ys[..|ys| - 1])
      || (xs[|xs| - 1] == ys[|ys| - 1] && IsSubsequence(xs[..|xs| - 1], ys[..|ys| - 1]))
  }

  /** A subsequence is never longer than the sequence and draws its elements from it. */
  lemma {:induction false} SubsequenceBounds<T>(xs: seq<T>, ys: seq<T>)
    requires IsSubsequence(xs, ys)
    ensures |xs| <= |ys|
    ensures forall x :: x in xs ==> x in ys
    decreases |ys|
  {
    if xs == [] {
    } else if IsSubsequence(xs, ys[..|ys| - 1]) {
      SubsequenceBounds(xs, ys[..|ys| - 1]);
      assert forall x :: x in ys[..|ys| - 1] ==> x in ys;
    } else {
      SubsequenceBounds(xs[..|xs| - 1], ys[..|ys| - 1]);
      assert xs == xs[..|xs| - 1] + [xs[|xs| - 1]];
      assert forall x :: x in ys[..|ys| - 1] ==> x in ys;
    }
  }

  /** Every sequence is a subsequence of itself. */
  lemma {:induction false} SubsequenceReflexive<T>(xs: seq<T>)
    ensures IsSubsequence(xs, xs)
    decreases |xs|
  {
    if xs != [] {
      SubsequenceReflexive(xs[..|xs| - 1]);
    }
  }

  /** Dropping from a subsequence keeps it a subsequence: the relation is transitive. */
  lemma {:induction false} SubsequenceTransitive<T>(xs: seq<T>, ys: seq<T>, zs: seq<T>)
    requires IsSubsequence(xs, ys) && IsSubsequence(ys, zs)
    ensures IsSubsequence(xs, zs)
    decreases |zs|
  {
    if xs == [] {
    } else if ys == [] {
    } else if zs == [] {
    } else if IsSubsequence(ys, zs[..|zs| - 1]) {
      SubsequenceTransitive(xs, ys, zs[..|zs| - 1]);
    } else {
      var ys', zs' := ys[..|ys| - 1], zs[..|zs| - 1];
      if IsSubsequence(xs, ys') {
        SubsequenceTransitive(xs, ys', zs');
      } else {
        SubsequenceTransitive(xs[..|xs| - 1], ys', zs');
      }
    }
  }

  /** `s.filter(p)`, written from the back so that it follows `IsSubsequence`. */
  function Filter<T>(s: seq<T>, p: T -> bool): (r: seq<T>)
    ensures |r| <= |s|
    ensures forall x :: x in r ==> x in s && p(x)
    ensures forall i :: 0 <= i < |s| && p(s[i]) ==> s[i] in r
    decreases |s|
  {
    if s == [] then []
    else
      var init := Filter(s[..|s| - 1], p);
      assert forall x :: x in s[..|s| - 1] ==> x in s;
      assert forall i :: 0 <= i < |s| - 1 ==> s[i] == s[..|s| - 1][i];
      if p(s[|s| - 1]) then init + [s[|s| - 1]] else init
  }

  /** The filter keeps, in order, exactly the elements satisfying `p`, each as
      often as it occurs in the input. */
  lemma {:induction false} FilterExact<T>(s: seq<T>, p: T -> bool)
    ensures IsSubsequence(Filter(s, p), s)
    ensures forall x :: multiset(Filter(s, p))[x] == if p(x) then multiset(s)[x] else 0
    decreases |s|
  {
    if s != [] {
      var init, last := s[..|s| - 1], s[|s| - 1];
      FilterExact(init, p);
      assert s == init + [last];
      var r := Filter(s, p);
      if p(last) {
        assert r[..|r| - 1] == Filter(init, p);
      } else {
        var xs := Filter(init, p);
        if xs != [] {
          SubsequenceWeaken(xs, init, last);
        }
      }
    }
  }

  /** A subsequence stays one when the larger sequence grows at the back. */
  lemma SubsequenceWeaken<T>(xs: seq<T>, ys: seq<T>, y: T)
    requires IsSubsequence(xs, ys)
    ensures IsSubsequence(xs, ys + [y])
  {
    assert (ys + [y])[..|ys + [y]| - 1] == ys;
  }

  /** Elements are in non-increasing order of `key`. */
  predicate SortedDesc<T>(s: seq<T>, key: T -> int) {
    forall i, j :: 0 <= i < j < |s| ==> key(s[i]) >= key(s[j])
  }

  /** The head of a sorted sequence may stay in front of a sorted sequence
      made of its tail and an element with a smaller key. */
  lemma HeadThenSorted<T>(s: seq<T>, rest: seq<T>, x: T, key: T -> int)
    requires s != [] && SortedDesc(s, key) && SortedDesc(rest, key)
    requires key(x) < key(s[0])
    requires forall y :: y in rest ==> y == x || y in s[1..]
    ensures SortedDesc([s[0]] + rest, key)
  {
    forall j | 0 <= j < |rest|
      ensures key(s[0]) >= key(rest[j])
    {
      assert rest[j] in rest;
      if rest[j] != x {
        var k :| 0 <= k < |s[1..]| && s[1..][k] == rest[j];
        assert s[k + 1] == rest[j];
      }
    }
  }

  /** Insert `x` in front of the first element whose key is not larger. */
  function Insert<T(==)>(x: T, s: seq<T>, key: T -> int): (r: seq<T>)
    requires SortedDesc(s, key)
    ensures |r| == |s| + 1
    ensures forall y :: y in r ==> y == x || y in s
    ensures SortedDesc(r, key)
    ensures multiset(r) == multiset(s) + multiset{x}
    decreases |s|
  {
    if s == [] then [x]
    else if key(x) >= key(s[0]) then [x] + s
    else
      var rest := Insert(x, s[1..], key);
      assert s == [s[0]] + s[1..];
      HeadThenSorted(s, rest, x, key);
      [s[0]] + rest
  }

  /** `orderBy(key, 'desc')`: a permutation of the input in non-increasing key order. */
  function SortDesc<T(==)>(s: seq<T>, key: T -> int): (r: seq<T>)
    ensures SortedDesc(r, key)
    ensures multiset(r) == multiset(s)
    ensures |r| == |s|
    decreases |s|
  {
    if s == [] then []
    else
      assert s == [s[0]] + s[1..];
      Insert(s[0], SortDesc(s[1..], key), key)
  }

  /** The number of rows before page `page` (counted from 1). */
  function Offset(perPage: nat, page: nat): nat
    requires page >= 1
  {
    (page - 1) * perPage
  }

  /** Later pages start at least a full page further on. */
  lemma OffsetMonotone(perPage: nat, p1: nat, p2: nat)
    requires 1 <= p1 < p2
    ensures Offset(perPage, p1) + perPage <= Offset(perPage, p2)
  {
    assert (p2 - 1) * perPage == (p1 - 1) * perPage + (p2 - p1) * perPage;
    MulAtLeast(p2 - p1, perPage);
  }

  /** A positive multiple of `n` is at least `n`. */
  lemma {:induction false} MulAtLeast(d: nat, n: nat)
    requires d >= 1
    ensures d * n >= n
  {
    if d > 1 {
      MulAtLeast(d - 1, n);
      assert d * n == (d - 1) * n + n;
    }
  }

  /** Position `t` falls on page `t / perPage + 1`. */
  lemma OffsetCovers(perPage: nat, t: nat)
    requires perPage >= 1
    ensures Offset(perPage, t / perPage + 1) <= t < Offset(perPage, t / perPage + 1) + perPage
  {
    assert t == (t / perPage) * perPage + t % perPage;
  }

  /** Page `page` (counted from 1) of `perPage` rows: what `paginate` returns as `data`. */
  function PageOf<T>(s: seq<T>, perPage: nat, page: nat): (r: seq<T>)
    requires perPage >= 1 && page >= 1
    ensures |r| <= perPage
    ensures forall x :: x in r ==> x in s
    ensures forall i :: 0 <= i < |r| ==> Offset(perPage, page) + i < |s| && r[i] == s[Offset(perPage, page) + i]
    ensures Offset(perPage, page) + perPage <= |s| ==> |r| == perPage
    ensures Offset(perPage, page) < |s| < Offset(perPage, page) + perPage ==> |r| == |s| - Offset(perPage, page)
    ensures Offset(perPage, page) >= |s| ==> r == []
  {
    var lo := Offset(perPage, page);
    if lo >= |s| then []
    else if lo + perPage <= |s| then s[lo..lo + perPage]
    else s[lo..]
  }

  /** A page of a sorted sequence is sorted. */
  lemma PageOfSortedDesc<T>(s: seq<T>, key: T -> int, perPage: nat, page: nat)
    requires perPage >= 1 && page >= 1
    requires SortedDesc(s, key)
    ensures SortedDesc(PageOf(s, perPage, page), key)
  {
    var r, lo := PageOf(s, perPage, page), Offset(perPage, page);
    forall i, j | 0 <= i < j < |r| ensures key(r[i]) >= key(r[j]) {
      assert r[i] == s[lo + i] && r[j] == s[lo + j];
    }
  }

  /** Paging loses nothing: position `t` is on page `t / perPage + 1`. */
  lemma PageOfCovers<T>(s: seq<T>, perPage: nat, t: nat) returns (page: nat)
    requires perPage >= 1 && t < |s|
    ensures page >= 1 && s[t] in PageOf(s, perPage, page)
  {
    var p := t / perPage + 1;
    page := p;
    OffsetCovers(perPage, t);
    var lo, r := Offset(perPage, p), PageOf(s, perPage, p);
    assert t - lo < |r| by {
      if lo + perPage <= |s| {
        assert |r| == perPage;
      } else {
        assert |r| == |s| - lo;
      }
    }
    assert r[t - lo] == s[t];
  }

  /** Pages of a sorted sequence are ordered: every element of an earlier
      page has a key no smaller than every element of a later page. */
  lemma PagesOrdered<T>(s: seq<T>, key: T -> int, perPage: nat, p1: nat, p2: nat)
    requires perPage >= 1 && 1 <= p1 < p2
    requires SortedDesc(s, key)
    ensures forall x, y :: x in PageOf(s, perPage, p1) && y in PageOf(s, perPage, p2) ==> key(x) >= key(y)
  {
    var r1, r2 := PageOf(s, perPage, p1), PageOf(s, perPage, p2);
    OffsetMonotone(perPage, p1, p2);
    forall x, y | x in r1 && y in r2 ensures key(x) >= key(y) {
      var i :| 0 <= i < |r1| && r1[i] == x;
      var j :| 0 <= j < |r2| && r2[j] == y;
      assert r1[i] == s[Offset(perPage, p1) + i] && r2[j] == s[Offset(perPage, p2) + j];
    }
  }
}
