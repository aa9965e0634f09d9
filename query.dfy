/**
 * The SQL building blocks the article queries are made of, on sequences of
 * rows: `WHERE` (a filter that keeps the order), `ORDER BY ... DESC` (a sort
 * on an integer key) and `LIMIT ... OFFSET ...` (a window).
 */
module Query {
  import opened Php

  /** The rows of `s` that satisfy `p`, in their order. */
  function Filter<T(!new)>(s: seq<T>, p: T -> bool): (r: seq<T>)
    ensures forall x :: x in r <==> x in s && p(x)
    ensures multiset(r) <= multiset(s)
  {
    if s == [] then []
    else
      var rest := Filter(s[1..], p);
      assert s == [s[0]] + s[1..];
      if p(s[0]) then [s[0]] + rest else rest
  }

  /** No row occurs twice. */
  predicate Distinct<T(==)>(s: seq<T>) {
    forall i, j :: 0 <= i < j < |s| ==> s[i] != s[j]
  }

  lemma {:induction false} FilterKeepsDistinct<T(!new)>(s: seq<T>, p: T -> bool)
    requires Distinct(s)
    ensures Distinct(Filter(s, p))
    decreases |s|
  {
    if s != [] {
      FilterKeepsDistinct(s[1..], p);
      var rest := Filter(s[1..], p);
      if p(s[0]) {
        assert s[0] !in s[1..];
        assert s[0] !in rest;
        var r := [s[0]] + rest;
        forall i, j | 0 <= i < j < |r|
          ensures r[i] != r[j]
        {
          if i == 0 {
            assert r[j] in rest;
          } else {
            assert r[i] == rest[i - 1] && r[j] == rest[j - 1];
          }
        }
      }
    }
  }

  /** A sequence without repetitions is as long as the set of its elements is large. */
  lemma {:induction false} DistinctCardinality<T>(s: seq<T>)
    requires Distinct(s)
    ensures |set x | x in s| == |s|
    decreases |s|
  {
    if s != [] {
      var rest := s[1..];
      assert Distinct(rest) by {
        forall i, j | 0 <= i < j < |rest|
          ensures rest[i] != rest[j]
        {
          assert rest[i] == s[i + 1] && rest[j] == s[j + 1];
        }
      }
      DistinctCardinality(rest);
      assert s[0] !in rest;
      assert (set x | x in s) == (set x | x in rest) + {s[0]};
    }
  }

  /** `s` is ordered by `key`, largest first. */
  predicate SortedDesc<T>(s: seq<T>, key: T -> int) {
    forall i, j :: 0 <= i < j < |s| ==> key(s[i]) >= key(s[j])
  }

  /** Put `x` in front of the first row whose key is not larger than its own. */
  function Insert<T(!new)>(x: T, s: seq<T>, key: T -> int): (r: seq<T>)
    requires SortedDesc(s, key)
    ensures multiset(r) == multiset(s) + multiset{x}
    ensures SortedDesc(r, key)
    ensures |r| == |s| + 1
  {
    if s == [] || key(s[0]) <= key(x) then
      ConsSorted(x, s, key);
      [x] + s
    else
      var rest := Insert(x, s[1..], key);
      assert s == [s[0]] + s[1..];
      BoundedByHead(s, key);
      BoundedAfterAdding(rest, s[1..], x, key, key(s[0]));
      assert rest[0] in rest;
      ConsSorted(s[0], rest, key);
      [s[0]] + rest
  }

  /** A row whose key is at least that of the head of a sorted sequence can go in front of it. */
  lemma ConsSorted<T>(h: T, t: seq<T>, key: T -> int)
    requires SortedDesc(t, key)
    requires t == [] || key(t[0]) <= key(h)
    ensures SortedDesc([h] + t, key)
  {
    var r := [h] + t;
    forall i, j | 0 <= i < j < |r|
      ensures key(r[i]) >= key(r[j])
    {
      assert r[j] == t[j - 1];
      if i > 0 {
        assert r[i] == t[i - 1];
      } else {
        assert key(t[0]) >= key(t[j - 1]);
      }
    }
  }

  /** In a sorted sequence no key after the first is larger than the first. */
  lemma BoundedByHead<T>(s: seq<T>, key: T -> int)
    requires s != [] && SortedDesc(s, key)
    ensures forall y :: y in s[1..] ==> key(y) <= key(s[0])
  {
    forall y | y in s[1..]
      ensures key(y) <= key(s[0])
    {
      var k :| 0 <= k < |s[1..]| && s[1..][k] == y;
      assert s[k + 1] == y;
    }
  }

  /** A bound on the keys of `t` and on `key(x)` bounds every key of a permutation of `t` plus `x`. */
  lemma BoundedAfterAdding<T>(r: seq<T>, t: seq<T>, x: T, key: T -> int, b: int)
    requires multiset(r) == multiset(t) + multiset{x}
    requires forall y :: y in t ==> key(y) <= b
    requires key(x) <= b
    ensures forall y :: y in r ==> key(y) <= b
  {
    forall y | y in r
      ensures key(y) <= b
    {
      assert y in multiset(r);
      assert y == x || y in multiset(t);
    }
  }

  /** `ORDER BY key DESC`: a permutation of `s` with the largest keys first; rows with equal keys keep their order. */
  function SortDesc<T(!new)>(s: seq<T>, key: T -> int): (r: seq<T>)
    ensures multiset(r) == multiset(s)
    ensures SortedDesc(r, key)
  {
    if s == [] then []
    else
      assert s == [s[0]] + s[1..];
      Insert(s[0], SortDesc(s[1..], key), key)
  }

  /** A permutation of a sequence without repetitions has none either. */
  lemma PermutationKeepsDistinct<T>(s: seq<T>, r: seq<T>)
    requires Distinct(s) && multiset(r) == multiset(s)
    ensures Distinct(r)
  {
    forall i, j | 0 <= i < j < |r|
      ensures r[i] != r[j]
    {
      if r[i] == r[j] {
        var x := r[i];
        assert multiset(r)[x] >= 2 by {
          var a, b := r[..i], r[i + 1..];
          assert r == a + [x] + b;
          assert x in b by { assert b[j - i - 1] == r[j]; }
        }
        DistinctOccursOnce(s, x);
      }
    }
  }

  lemma {:induction false} DistinctOccursOnce<T>(s: seq<T>, x: T)
    requires Distinct(s)
    ensures multiset(s)[x] <= 1
    decreases |s|
  {
    if s != [] {
      assert s == [s[0]] + s[1..];
      assert Distinct(s[1..]) by {
        forall i, j | 0 <= i < j < |s[1..]|
          ensures s[1..][i] != s[1..][j]
        {
          assert s[1..][i] == s[i + 1] && s[1..][j] == s[j + 1];
        }
      }
      DistinctOccursOnce(s[1..], x);
      if s[0] == x {
        assert x !in s[1..];
      }
    }
  }

  /** `LIMIT limit OFFSET offset`: at most `limit` rows, starting at row `offset`. */
  function Window<T>(s: seq<T>, offset: int, limit: int): (r: seq<T>)
    requires offset >= 0 && limit >= 0
    ensures |r| == Max(0, Min(limit, |s| - offset))
    ensures forall k :: 0 <= k < |r| ==> r[k] == s[offset + k]
  {
    if offset >= |s| then [] else s[offset..Min(|s|, offset + limit)]
  }

  /** `Window(s, (page-1)*perPage, perPage)`: the rows of page `page`, counted from 1. */
  function Page<T>(s: seq<T>, page: int, perPage: int): (r: seq<T>)
    requires page >= 1 && perPage >= 0
    ensures |r| <= perPage
    ensures |r| == Max(0, Min(perPage, |s| - (page - 1) * perPage))
    ensures forall k :: 0 <= k < |r| ==> (page - 1) * perPage + k < |s| && r[k] == s[(page - 1) * perPage + k]
  {
    assert (page - 1) * perPage >= 0;
    Window(s, (page - 1) * perPage, perPage)
  }

  /** Page `page` starts at row `(page - 1) * perPage`, never before the first row. */
  lemma PageOffset(page: int, perPage: int)
    requires page >= 1 && perPage >= 0
    ensures (page - 1) * perPage >= 0
  {
  }

  /** A page holds rows of the listing only. */
  lemma PageMembers<T>(s: seq<T>, page: int, perPage: int)
    requires page >= 1 && perPage >= 0
    ensures forall x :: x in Page(s, page, perPage) ==> x in s
  {
    var r := Page(s, page, perPage);
    forall x | x in r
      ensures x in s
    {
      var k :| 0 <= k < |r| && r[k] == x;
      assert s[(page - 1) * perPage + k] == x;
    }
  }

  /** A page of a sorted listing is sorted. */
  lemma PageKeepsOrder<T>(s: seq<T>, page: int, perPage: int, key: T -> int)
    requires page >= 1 && perPage >= 0 && SortedDesc(s, key)
    ensures SortedDesc(Page(s, page, perPage), key)
  {
    var r := Page(s, page, perPage);
    forall i, j | 0 <= i < j < |r|
      ensures key(r[i]) >= key(r[j])
    {
      assert r[i] == s[(page - 1) * perPage + i] && r[j] == s[(page - 1) * perPage + j];
    }
  }

  /** Every row of a listing is on one of its pages: row `i` is on page `i / perPage + 1`. */
  lemma EveryRowIsOnAPage<T>(s: seq<T>, perPage: int, i: int) returns (page: int)
    requires perPage > 0 && 0 <= i < |s|
    ensures page >= 1 && s[i] in Page(s, page, perPage)
  {
    page := i / perPage + 1;
    assert (page - 1) * perPage + i % perPage == i;
    var w := Page(s, page, perPage);
    assert w[i % perPage] == s[i];
  }
}
