/**
 * The shape every repository list query shares: `filter(...)`,
 * `order_by(... desc)`, `offset(skip)`, `limit(limit)`, over the table's
 * rows in scan order.
 *
 * SQL leaves the order of rows with equal sort keys unspecified; the
 * model's sort happens to keep scan order among them, and the contracts
 * promise only what the query promises: sorted, and the same rows.
 */
module Listing {
  import Base

  /** Sort keys compared lexicographically: `a` comes no later than `b` in descending order. */
  predicate AtLeast(a: (int, int), b: (int, int))
  {
    a.0 > b.0 || (a.0 == b.0 && a.1 >= b.1)
  }

  predicate SortedDesc<T>(s: seq<T>, key: T -> (int, int))
  {
    forall i, j :: 0 <= i < j < |s| ==> AtLeast(key(s[i]), key(s[j]))
  }

  /** `[x for x in s if p(x)]`, keeping scan order. */
  function Filter<T(!new)>(s: seq<T>, p: T -> bool): (r: seq<T>)
    ensures |r| <= |s|
    ensures forall x :: x in r <==> x in s && p(x)
  {
    if s == [] then []
    else
      assert forall x :: x in s <==> x == s[0] || x in s[1..];
      var rest := Filter(s[1..], p);
      if p(s[0]) then [s[0]] + rest else rest
  }

  /** The filtered list holds each matching element exactly as often as the input, and no other. */
  lemma {:induction false} FilterMultiset<T(!new)>(s: seq<T>, p: T -> bool)
    ensures forall x :: multiset(Filter(s, p))[x] == if p(x) then multiset(s)[x] else 0
  {
    if s != [] {
      FilterMultiset(s[1..], p);
      assert s == [s[0]] + s[1..];
    }
  }

  /** Inserts `x` in front of the first element it is not below. */
  function Insert<T>(x: T, s: seq<T>, key: T -> (int, int)): (r: seq<T>)
    requires SortedDesc(s, key)
    ensures SortedDesc(r, key)
    ensures multiset(r) == multiset(s) + multiset{x}
    ensures forall i :: 0 <= i < |r| ==> r[i] == x || r[i] in s
  {
    if s == [] || AtLeast(key(x), key(s[0])) then
      [x] + s
    else
      var rest := Insert(x, s[1..], key);
      assert s == [s[0]] + s[1..];
      HeadBounds(x, s, rest, key);
      ConsSorted(s[0], rest, key);
      [s[0]] + rest
  }

  /** The head of a sorted list, when `x` does not go before it, is at least every element of `x` inserted in the tail. */
  lemma HeadBounds<T>(x: T, s: seq<T>, rest: seq<T>, key: T -> (int, int))
    requires s != [] && SortedDesc(s, key) && !AtLeast(key(x), key(s[0]))
    requires forall i :: 0 <= i < |rest| ==> rest[i] == x || rest[i] in s[1..]
    ensures forall i :: 0 <= i < |rest| ==> AtLeast(key(s[0]), key(rest[i]))
  {
    forall i | 0 <= i < |rest|
      ensures AtLeast(key(s[0]), key(rest[i]))
    {
      if rest[i] != x {
        var j :| 0 <= j < |s[1..]| && s[1..][j] == rest[i];
        assert s[j + 1] == rest[i];
      }
    }
  }

  /** A sorted list with a head at least every element of it is sorted. */
  lemma ConsSorted<T>(h: T, rest: seq<T>, key: T -> (int, int))
    requires SortedDesc(rest, key)
    requires forall i :: 0 <= i < |rest| ==> AtLeast(key(h), key(rest[i]))
    ensures SortedDesc([h] + rest, key)
  {
    var r := [h] + rest;
    forall i, j | 0 <= i < j < |r|
      ensures AtLeast(key(r[i]), key(r[j]))
    {
      assert r[j] == rest[j - 1];
      if i > 0 { assert r[i] == rest[i - 1]; }
    }
  }

  /** `order_by(key desc)`: the rows rearranged so that keys never increase. */
  function SortDesc<T>(s: seq<T>, key: T -> (int, int)): (r: seq<T>)
    ensures SortedDesc(r, key)
    ensures multiset(r) == multiset(s)
  {
    if s == [] then []
    else
      assert s == [s[0]] + s[1..];
      Insert(s[0], SortDesc(s[1..], key), key)
  }

  function Min(a: int, b: int): int
  {
    if a <= b then a else b
  }

  /** `.offset(skip).limit(limit)`. */
  function Page<T>(s: seq<T>, skip: nat, limit: nat): (r: seq<T>)
    ensures |r| == if skip >= |s| then 0 else Min(limit, |s| - skip)
    ensures forall i :: 0 <= i < |r| ==> r[i] == s[skip + i]
  {
    if skip >= |s| then [] else s[skip..Min(skip + limit, |s|)]
  }

  /** A whole filtered, ordered and paged list query. */
  function Query<T(!new)>(s: seq<T>, p: T -> bool, key: T -> (int, int), skip: nat, limit: nat): seq<T>
  {
    Page(SortDesc(Filter(s, p), key), skip, limit)
  }

  /**
   * A query lists only matching rows of the table, in descending key
   * order; the first page large enough holds every matching row exactly as
   * often as the table does.
   */
  lemma QueryContents<T(!new)>(s: seq<T>, p: T -> bool, key: T -> (int, int), skip: nat, limit: nat)
    ensures var r := Query(s, p, key, skip, limit);
            SortedDesc(r, key) && |r| <= limit
            && forall x :: x in r ==> x in s && p(x)
    ensures skip == 0 && |s| <= limit ==>
              forall x :: multiset(Query(s, p, key, skip, limit))[x] == if p(x) then multiset(s)[x] else 0
  {
    var f := Filter(s, p);
    FilterMultiset(s, p);
    var sorted := SortDesc(f, key);
    var r := Page(sorted, skip, limit);
    forall x | x in r
      ensures x in s && p(x)
    {
      var i :| 0 <= i < |r| && r[i] == x;
      assert sorted[skip + i] == x;
      assert x in multiset(sorted);
    }
    if skip == 0 && |s| <= limit {
      assert r == sorted;
    }
  }

  /** A first page large enough lists every matching row. */
  lemma QueryComplete<T(!new)>(s: seq<T>, p: T -> bool, key: T -> (int, int), limit: nat)
    requires |s| <= limit
    ensures forall x :: x in s && p(x) ==> x in Query(s, p, key, 0, limit)
  {
    QueryContents(s, p, key, 0, limit);
    forall x | x in s && p(x)
      ensures x in Query(s, p, key, 0, limit)
    {
      assert multiset(s)[x] > 0;
    }
  }

  /** `sum(1 for x in s if p(x))`. */
  function Count<T>(s: seq<T>, p: T -> bool): (n: nat)
    ensures n <= |s|
  {
    if s == [] then 0 else Count(s[..|s| - 1], p) + (if p(s[|s| - 1]) then 1 else 0)
  }

  /** The count is the length exactly when every element satisfies `p`, and 0 exactly when none does. */
  lemma {:induction false} CountAllOrNone<T>(s: seq<T>, p: T -> bool)
    ensures Count(s, p) == |s| <==> forall i :: 0 <= i < |s| ==> p(s[i])
    ensures Count(s, p) == 0 <==> forall i :: 0 <= i < |s| ==> !p(s[i])
  {
    if s != [] {
      var init := s[..|s| - 1];
      assert forall i :: 0 <= i < |init| ==> init[i] == s[i];
      CountAllOrNone(init, p);
    }
  }

  /** Counting over a concatenation adds the counts of the parts. */
  lemma {:induction false} CountAppend<T>(a: seq<T>, b: seq<T>, p: T -> bool)
    ensures Count(a + b, p) == Count(a, p) + Count(b, p)
    decreases |b|
  {
    if b == [] {
      assert a + b == a;
    } else {
      var init := b[..|b| - 1];
      CountAppend(a, init, p);
      assert (a + b)[..|a + b| - 1] == a + init;
    }
  }

  /** `[f(x) for x in s]`. */
  function Map<A, B>(s: seq<A>, f: A --> B): (r: seq<B>)
    requires forall i :: 0 <= i < |s| ==> f.requires(s[i])
    ensures |r| == |s| && forall i :: 0 <= i < |s| ==> r[i] == f(s[i])
  {
    seq(|s|, i requires 0 <= i < |s| => f(s[i]))
  }

  /** Mapping a sequence extended by one element. */
  lemma MapSnoc<A, B>(s: seq<A>, x: A, f: A --> B)
    requires forall i :: 0 <= i < |s| ==> f.requires(s[i])
    requires f.requires(x)
    ensures Map(s + [x], f) == Map(s, f) + [f(x)]
  {
    assert forall i :: 0 <= i < |s| ==> (s + [x])[i] == s[i];
  }

  /** Filtering distributes over concatenation. */
  lemma {:induction false} FilterAppend<T(!new)>(a: seq<T>, b: seq<T>, p: T -> bool)
    ensures Filter(a + b, p) == Filter(a, p) + Filter(b, p)
  {
    if a == [] {
      assert a + b == b;
    } else {
      FilterAppend(a[1..], b, p);
      assert (a + b)[1..] == a[1..] + b;
      assert (a + b)[0] == a[0];
      if p(a[0]) {
        Base.AppendAssoc([a[0]], Filter(a[1..], p), Filter(b, p));
      }
    }
  }

  /** Filtering a sequence extended by one element. */
  lemma FilterSnoc<T(!new)>(s: seq<T>, x: T, p: T -> bool)
    ensures Filter(s + [x], p) == Filter(s, p) + (if p(x) then [x] else [])
  {
    FilterAppend(s, [x], p);
    assert [x][1..] == [];
  }

  /** Filtering twice by the same test changes nothing more. */
  lemma {:induction false} FilterIdempotent<T(!new)>(s: seq<T>, p: T -> bool)
    ensures Filter(Filter(s, p), p) == Filter(s, p)
  {
    if s != [] {
      FilterIdempotent(s[1..], p);
      if p(s[0]) {
        assert ([s[0]] + Filter(s[1..], p))[1..] == Filter(s[1..], p);
      }
    }
  }

  /** Filtering by a test that excludes the first one leaves nothing. */
  lemma FilterDisjoint<T(!new)>(s: seq<T>, p: T -> bool, q: T -> bool)
    requires forall x :: p(x) ==> !q(x)
    ensures Filter(Filter(s, p), q) == []
  {
    var r := Filter(Filter(s, p), q);
    assert forall x :: x !in r;
  }
}
