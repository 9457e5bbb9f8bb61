/** The stages every listing read is built from: `$sort` in descending order,
    `$match` (a filter that keeps the order), `$skip`/`$limit`, the page count
    `Math.ceil(total / limit)` and the `parseInt(q) || default` parameter idiom. */
module Listing {
  import opened Outcomes
  import opened Tables

  /** A sort key: `$sort: { primary: -1, secondary: -1 }`. Listings that sort on
      one field use a constant secondary. */
  datatype Rank = Rank(primary: int, secondary: int)

  /** `a` may precede `b` in descending order of `(primary, secondary)`. */
  predicate AtLeast(a: Rank, b: Rank) {
    a.primary > b.primary || (a.primary == b.primary && a.secondary >= b.secondary)
  }

  predicate SortedDesc<T>(s: seq<T>, key: T -> Rank) {
    forall i, j :: 0 <= i < j < |s| ==> AtLeast(key(s[i]), key(s[j]))
  }

  /** Places `x` before the first element it is at least as high as. */
  function Insert<T>(x: T, s: seq<T>, key: T -> Rank): (r: seq<T>)
    requires SortedDesc(s, key)
    ensures SortedDesc(r, key)
    ensures multiset(r) == multiset(s) + multiset{x}
    decreases |s|
  {
    if s == [] || AtLeast(key(x), key(s[0])) then
      [x] + s
    else
      var rest := Insert(x, s[1..], key);
      assert s == [s[0]] + s[1..];
      OutranksAll(s[0], x, s[1..], rest, key);
      [s[0]] + rest
  }

  /** An element at least as high as `x` and as every element of `u` is at
      least as high as every element of `u` with `x` added, in any order. */
  lemma OutranksAll<T>(h: T, x: T, u: seq<T>, t: seq<T>, key: T -> Rank)
    requires multiset(t) == multiset(u) + multiset{x}
    requires AtLeast(key(h), key(x))
    requires forall m :: 0 <= m < |u| ==> AtLeast(key(h), key(u[m]))
    ensures forall j :: 0 <= j < |t| ==> AtLeast(key(h), key(t[j]))
  {
    forall j | 0 <= j < |t|
      ensures AtLeast(key(h), key(t[j]))
    {
      assert t[j] in multiset(t);
      if t[j] != x {
        assert t[j] in multiset(u);
        var m :| 0 <= m < |u| && u[m] == t[j];
      }
    }
  }

  /** `$sort` in descending order of `key`: a sorted permutation of the input.
      Elements with equal keys keep their table order. */
  function SortDesc<T>(s: seq<T>, key: T -> Rank): (r: seq<T>)
    ensures SortedDesc(r, key)
    ensures multiset(r) == multiset(s) && |r| == |s|
  {
    if s == [] then []
    else
      assert s == [s[0]] + s[1..];
      Insert(s[0], SortDesc(s[1..], key), key)
  }

  /** Filtering a sorted listing leaves it sorted. */
  lemma {:induction false} FilterSorted<T(!new)>(s: seq<T>, keep: T -> bool, key: T -> Rank)
    requires SortedDesc(s, key)
    ensures SortedDesc(Filter(s, keep), key)
  {
    if s != [] {
      FilterSorted(s[1..], keep, key);
      var rest := Filter(s[1..], keep);
      forall j | 0 <= j < |rest|
        ensures AtLeast(key(s[0]), key(rest[j]))
      {
        assert rest[j] in s[1..];
        var m :| 0 <= m < |s[1..]| && s[1..][m] == rest[j];
        assert s[m + 1] == rest[j];
      }
    }
  }

  /** A join that keeps each row's sort key keeps a sorted listing sorted. */
  lemma {:induction false} UnwindSorted<A(!new), B>(s: seq<A>, join: A -> Option<B>, keyA: A -> Rank, keyB: B -> Rank)
    requires SortedDesc(s, keyA)
    requires forall a :: join(a).Some? ==> keyB(join(a).value) == keyA(a)
    ensures SortedDesc(Unwind(s, join), keyB)
  {
    if s != [] {
      UnwindSorted(s[1..], join, keyA, keyB);
      var rest := Unwind(s[1..], join);
      forall j | 0 <= j < |rest|
        ensures AtLeast(keyA(s[0]), keyB(rest[j]))
      {
        var a :| a in s[1..] && join(a) == Some(rest[j]);
        var m :| 0 <= m < |s[1..]| && s[1..][m] == a;
        assert s[m + 1] == a;
      }
    }
  }

  function Min(a: int, b: int): int {
    if a <= b then a else b
  }

  /** `items` is what `$skip: skip` then `$limit: limit` leave of `s`: the
      elements from index `skip` on, at most `limit` of them, in order. */
  predicate IsPage<T(==)>(items: seq<T>, s: seq<T>, skip: int, limit: int) {
    && 0 <= skip && |items| <= limit
    && (skip >= |s| ==> items == [])
    && (skip < |s| ==> |items| == Min(limit, |s| - skip))
    && (forall i :: 0 <= i < |items| ==> skip + i < |s| && items[i] == s[skip + i])
  }

  /** A window of a listing has only one possible content. */
  lemma PageUnique<T>(a: seq<T>, b: seq<T>, s: seq<T>, skip: int, limit: int)
    requires IsPage(a, s, skip, limit) && IsPage(b, s, skip, limit)
    ensures a == b
  {
  }

  function Page<T(==)>(s: seq<T>, skip: nat, limit: nat): (r: seq<T>)
    ensures IsPage(r, s, skip, limit)
  {
    if skip >= |s| then [] else s[skip..Min(skip + limit, |s|)]
  }

  /** `$sort` then `$limit: n`: the first `n` elements in descending order
      of `key`. No element left out ranks above one that was taken. */
  function Top<T(==)>(s: seq<T>, key: T -> Rank, n: nat): (r: seq<T>)
    ensures |r| == Min(n, |s|)
    ensures SortedDesc(r, key)
    ensures multiset(r) <= multiset(s)
    ensures forall x :: x in r ==> x in s
    ensures forall x, y :: x in r && y in s && y !in r ==> AtLeast(key(x), key(y))
  {
    var sorted := SortDesc(s, key);
    var r := Page(sorted, 0, n);
    assert sorted == r + sorted[|r|..];
    assert multiset(sorted) == multiset(r) + multiset(sorted[|r|..]);
    PageSorted(r, sorted, 0, n, key);
    forall x | x in r
      ensures x in s
    {
      assert x in sorted && x in multiset(sorted);
    }
    forall x, y | x in r && y in s && y !in r
      ensures AtLeast(key(x), key(y))
    {
      assert y in multiset(sorted);
      var j :| 0 <= j < |sorted| && sorted[j] == y;
      var i :| 0 <= i < |r| && r[i] == x;
      assert sorted[i] == x;
    }
    r
  }

  /** An element that strictly outranks every other one comes first. */
  lemma TopFirst<T>(s: seq<T>, key: T -> Rank, n: nat, x: T)
    requires n >= 1 && x in s
    requires forall y :: y in s && y != x ==> !AtLeast(key(y), key(x))
    ensures Top(s, key, n) != [] && Top(s, key, n)[0] == x
  {
    var top := Top(s, key, n);
    assert top[0] in top;
  }

  /** Every element lies on a page: the one at index `k` is on page
      `k / limit + 1`, the page that starts at `(page - 1) * limit`. */
  lemma PageCovers<T>(items: seq<T>, s: seq<T>, k: nat, page: int, limit: int)
    requires k < |s| && limit >= 1 && page == k / limit + 1
    requires IsPage(items, s, (page - 1) * limit, limit)
    ensures page >= 1
    ensures 0 <= k - (page - 1) * limit < |items| && items[k - (page - 1) * limit] == s[k]
  {
    assert page - 1 == k / limit;
    assert k == (page - 1) * limit + k % limit;
  }

  /** A page holds nothing the listing does not. */
  lemma PageWithin<T>(items: seq<T>, s: seq<T>, skip: int, limit: int)
    requires IsPage(items, s, skip, limit)
    ensures forall x :: x in items ==> x in s
  {
    forall x | x in items
      ensures x in s
    {
      var i :| 0 <= i < |items| && items[i] == x;
      assert s[skip + i] == x;
    }
  }

  /** A page of a sorted listing is sorted. */
  lemma PageSorted<T>(items: seq<T>, s: seq<T>, skip: int, limit: int, key: T -> Rank)
    requires SortedDesc(s, key) && IsPage(items, s, skip, limit)
    ensures SortedDesc(items, key)
  {
    forall i, j | 0 <= i < j < |items|
      ensures AtLeast(key(items[i]), key(items[j]))
    {
      assert items[i] == s[skip + i] && items[j] == s[skip + j];
    }
  }

  /** `Math.ceil(n / d)`: the least number of pages of `d` items holding `n`. */
  function CeilDiv(n: nat, d: int): (r: nat)
    requires d >= 1
    ensures (r - 1) * d < n <= r * d
    ensures r == 0 <==> n == 0
  {
    var q := (n + d - 1) / d;
    var m := (n + d - 1) % d;
    assert n + d - 1 == q * d + m && 0 <= m < d;
    assert (q - 1) * d == q * d - d;
    q
  }

  /** `parseInt(q) || fallback`: a missing or non-numeric parameter (NaN) and
      a zero both give the fallback; any other number is kept, negative or not. */
  function OrDefault(q: Option<int>, fallback: int): (r: int)
    requires fallback != 0
    ensures r != 0
    ensures q.Some? && q.value != 0 ==> r == q.value
    ensures q.None? || q.value == 0 ==> r == fallback
  {
    match q
    case Some(v) => if v != 0 then v else fallback
    case None => fallback
  }

  /** The `$skip`/`$limit` stages for `page` and `limit`; None when the store
      rejects them (a negative skip, or a limit that is not positive). */
  datatype Window = Window(skip: nat, limit: nat)

  function PageWindow(page: int, limit: int): (w: Option<Window>)
    requires page != 0 && limit != 0
    ensures w.Some? <==> page >= 1 && limit >= 1
    ensures w.Some? ==> w.value.skip == (page - 1) * limit && w.value.limit == limit
  {
    var skip := (page - 1) * limit;
    assert page >= 1 && limit >= 1 ==> skip >= 0;
    assert page < 1 && limit >= 1 ==> skip < 0;
    if skip < 0 || limit < 1 then None else Some(Window(skip, limit))
  }
}
