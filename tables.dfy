/** Operations on a collection held as a sequence of rows in insertion order:
    lookups (`findOne`, `findById`), removal of one row (`findOneAndDelete`)
    and of every row that matches (`deleteMany`, and `$match` in a pipeline). */
module Tables {
  import opened Outcomes

  /** Row ids (MongoDB ObjectIds). */
  type Id = int

  /** The first row that satisfies `matches`, or None when no row does. */
  function FirstIndex<T>(s: seq<T>, matches: T -> bool): (r: Option<nat>)
    ensures r.Some? ==> r.value < |s| && matches(s[r.value])
    ensures r.Some? ==> forall k :: 0 <= k < r.value ==> !matches(s[k])
    ensures r.None? ==> forall k :: 0 <= k < |s| ==> !matches(s[k])
  {
    if s == [] then None
    else if matches(s[0]) then Some(0)
    else match FirstIndex(s[1..], matches)
      case None => None
      case Some(k) => Some(k + 1)
  }

  /** The table without its row at index `i`; the other rows keep their order. */
  function RemoveAt<T>(s: seq<T>, i: nat): (r: seq<T>)
    requires i < |s|
    ensures |r| == |s| - 1
    ensures forall k :: 0 <= k < i ==> r[k] == s[k]
    ensures forall k :: i <= k < |r| ==> r[k] == s[k + 1]
    ensures multiset(r) == multiset(s) - multiset{s[i]}
  {
    assert s == s[..i] + [s[i]] + s[i + 1..];
    s[..i] + s[i + 1..]
  }

  /** `$match`: the elements that satisfy `keep`, in their original order. */
  function Filter<T(!new)>(s: seq<T>, keep: T -> bool): (r: seq<T>)
    ensures |r| <= |s|
    ensures forall x :: x in r <==> x in s && keep(x)
  {
    if s == [] then []
    else
      assert s == [s[0]] + s[1..];
      (if keep(s[0]) then [s[0]] else []) + Filter(s[1..], keep)
  }

  /** Each kept element occurs as often as in the input; the others not at all. */
  lemma {:induction false} FilterCount<T(!new)>(s: seq<T>, keep: T -> bool)
    ensures forall x :: multiset(Filter(s, keep))[x] == if keep(x) then multiset(s)[x] else 0
  {
    if s != [] {
      FilterCount(s[1..], keep);
      assert s == [s[0]] + s[1..];
    }
  }

  /** Filtering depends only on which rows there are, not on their order. */
  lemma FilterPermutation<T(!new)>(s: seq<T>, t: seq<T>, keep: T -> bool)
    requires multiset(s) == multiset(t)
    ensures multiset(Filter(s, keep)) == multiset(Filter(t, keep))
    ensures |Filter(s, keep)| == |Filter(t, keep)|
  {
    var a, b := Filter(s, keep), Filter(t, keep);
    FilterCount(s, keep);
    FilterCount(t, keep);
    assert forall x :: multiset(a)[x] == multiset(b)[x];
    assert multiset(a) == multiset(b);
    assert |a| == |multiset(a)| == |multiset(b)| == |b|;
  }

  /** `ok` holds between every earlier and every later element. */
  predicate Pairwise<T>(s: seq<T>, ok: (T, T) -> bool) {
    forall i, j :: 0 <= i < j < |s| ==> ok(s[i], s[j])
  }

  lemma PairwiseCons<T>(x: T, t: seq<T>, ok: (T, T) -> bool)
    requires Pairwise(t, ok) && forall y :: y in t ==> ok(x, y)
    ensures Pairwise([x] + t, ok)
  {
    var r := [x] + t;
    forall i, j | 0 <= i < j < |r|
      ensures ok(r[i], r[j])
    {
      assert r[j] == t[j - 1];
      if i > 0 {
        assert r[i] == t[i - 1];
      }
    }
  }

  /** Filtering keeps the order, so a relation between every earlier and
      later row still holds afterwards. */
  lemma {:induction false} FilterPairwise<T(!new)>(s: seq<T>, keep: T -> bool, ok: (T, T) -> bool)
    requires Pairwise(s, ok)
    ensures Pairwise(Filter(s, keep), ok)
  {
    if s != [] {
      var tail := s[1..];
      assert Pairwise(tail, ok) by {
        forall i, j | 0 <= i < j < |tail|
          ensures ok(tail[i], tail[j])
        {
          assert tail[i] == s[i + 1] && tail[j] == s[j + 1];
        }
      }
      FilterPairwise(tail, keep, ok);
      var rest := Filter(tail, keep);
      if keep(s[0]) {
        forall y | y in rest
          ensures ok(s[0], y)
        {
          var m :| 0 <= m < |tail| && tail[m] == y;
          assert s[m + 1] == y;
        }
        PairwiseCons(s[0], rest, ok);
      }
    }
  }

  /** Two tests that agree on every row filter alike. */
  lemma {:induction false} FilterSameTest<T(!new)>(s: seq<T>, p: T -> bool, q: T -> bool)
    requires forall x :: p(x) == q(x)
    ensures Filter(s, p) == Filter(s, q)
  {
    if s != [] {
      FilterSameTest(s[1..], p, q);
    }
  }

  /** Whether the lookup `join` finds a match for a row. */
  function Matched<A, B>(join: A -> Option<B>): (A -> bool) {
    (a: A) => join(a).Some?
  }

  /** `$lookup` followed by `$unwind`: each row whose lookup `join` finds a
      match becomes the joined row; a row without a match is dropped. Rows
      keep their order. */
  function Unwind<A(!new), B>(s: seq<A>, join: A -> Option<B>): (r: seq<B>)
    ensures |r| == |Filter(s, Matched(join))| <= |s|
    ensures |r| == |s| <==> forall a :: a in s ==> join(a).Some?
    ensures forall a :: a in s && join(a).Some? ==> join(a).value in r
    ensures forall b :: b in r ==> exists a :: a in s && join(a) == Some(b)
  {
    if s == [] then []
    else
      var rest := Unwind(s[1..], join);
      assert s == [s[0]] + s[1..];
      match join(s[0])
      case None => rest
      case Some(b) => [b] + rest
  }
}
