/** Generic sequence helpers: filtering, strict sorting with duplicates removed,
    and the subsequence relation. */
module Seqs {

  datatype Option<T> = None | Some(value: T)

  /** The elements of `s` that satisfy `p`, in their original order
      (a list comprehension `[x for x in s if p(x)]`). */
  function Filter<T(!new)>(s: seq<T>, p: T -> bool): (r: seq<T>)
    ensures |r| <= |s|
    ensures forall x :: x in r <==> x in s && p(x)
  {
    if s == [] then []
    else if p(s[0]) then [s[0]] + Filter(s[1..], p)
    else Filter(s[1..], p)
  }

  /** `r` can be obtained from `s` by deleting elements (greedy matching). */
  predicate IsSubsequence<T(==)>(r: seq<T>, s: seq<T>)
  {
    if r == [] then true
    else if s == [] then false
    else if r[0] == s[0] then IsSubsequence(r[1..], s[1..])
    else IsSubsequence(r, s[1..])
  }

  /** Filtering keeps the relative order of the elements it keeps. */
  lemma {:induction false} FilterIsSubsequence<T(!new)>(s: seq<T>, p: T -> bool)
    ensures IsSubsequence(Filter(s, p), s)
  {
    if s != [] {
      FilterIsSubsequence(s[1..], p);
      var r := Filter(s[1..], p);
      if !p(s[0]) && r != [] {
        assert r[0] in r;
      }
    }
  }

  /** A filter that rejects nothing is the identity. */
  lemma {:induction false} FilterKeepsAll<T(!new)>(s: seq<T>, p: T -> bool)
    requires forall x :: x in s ==> p(x)
    ensures Filter(s, p) == s
  {
    if s != [] {
      FilterKeepsAll(s[1..], p);
    }
  }

  /** Two filters that agree on every element of `s` give the same result. */
  lemma {:induction false} FilterCongruent<T(!new)>(s: seq<T>, p: T -> bool, q: T -> bool)
    requires forall x :: x in s ==> p(x) == q(x)
    ensures Filter(s, p) == Filter(s, q)
  {
    if s != [] {
      FilterCongruent(s[1..], p, q);
    }
  }

  lemma TakeOneMore<T>(s: seq<T>, i: nat)
    requires i < |s|
    ensures s[..i + 1] == s[..i] + [s[i]]
  {
  }

  lemma TriplesEqual<T>(s: seq<T>, t: seq<T>)
    requires |s| == 3 && |t| == 3
    requires s[0] == t[0] && s[1] == t[1] && s[2] == t[2]
    ensures s == t
  {
  }

  /** Every element comes strictly before every later one. */
  ghost predicate StrictlySorted<T>(s: seq<T>, lt: (T, T) -> bool)
  {
    forall i, j :: 0 <= i < j < |s| ==> lt(s[i], s[j])
  }

  ghost predicate StrictTotalOrder<T(!new)>(lt: (T, T) -> bool)
  {
    && (forall x :: !lt(x, x))
    && (forall x, y, z :: lt(x, y) && lt(y, z) ==> lt(x, z))
    && (forall x, y :: x != y ==> lt(x, y) || lt(y, x))
  }

  lemma SortedCons<T>(x: T, s: seq<T>, lt: (T, T) -> bool)
    requires StrictlySorted(s, lt)
    requires forall y :: y in s ==> lt(x, y)
    ensures StrictlySorted([x] + s, lt)
  {
    var t := [x] + s;
    forall i, j | 0 <= i < j < |t| ensures lt(t[i], t[j]) {
      assert t[j] == s[j - 1];
      if i > 0 { assert t[i] == s[i - 1]; }
    }
  }

  lemma SortedTail<T>(s: seq<T>, lt: (T, T) -> bool)
    requires s != [] && StrictlySorted(s, lt)
    ensures StrictlySorted(s[1..], lt)
    ensures forall y :: y in s[1..] ==> lt(s[0], y)
  {
    forall y | y in s[1..] ensures lt(s[0], y) {
      var k :| 0 <= k < |s[1..]| && s[1..][k] == y;
      assert s[k + 1] == y;
    }
  }

  lemma SortedAppend<T>(s: seq<T>, t: seq<T>, lt: (T, T) -> bool)
    requires StrictlySorted(s, lt) && StrictlySorted(t, lt)
    requires forall x, y :: x in s && y in t ==> lt(x, y)
    ensures StrictlySorted(s + t, lt)
  {
    var u := s + t;
    forall i, j | 0 <= i < j < |u| ensures lt(u[i], u[j]) {
      if j < |s| {
        assert u[i] == s[i] && u[j] == s[j];
      } else if i >= |s| {
        assert u[i] == t[i - |s|] && u[j] == t[j - |s|];
      } else {
        assert u[i] == s[i] && u[j] == t[j - |s|];
        assert u[i] in s && u[j] in t;
      }
    }
  }

  /** Filtering a strictly sorted sequence leaves it strictly sorted. */
  lemma {:induction false} FilterSorted<T(!new)>(s: seq<T>, p: T -> bool, lt: (T, T) -> bool)
    requires StrictlySorted(s, lt)
    ensures StrictlySorted(Filter(s, p), lt)
  {
    if s != [] {
      SortedTail(s, lt);
      FilterSorted(s[1..], p, lt);
      if p(s[0]) {
        SortedCons(s[0], Filter(s[1..], p), lt);
      }
    }
  }

  /** Inserts `x` into a sorted sequence, unless it is already there. */
  function Insert<T(==,!new)>(x: T, s: seq<T>, lt: (T, T) -> bool): (r: seq<T>)
    ensures forall y :: y in r <==> y == x || y in s
  {
    if s == [] then [x]
    else if x == s[0] then s
    else if lt(x, s[0]) then [x] + s
    else [s[0]] + Insert(x, s[1..], lt)
  }

  /** The distinct elements of `s` in ascending `lt` order (`sorted(set(s))`). */
  function SortedUnique<T(==,!new)>(s: seq<T>, lt: (T, T) -> bool): (r: seq<T>)
    ensures forall y :: y in r <==> y in s
  {
    if s == [] then [] else Insert(s[0], SortedUnique(s[1..], lt), lt)
  }

  lemma {:induction false} InsertSorted<T(!new)>(x: T, s: seq<T>, lt: (T, T) -> bool)
    requires StrictTotalOrder(lt) && StrictlySorted(s, lt)
    ensures StrictlySorted(Insert(x, s, lt), lt)
  {
    if s == [] {
    } else if x == s[0] {
    } else if lt(x, s[0]) {
      SortedTail(s, lt);
      SortedCons(x, s, lt);
    } else {
      assert lt(s[0], x);
      SortedTail(s, lt);
      InsertSorted(x, s[1..], lt);
      SortedCons(s[0], Insert(x, s[1..], lt), lt);
    }
  }

  lemma {:induction false} SortedUniqueSorted<T(!new)>(s: seq<T>, lt: (T, T) -> bool)
    requires StrictTotalOrder(lt)
    ensures StrictlySorted(SortedUnique(s, lt), lt)
  {
    if s != [] {
      SortedUniqueSorted(s[1..], lt);
      InsertSorted(s[0], SortedUnique(s[1..], lt), lt);
    }
  }

  /** A strictly sorted sequence is determined by its elements: so the result of
      `SortedUnique` is the only sorted, duplicate-free listing of `s`. */
  lemma {:induction false} SortedUniquely<T(!new)>(a: seq<T>, b: seq<T>, lt: (T, T) -> bool)
    requires StrictTotalOrder(lt)
    requires StrictlySorted(a, lt) && StrictlySorted(b, lt)
    requires forall x :: x in a <==> x in b
    ensures a == b
  {
    assert a != [] ==> a[0] in b;
    assert b != [] ==> b[0] in a;
    if a != [] && b != [] {
      SortedTail(a, lt);
      SortedTail(b, lt);
      assert a == [a[0]] + a[1..] && b == [b[0]] + b[1..];
      assert a[0] == b[0] by {
        assert a[0] in b && b[0] in a;
      }
      forall x ensures x in a[1..] <==> x in b[1..] {
        if x in a[1..] {
          assert lt(a[0], x) && x in b;
          assert x != b[0];
        }
        if x in b[1..] {
          assert lt(b[0], x) && x in a;
          assert x != a[0];
        }
      }
      SortedUniquely(a[1..], b[1..], lt);
    }
  }
}
