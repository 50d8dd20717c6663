/** A comparator-driven sort over sequences, in the sense of `Array.prototype.sort`:
    a comparator returns a negative number, zero or a positive number. */
module Sorting {

  /** What `Array.prototype.sort` needs of its comparator over the elements it sorts
      (a "consistent comparator"): the signs of `cmp(a, b)` and `cmp(b, a)` are opposite,
      and "not greater" is transitive. */
  ghost predicate ConsistentOn<T>(cmp: (T, T) -> int, s: seq<T>)
  {
    && (forall a, b | a in s && b in s :: cmp(a, b) < 0 <==> cmp(b, a) > 0)
    && (forall a, b, c | a in s && b in s && c in s :: cmp(a, b) <= 0 && cmp(b, c) <= 0 ==> cmp(a, c) <= 0)
  }

  /** No element is ordered after a later one. */
  ghost predicate Sorted<T>(cmp: (T, T) -> int, s: seq<T>)
  {
    forall i, j | 0 <= i < j < |s| :: cmp(s[i], s[j]) <= 0
  }

  /** Places `x` in front of the first element it does not compare greater than. */
  function Insert<T>(x: T, s: seq<T>, cmp: (T, T) -> int): (r: seq<T>)
    ensures multiset(r) == multiset(s) + multiset{x}
    ensures |r| == |s| + 1
  {
    if |s| == 0 then [x]
    else if cmp(x, s[0]) <= 0 then [x] + s
    else
      assert s == [s[0]] + s[1..];
      [s[0]] + Insert(x, s[1..], cmp)
  }

  /** Insertion sort: a stable sort that returns a permutation of its input. */
  function SortBy<T>(s: seq<T>, cmp: (T, T) -> int): (r: seq<T>)
    ensures multiset(r) == multiset(s)
    ensures |r| == |s|
  {
    if |s| == 0 then []
    else
      assert s == [s[0]] + s[1..];
      Insert(s[0], SortBy(s[1..], cmp), cmp)
  }

  lemma ConsistentOnSubset<T>(cmp: (T, T) -> int, s: seq<T>, t: seq<T>)
    requires ConsistentOn(cmp, s)
    requires forall a | a in t :: a in s
    ensures ConsistentOn(cmp, t)
  {
  }

  /** An element no greater than everything in a sorted sequence may lead it. */
  lemma PrependKeepsSorted<T>(x: T, s: seq<T>, cmp: (T, T) -> int)
    requires Sorted(cmp, s)
    requires forall k | 0 <= k < |s| :: cmp(x, s[k]) <= 0
    ensures Sorted(cmp, [x] + s)
  {
    var r := [x] + s;
    forall i, j | 0 <= i < j < |r|
      ensures cmp(r[i], r[j]) <= 0
    {
      if i == 0 {
        assert r[j] == s[j - 1];
      } else {
        assert r[i] == s[i - 1] && r[j] == s[j - 1];
      }
    }
  }

  lemma TransitiveAt<T>(cmp: (T, T) -> int, s: seq<T>, a: T, b: T, c: T)
    requires ConsistentOn(cmp, s)
    requires a in s && b in s && c in s
    requires cmp(a, b) <= 0 && cmp(b, c) <= 0
    ensures cmp(a, c) <= 0
  {
  }

  lemma AntisymmetricAt<T>(cmp: (T, T) -> int, s: seq<T>, a: T, b: T)
    requires ConsistentOn(cmp, s)
    requires a in s && b in s
    requires cmp(a, b) > 0
    ensures cmp(b, a) < 0
  {
  }

  /** Inserting into a sorted sequence keeps it sorted. */
  lemma {:induction false} InsertKeepsSorted<T>(x: T, s: seq<T>, cmp: (T, T) -> int)
    requires ConsistentOn(cmp, [x] + s)
    requires Sorted(cmp, s)
    ensures Sorted(cmp, Insert(x, s, cmp))
  {
    if |s| == 0 {
    } else if cmp(x, s[0]) <= 0 {
      forall k | 0 <= k < |s|
        ensures cmp(x, s[k]) <= 0
      {
        if k > 0 {
          assert cmp(s[0], s[k]) <= 0;
          TransitiveAt(cmp, [x] + s, x, s[0], s[k]);
        }
      }
      PrependKeepsSorted(x, s, cmp);
    } else {
      var tail := Insert(x, s[1..], cmp);
      assert Sorted(cmp, s[1..]) by {
        forall i, j | 0 <= i < j < |s[1..]|
          ensures cmp(s[1..][i], s[1..][j]) <= 0
        {
          assert cmp(s[i + 1], s[j + 1]) <= 0;
        }
      }
      ConsistentOnSubset(cmp, [x] + s, [x] + s[1..]);
      InsertKeepsSorted(x, s[1..], cmp);
      AntisymmetricAt(cmp, [x] + s, x, s[0]);
      forall k | 0 <= k < |tail|
        ensures cmp(s[0], tail[k]) <= 0
      {
        var y := tail[k];
        assert y in multiset(tail);
        assert y in multiset(s[1..]) + multiset{x};
        if y != x {
          assert y in s[1..];
          var m :| 0 <= m < |s[1..]| && s[1..][m] == y;
          assert cmp(s[0], s[m + 1]) <= 0;
        }
      }
      PrependKeepsSorted(s[0], tail, cmp);
    }
  }

  /** Under a consistent comparator the sort's output is in order. */
  lemma {:induction false} SortByIsSorted<T>(s: seq<T>, cmp: (T, T) -> int)
    requires ConsistentOn(cmp, s)
    ensures Sorted(cmp, SortBy(s, cmp))
  {
    if |s| > 0 {
      var rest := SortBy(s[1..], cmp);
      ConsistentOnSubset(cmp, s, s[1..]);
      SortByIsSorted(s[1..], cmp);
      forall a | a in [s[0]] + rest
        ensures a in s
      {
        if a != s[0] {
          assert a in multiset(rest);
        }
      }
      ConsistentOnSubset(cmp, s, [s[0]] + rest);
      InsertKeepsSorted(s[0], rest, cmp);
    }
  }

  /** Sorting an already sorted sequence leaves it as it is. */
  lemma {:induction false} SortedIsFixpoint<T>(s: seq<T>, cmp: (T, T) -> int)
    requires Sorted(cmp, s)
    ensures SortBy(s, cmp) == s
  {
    if |s| > 0 {
      assert Sorted(cmp, s[1..]) by {
        forall i, j | 0 <= i < j < |s[1..]|
          ensures cmp(s[1..][i], s[1..][j]) <= 0
        {
          assert cmp(s[i + 1], s[j + 1]) <= 0;
        }
      }
      SortedIsFixpoint(s[1..], cmp);
      if |s| > 1 {
        assert cmp(s[0], s[1]) <= 0;
        assert s[1..][0] == s[1];
      }
      assert [s[0]] + s[1..] == s;
    }
  }

  /** Sorting twice gives the same order as sorting once. */
  lemma SortIsIdempotent<T>(s: seq<T>, cmp: (T, T) -> int)
    requires ConsistentOn(cmp, s)
    ensures SortBy(SortBy(s, cmp), cmp) == SortBy(s, cmp)
  {
    SortByIsSorted(s, cmp);
    SortedIsFixpoint(SortBy(s, cmp), cmp);
  }

  lemma SortedTail<T>(cmp: (T, T) -> int, s: seq<T>)
    requires Sorted(cmp, s) && |s| > 0
    ensures Sorted(cmp, s[1..])
  {
    forall i, j | 0 <= i < j < |s[1..]|
      ensures cmp(s[1..][i], s[1..][j]) <= 0
    {
      assert cmp(s[i + 1], s[j + 1]) <= 0;
    }
  }

  /** No two distinct elements compare equal. */
  ghost predicate NoTies<T>(cmp: (T, T) -> int, s: seq<T>)
  {
    forall a, b | a in s && b in s && cmp(a, b) == 0 :: a == b
  }

  lemma TailMultiset<T>(s: seq<T>, t: seq<T>)
    requires |s| > 0 && |t| > 0 && s[0] == t[0] && multiset(s) == multiset(t)
    ensures multiset(s[1..]) == multiset(t[1..])
  {
    assert s == [s[0]] + s[1..] && t == [t[0]] + t[1..];
    assert multiset(s[1..]) == multiset(s) - multiset{s[0]};
    assert multiset(t[1..]) == multiset(t) - multiset{s[0]};
  }

  /** Two sorted permutations of each other, without ties, start with the same element. */
  lemma SortedHeadsAgree<T>(cmp: (T, T) -> int, s: seq<T>, t: seq<T>)
    requires ConsistentOn(cmp, s) && NoTies(cmp, s)
    requires Sorted(cmp, s) && Sorted(cmp, t)
    requires multiset(s) == multiset(t) && |s| > 0 && |t| > 0
    ensures s[0] == t[0]
  {
    assert s[0] in multiset(t) && t[0] in multiset(s);
    var j :| 0 <= j < |t| && t[j] == s[0];
    var i :| 0 <= i < |s| && s[i] == t[0];
    assert cmp(s[0], t[0]) <= 0 by {
      if i > 0 { assert cmp(s[0], s[i]) <= 0; }
    }
    assert cmp(t[0], s[0]) <= 0 by {
      if j > 0 { assert cmp(t[0], t[j]) <= 0; }
    }
    assert s[0] in s && t[0] in s;
  }

  /** Without ties there is only one sorted arrangement of a multiset: two sorted
      permutations of each other coincide. */
  lemma {:induction false} SortedUnique<T>(cmp: (T, T) -> int, s: seq<T>, t: seq<T>)
    requires ConsistentOn(cmp, s) && NoTies(cmp, s)
    requires Sorted(cmp, s) && Sorted(cmp, t)
    requires multiset(s) == multiset(t)
    ensures s == t
    decreases |s|
  {
    assert |s| == |multiset(s)| == |multiset(t)| == |t|;
    if |s| > 0 {
      SortedHeadsAgree(cmp, s, t);
      TailMultiset(s, t);
      SortedTail(cmp, s);
      SortedTail(cmp, t);
      ConsistentOnSubset(cmp, s, s[1..]);
      assert NoTies(cmp, s[1..]) by {
        forall a, b | a in s[1..] && b in s[1..] && cmp(a, b) == 0
          ensures a == b
        {
          assert a in s && b in s;
        }
      }
      SortedUnique(cmp, s[1..], t[1..]);
      assert s == [s[0]] + s[1..] && t == [t[0]] + t[1..];
    }
  }
}
