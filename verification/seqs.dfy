/** Order-preserving filtering of sequences, the shape of every list the network builds
    with a Python `for ... if ... append` loop or a `filter(...)` call. */
module Seqs {

  /** The elements of `s` that satisfy `p`, in the order they occur in `s`. */
  function Filter<T(!new)>(s: seq<T>, p: T -> bool): (r: seq<T>)
    ensures |r| <= |s|
    ensures forall x :: x in r <==> x in s && p(x)
    decreases |s|
  {
    if |s| == 0 then []
    else if p(s[0]) then [s[0]] + Filter(s[1..], p)
    else Filter(s[1..], p)
  }

  /** No value occurs twice in `s`. */
  predicate Distinct<T(!new)(==)>(s: seq<T>) {
    forall i, j :: 0 <= i < j < |s| ==> s[i] != s[j]
  }

  /** No two elements of `s` share a key. */
  predicate DistinctBy<T(!new), K(==)>(s: seq<T>, key: T -> K) {
    forall i, j :: 0 <= i < j < |s| ==> key(s[i]) != key(s[j])
  }

  /** Filtering distributes over concatenation, so a scan can build the filtered list one
      element at a time. */
  lemma {:induction false} FilterAppend<T(!new)>(a: seq<T>, b: seq<T>, p: T -> bool)
    ensures Filter(a + b, p) == Filter(a, p) + Filter(b, p)
    decreases |a|
  {
    if |a| == 0 {
      assert a + b == b;
    } else {
      assert (a + b)[1..] == a[1..] + b;
      FilterAppend(a[1..], b, p);
    }
  }

  /** Two predicates that agree on every element of `s` select the same elements. */
  lemma {:induction false} FilterAgree<T(!new)>(s: seq<T>, p: T -> bool, q: T -> bool)
    requires forall x :: x in s ==> (p(x) <==> q(x))
    ensures Filter(s, p) == Filter(s, q)
    decreases |s|
  {
    if |s| > 0 {
      assert forall x :: x in s[1..] ==> x in s;
      FilterAgree(s[1..], p, q);
    }
  }

  /** Filtering keeps the elements of the input in their input multiplicity: the three
      type classes of a node list, or the two classes of a device list, partition it. */
  lemma {:induction false} FilterComplement<T(!new)>(s: seq<T>, p: T -> bool, q: T -> bool)
    requires forall x :: x in s ==> (q(x) <==> !p(x))
    ensures multiset(Filter(s, p)) + multiset(Filter(s, q)) == multiset(s)
    decreases |s|
  {
    if |s| > 0 {
      assert forall x :: x in s[1..] ==> x in s;
      FilterComplement(s[1..], p, q);
      assert s == [s[0]] + s[1..];
    }
  }

  /** Filtering a sequence with distinct keys yields a sequence with distinct keys. */
  lemma {:induction false} FilterKeepsDistinctBy<T(!new), K>(s: seq<T>, p: T -> bool, key: T -> K)
    requires DistinctBy(s, key)
    ensures DistinctBy(Filter(s, p), key)
    decreases |s|
  {
    if |s| > 0 {
      assert DistinctBy(s[1..], key) by {
        forall i, j | 0 <= i < j < |s[1..]|
          ensures key(s[1..][i]) != key(s[1..][j])
        {
          assert s[1..][i] == s[i + 1] && s[1..][j] == s[j + 1];
        }
      }
      FilterKeepsDistinctBy(s[1..], p, key);
      if p(s[0]) {
        var r := Filter(s[1..], p);
        forall y | y in r ensures key(y) != key(s[0]) {
          var j :| 0 <= j < |s[1..]| && s[1..][j] == y;
          assert s[j + 1] == y;
        }
        var f := [s[0]] + r;
        forall i, j | 0 <= i < j < |f| ensures key(f[i]) != key(f[j]) {
          if i == 0 {
            assert f[j] == r[j - 1];
            assert f[j] in r;
          } else {
            assert f[i] == r[i - 1] && f[j] == r[j - 1];
          }
        }
      }
    }
  }

  /** If at most one element of `s` is rejected by `p`, filtering drops at most one element. */
  lemma {:induction false} FilterDropsAtMostOne<T(!new)>(s: seq<T>, p: T -> bool)
    requires forall i, j :: 0 <= i < j < |s| && !p(s[i]) ==> p(s[j])
    ensures |Filter(s, p)| + 1 >= |s|
    decreases |s|
  {
    if |s| > 0 {
      if p(s[0]) {
        FilterDropsAtMostOne(s[1..], p);
      } else {
        assert forall x :: x in s[1..] ==> p(x) by {
          forall x | x in s[1..] ensures p(x) {
            var j :| 0 <= j < |s[1..]| && s[1..][j] == x;
            assert s[j + 1] == x;
          }
        }
        FilterAll(s[1..], p);
      }
    }
  }

  /** A predicate that holds of every element keeps the whole sequence. */
  lemma {:induction false} FilterAll<T(!new)>(s: seq<T>, p: T -> bool)
    requires forall x :: x in s ==> p(x)
    ensures Filter(s, p) == s
    decreases |s|
  {
    if |s| > 0 {
      assert forall x :: x in s[1..] ==> x in s;
      FilterAll(s[1..], p);
    }
  }

  /** When exactly one element `x` of a duplicate-free sequence stops satisfying the
      predicate and every other element keeps its verdict, the filtered list loses one
      element. */
  lemma {:induction false} FilterLosesOne<T(!new)>(s: seq<T>, p: T -> bool, q: T -> bool, x: T)
    requires Distinct(s)
    requires x in s && p(x) && !q(x)
    requires forall y :: y in s && y != x ==> (p(y) <==> q(y))
    ensures |Filter(s, q)| + 1 == |Filter(s, p)|
    decreases |s|
  {
    assert Distinct(s[1..]) by {
      forall i, j | 0 <= i < j < |s[1..]| ensures s[1..][i] != s[1..][j] {
        assert s[1..][i] == s[i + 1] && s[1..][j] == s[j + 1];
      }
    }
    if s[0] == x {
      assert x !in s[1..] by {
        forall j | 0 <= j < |s[1..]| ensures s[1..][j] != x {
          assert s[1..][j] == s[j + 1];
        }
      }
      assert forall y :: y in s[1..] ==> (p(y) <==> q(y)) by {
        forall y | y in s[1..] ensures p(y) <==> q(y) {
          assert y in s;
        }
      }
      FilterAgree(s[1..], p, q);
    } else {
      assert x in s[1..] by {
        var i :| 0 <= i < |s| && s[i] == x;
        assert s[1..][i - 1] == x;
      }
      assert forall y :: y in s[1..] ==> y in s;
      FilterLosesOne(s[1..], p, q, x);
    }
  }

  /** Filtering out an element that occurs in `s` shortens it. */
  lemma {:induction false} FilterDropsSome<T(!new)>(s: seq<T>, p: T -> bool, x: T)
    requires x in s && !p(x)
    ensures |Filter(s, p)| < |s|
    decreases |s|
  {
    if s[0] != x {
      assert x in s[1..] by {
        var i :| 0 <= i < |s| && s[i] == x;
        assert s[1..][i - 1] == x;
      }
      FilterDropsSome(s[1..], p, x);
    }
  }
}
