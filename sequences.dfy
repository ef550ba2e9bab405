/** Sequence operations behind the relational queries: filtering by a
    row predicate (`where`) and sorting by an integer key (`orderBy asc`). */
module Sequences {

  /** `s` is non-decreasing in `key`. */
  ghost predicate SortedBy<T>(s: seq<T>, key: T -> int) {
    forall i, j :: 0 <= i < j < |s| ==> key(s[i]) <= key(s[j])
  }

  /** No value occurs twice in `s`. */
  ghost predicate AtMostOnce<T(!new)>(s: seq<T>) {
    forall x :: multiset(s)[x] <= 1
  }

  /** No two positions of `s` hold the same value. */
  ghost predicate DistinctPositions<T>(s: seq<T>) {
    forall i, j :: 0 <= i < j < |s| ==> s[i] != s[j]
  }

  /** The rows of `s` that satisfy `p`, in their original order. */
  function Filter<T(!new)>(s: seq<T>, p: T -> bool): (r: seq<T>)
    ensures forall x :: x in r <==> x in s && p(x)
    ensures |r| <= |s|
  {
    if |s| == 0 then []
    else
      assert s == [s[0]] + s[1..];
      (if p(s[0]) then [s[0]] else []) + Filter(s[1..], p)
  }

  /** Filtering keeps the multiplicity of every row that passes and drops
      the others. */
  lemma {:induction false} FilterCount<T(!new)>(s: seq<T>, p: T -> bool)
    ensures forall x :: multiset(Filter(s, p))[x] == if p(x) then multiset(s)[x] else 0
  {
    if |s| > 0 {
      assert s == [s[0]] + s[1..];
      FilterCount(s[1..], p);
      var head := if p(s[0]) then [s[0]] else [];
      assert Filter(s, p) == head + Filter(s[1..], p);
      assert multiset(Filter(s, p)) == multiset(head) + multiset(Filter(s[1..], p));
    }
  }

  /** Inserts `x` into the sorted `s` in front of the first row whose key is
      not smaller than the key of `x`. */
  function Insert<T>(x: T, s: seq<T>, key: T -> int): (r: seq<T>)
    requires SortedBy(s, key)
    ensures SortedBy(r, key)
    ensures multiset(r) == multiset(s) + multiset{x}
  {
    if |s| == 0 then [x]
    else if key(x) <= key(s[0]) then
      assert SortedBy([x] + s, key) by {
        forall i, j | 0 <= i < j < |[x] + s| ensures key(([x] + s)[i]) <= key(([x] + s)[j]) {
          if i > 0 { assert ([x] + s)[i] == s[i - 1]; }
          assert ([x] + s)[j] == s[j - 1];
        }
      }
      [x] + s
    else
      var tail := s[1..];
      assert SortedBy(tail, key) by {
        forall i, j | 0 <= i < j < |tail| ensures key(tail[i]) <= key(tail[j]) {
          assert tail[i] == s[i + 1] && tail[j] == s[j + 1];
        }
      }
      var rest := Insert(x, tail, key);
      assert s == [s[0]] + tail;
      InsertStep(x, s[0], tail, rest, key);
      [s[0]] + rest
  }

  /** Putting `head` in front of `rest`, the insertion of `x` into the tail
      of a sorted sequence starting with `head`, keeps it sorted. */
  lemma InsertStep<T>(x: T, head: T, tail: seq<T>, rest: seq<T>, key: T -> int)
    requires SortedBy([head] + tail, key) && SortedBy(rest, key)
    requires key(head) < key(x)
    requires multiset(rest) == multiset(tail) + multiset{x}
    ensures SortedBy([head] + rest, key)
  {
    var r := [head] + rest;
    forall y | y in rest ensures key(head) <= key(y) {
      assert y in multiset(rest);
      if y != x {
        assert y in multiset(tail);
        var k :| 0 <= k < |tail| && tail[k] == y;
        assert ([head] + tail)[0] == head && ([head] + tail)[k + 1] == y;
      }
    }
    forall i, j | 0 <= i < j < |r| ensures key(r[i]) <= key(r[j]) {
      assert r[j] == rest[j - 1];
      if i > 0 { assert r[i] == rest[i - 1]; }
    }
  }

  /** Insertion sort on `key`: a sorted permutation of `s`. */
  function SortBy<T>(s: seq<T>, key: T -> int): (r: seq<T>)
    ensures SortedBy(r, key)
    ensures multiset(r) == multiset(s)
    ensures |r| == |s|
  {
    if |s| == 0 then []
    else
      assert s == [s[0]] + s[1..];
      Insert(s[0], SortBy(s[1..], key), key)
  }

  /** Two equal positions would give their value a multiplicity of two. */
  lemma AtMostOnceDistinct<T(!new)>(s: seq<T>)
    requires AtMostOnce(s)
    ensures DistinctPositions(s)
  {
    forall i, j | 0 <= i < j < |s| ensures s[i] != s[j] {
      assert s == s[..j] + s[j..];
      assert s[j] in s[j..];
      assert multiset(s)[s[j]] == multiset(s[..j])[s[j]] + multiset(s[j..])[s[j]];
      assert s[j] !in s[..j];
      assert s[i] in s[..j];
    }
  }

  /** The converse: a sequence without repeated positions holds every value
      at most once. */
  lemma {:induction false} DistinctAtMostOnce<T(!new)>(s: seq<T>)
    requires DistinctPositions(s)
    ensures AtMostOnce(s)
  {
    if |s| > 0 {
      assert s == [s[0]] + s[1..];
      assert DistinctPositions(s[1..]) by {
        forall i, j | 0 <= i < j < |s[1..]| ensures s[1..][i] != s[1..][j] {
          assert s[1..][i] == s[i + 1] && s[1..][j] == s[j + 1];
        }
      }
      DistinctAtMostOnce(s[1..]);
      assert s[0] !in s[1..] by {
        forall k | 0 <= k < |s[1..]| ensures s[1..][k] != s[0] {
          assert s[1..][k] == s[k + 1];
        }
      }
      forall x ensures multiset(s)[x] <= 1 {
        assert multiset(s)[x] == multiset([s[0]])[x] + multiset(s[1..])[x];
      }
    }
  }

  /** Filtering a concatenation filters each part. */
  lemma {:induction false} FilterAppend<T(!new)>(a: seq<T>, b: seq<T>, p: T -> bool)
    ensures Filter(a + b, p) == Filter(a, p) + Filter(b, p)
  {
    if |a| == 0 {
      assert a + b == b;
    } else {
      var head := if p(a[0]) then [a[0]] else [];
      assert (a + b)[1..] == a[1..] + b;
      assert (a + b)[0] == a[0];
      FilterAppend(a[1..], b, p);
      calc {
        Filter(a + b, p);
        head + Filter(a[1..] + b, p);
        head + (Filter(a[1..], p) + Filter(b, p));
        (head + Filter(a[1..], p)) + Filter(b, p);
        Filter(a, p) + Filter(b, p);
      }
    }
  }

  /** A filter that every row passes keeps the sequence; one that no row
      passes empties it. */
  lemma {:induction false} FilterAllOrNone<T(!new)>(s: seq<T>, p: T -> bool)
    ensures (forall x :: x in s ==> p(x)) ==> Filter(s, p) == s
    ensures (forall x :: x in s ==> !p(x)) ==> Filter(s, p) == []
  {
    if |s| > 0 {
      assert forall x :: x in s[1..] ==> x in s;
      FilterAllOrNone(s[1..], p);
      assert s == [s[0]] + s[1..];
    }
  }
}
