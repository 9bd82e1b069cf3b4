/** Sequence operations the TypeScript code takes from the standard library:
    `filter`, `flatMap` (as `Flatten` of a `map`) and the first-seen order of
    `[...new Set(xs)]` and of a `Map`'s keys. */
module Seqs {
  import opened Wrappers

  /** `s.filter(keep)`: the elements of `s` that satisfy `keep`, in order. */
  function Filter<T(!new)>(keep: T -> bool, s: seq<T>): (r: seq<T>)
    ensures |r| <= |s|
    ensures forall x :: x in r <==> x in s && keep(x)
  {
    if s == [] then []
    else (if keep(s[0]) then [s[0]] else []) + Filter(keep, s[1..])
  }

  /** Concatenation is associative. */
  lemma {:induction false} AppendAssoc<T>(a: seq<T>, b: seq<T>, c: seq<T>)
    ensures a + (b + c) == (a + b) + c
  {
  }

  /** Filtering keeps the relative order: it distributes over concatenation. */
  lemma {:induction false} FilterAppend<T(!new)>(keep: T -> bool, a: seq<T>, b: seq<T>)
    ensures Filter(keep, a + b) == Filter(keep, a) + Filter(keep, b)
  {
    if a == [] {
      assert a + b == b;
    } else {
      assert (a + b)[1..] == a[1..] + b;
      FilterAppend(keep, a[1..], b);
    }
  }

  /** Two filters applied one after the other are one filter by the conjunction. */
  lemma {:induction false} FilterFilter<T(!new)>(p: T -> bool, q: T -> bool, both: T -> bool, s: seq<T>)
    requires forall x :: both(x) == (q(x) && p(x))
    ensures Filter(p, Filter(q, s)) == Filter(both, s)
  {
    if s != [] {
      var t := Filter(q, s[1..]);
      FilterFilter(p, q, both, s[1..]);
      assert Filter(both, s) == (if both(s[0]) then [s[0]] else []) + Filter(both, s[1..]);
      if q(s[0]) {
        var u := [s[0]] + t;
        assert Filter(q, s) == u;
        assert u[0] == s[0] && u[1..] == t;
        assert Filter(p, u) == (if p(s[0]) then [s[0]] else []) + Filter(p, t);
      } else {
        assert Filter(q, s) == [] + t;
        assert [] + t == t;
        assert !both(s[0]);
        assert Filter(both, s) == [] + Filter(both, s[1..]);
        assert [] + Filter(both, s[1..]) == Filter(both, s[1..]);
      }
    }
  }

  /** Two filters by the same condition agree. */
  lemma {:induction false} FilterSame<T(!new)>(p: T -> bool, q: T -> bool, s: seq<T>)
    requires forall x :: p(x) == q(x)
    ensures Filter(p, s) == Filter(q, s)
  {
    if s != [] {
      FilterSame(p, q, s[1..]);
    }
  }

  /** A filter that keeps everything is the identity. */
  lemma {:induction false} FilterAll<T(!new)>(p: T -> bool, s: seq<T>)
    requires forall x :: x in s ==> p(x)
    ensures Filter(p, s) == s
  {
    if s != [] {
      assert forall x :: x in s[1..] ==> x in s;
      FilterAll(p, s[1..]);
      assert s == [s[0]] + s[1..];
    }
  }

  /** Position `k` holds the first element of `s` that satisfies `keep`. */
  predicate FirstSatisfying<T>(keep: T -> bool, s: seq<T>, k: int) {
    0 <= k < |s| && keep(s[k]) && forall m :: 0 <= m < k ==> !keep(s[m])
  }

  /** `s.find(keep)`: the first element that satisfies `keep`, if any. */
  function FindFirst<T(==,!new)>(keep: T -> bool, s: seq<T>): (r: Option<T>)
    ensures r.None? <==> forall x :: x in s ==> !keep(x)
    ensures r.Some? ==> exists k :: FirstSatisfying(keep, s, k) && s[k] == r.value
  {
    if s == [] then None
    else if keep(s[0]) then
      assert FirstSatisfying(keep, s, 0);
      Some(s[0])
    else
      var r := FindFirst(keep, s[1..]);
      assert forall x :: x in s[1..] ==> x in s;
      if r.Some? then
        var k :| FirstSatisfying(keep, s[1..], k) && s[1..][k] == r.value;
        assert FirstSatisfying(keep, s, k + 1) by {
          forall m | 0 <= m < k + 1 ensures !keep(s[m]) {
            if m > 0 { assert s[m] == s[1..][m - 1]; }
          }
        }
        r
      else r
  }

  /** Concatenation of a sequence of sequences, as `flatMap` produces it. */
  function Flatten<T(!new)>(ss: seq<seq<T>>): (r: seq<T>)
    ensures forall x :: x in r <==> exists i :: 0 <= i < |ss| && x in ss[i]
  {
    if ss == [] then []
    else
      var r := ss[0] + Flatten(ss[1..]);
      assert forall x :: x in Flatten(ss[1..]) ==> exists i :: 0 <= i < |ss| && x in ss[i] by {
        forall x | x in Flatten(ss[1..]) ensures exists i :: 0 <= i < |ss| && x in ss[i] {
          var i :| 0 <= i < |ss[1..]| && x in ss[1..][i];
          assert x in ss[i + 1];
        }
      }
      assert forall x :: (exists i :: 0 <= i < |ss| && x in ss[i]) ==> x in r by {
        forall x | exists i :: 0 <= i < |ss| && x in ss[i] ensures x in r {
          var i :| 0 <= i < |ss| && x in ss[i];
          if i > 0 { assert x in ss[1..][i - 1]; }
        }
      }
      r
  }

  lemma {:induction false} FlattenAppend<T(!new)>(a: seq<seq<T>>, b: seq<seq<T>>)
    ensures Flatten(a + b) == Flatten(a) + Flatten(b)
  {
    if a == [] {
      assert a + b == b;
    } else {
      assert (a + b)[1..] == a[1..] + b;
      FlattenAppend(a[1..], b);
    }
  }

  /** Index of the first occurrence of `x` in `s`. */
  function FirstIndex<T(==)>(s: seq<T>, x: T): (i: nat)
    requires x in s
    ensures i < |s| && s[i] == x && x !in s[..i]
  {
    if s[0] == x then 0 else 1 + FirstIndex(s[1..], x)
  }

  /** The elements of `s` without repetitions, in the order in which each was
      first seen: what `[...new Set(s)]` and the keys of a `Map` filled from
      `s` give. */
  function Distinct<T(==,!new)>(s: seq<T>): (r: seq<T>)
    ensures forall x :: x in r <==> x in s
    ensures forall i, j :: 0 <= i < j < |r| ==> r[i] != r[j]
  {
    if s == [] then []
    else
      var d := Distinct(s[..|s| - 1]);
      assert forall x :: x in s <==> x in s[..|s| - 1] || x == s[|s| - 1] by {
        assert s == s[..|s| - 1] + [s[|s| - 1]];
      }
      if s[|s| - 1] in d then d else d + [s[|s| - 1]]
  }

  lemma {:induction false} FirstIndexPrefix<T>(s: seq<T>, n: nat, x: T)
    requires n <= |s| && x in s[..n]
    ensures FirstIndex(s, x) == FirstIndex(s[..n], x)
  {
    var i := FirstIndex(s[..n], x);
    assert s[..n][i] == s[i];
    assert s[..n][..i] == s[..i];
  }

  /** `Distinct` lists the elements in the order of their first occurrence. */
  lemma {:induction false} DistinctFirstSeenOrder<T(!new)>(s: seq<T>)
    ensures forall i, j :: 0 <= i < j < |Distinct(s)| ==>
              FirstIndex(s, Distinct(s)[i]) < FirstIndex(s, Distinct(s)[j])
  {
    if s != [] {
      var p := s[..|s| - 1];
      var last := s[|s| - 1];
      var d := Distinct(p);
      DistinctFirstSeenOrder(p);
      forall x | x in d ensures FirstIndex(s, x) == FirstIndex(p, x) && FirstIndex(p, x) < |p| {
        FirstIndexPrefix(s, |p|, x);
      }
      if last !in d {
        assert last !in p;
        assert s[..|p|] == p;
      }
    }
  }

  /** A sequence without members is empty. */
  lemma {:induction false} NoMemberEmpty<T>(d: seq<T>)
    requires forall x :: x !in d
    ensures d == []
  {
    forall x ensures multiset(d)[x] == 0 {
      assert x !in d;
    }
    assert multiset(d) == multiset{};
  }

  /** In a sequence whose elements all equal `c`, `c` occurs `|d|` times. */
  lemma {:induction false} CountAllSame<T>(d: seq<T>, c: T)
    requires forall i :: 0 <= i < |d| ==> d[i] == c
    ensures multiset(d)[c] == |d|
  {
    if d != [] {
      CountAllSame(d[1..], c);
      assert d == [d[0]] + d[1..];
    }
  }

  /** In a duplicate-free sequence every value occurs at most once. */
  lemma {:induction false} CountDistinct<T>(d: seq<T>, x: T)
    requires forall i, j :: 0 <= i < j < |d| ==> d[i] != d[j]
    ensures multiset(d)[x] <= 1
  {
    if d != [] {
      CountDistinct(d[1..], x);
      assert d == [d[0]] + d[1..];
      assert forall k :: 0 <= k < |d| - 1 ==> d[1..][k] != d[0];
    }
  }

  /** A duplicate-free sequence whose elements all equal `c`, and which
      holds `c`, is `[c]`. */
  lemma {:induction false} AllSameDistinct<T>(d: seq<T>, c: T)
    requires forall i, j :: 0 <= i < j < |d| ==> d[i] != d[j]
    requires forall i :: 0 <= i < |d| ==> d[i] == c
    requires c in d
    ensures d == [c]
  {
    CountAllSame(d, c);
    CountDistinct(d, c);
    assert d == [d[0]];
  }
}
