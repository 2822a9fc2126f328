/** Order-preserving selection over sequences: the `Array.prototype.filter`
    the hook and the views use everywhere. */
module Seqs {

  /** `Array.prototype.filter`: the elements satisfying `f`, in order. */
  function Filter<T(==)>(f: T -> bool, s: seq<T>): (r: seq<T>)
    ensures |r| <= |s|
    ensures forall i :: 0 <= i < |r| ==> r[i] in s && f(r[i])
    ensures forall i :: 0 <= i < |s| && f(s[i]) ==> s[i] in r
  {
    if |s| == 0 then [] else (if f(s[0]) then [s[0]] else []) + Filter(f, s[1..])
  }

  /** `a` can be obtained from `b` by deleting elements. */
  predicate IsSubseq<T(==)>(a: seq<T>, b: seq<T>)
    decreases |b|
  {
    if |a| == 0 then true
    else if |b| == 0 then false
    else if a[0] == b[0] then IsSubseq(a[1..], b[1..])
    else IsSubseq(a, b[1..])
  }

  /** No element occurs twice. */
  predicate Distinct<T(==)>(s: seq<T>) {
    forall i, j :: 0 <= i < j < |s| ==> s[i] != s[j]
  }

  /** Filtering keeps the order of what it keeps. */
  lemma {:induction false} FilterIsSubseq<T>(f: T -> bool, s: seq<T>)
    ensures IsSubseq(Filter(f, s), s)
    decreases |s|
  {
    if |s| > 0 {
      FilterIsSubseq(f, s[1..]);
      var rest := Filter(f, s[1..]);
      if f(s[0]) {
        assert Filter(f, s) == [s[0]] + rest;
        assert ([s[0]] + rest)[1..] == rest;
      } else {
        assert Filter(f, s) == rest;
      }
    }
  }

  /** Filtering keeps every satisfying element as often as it occurs and
      drops every other element entirely. */
  lemma {:induction false} FilterMultiplicity<T>(f: T -> bool, s: seq<T>, x: T)
    ensures multiset(Filter(f, s))[x] == if f(x) then multiset(s)[x] else 0
    decreases |s|
  {
    if |s| > 0 {
      FilterMultiplicity(f, s[1..], x);
      assert s == [s[0]] + s[1..];
      assert multiset(s) == multiset([s[0]]) + multiset(s[1..]);
      var head: seq<T> := if f(s[0]) then [s[0]] else [];
      assert multiset(Filter(f, s)) == multiset(head) + multiset(Filter(f, s[1..]));
    }
  }

  /** A filter that keeps everything is the identity. */
  lemma {:induction false} FilterKeepsAll<T>(f: T -> bool, s: seq<T>)
    requires forall i :: 0 <= i < |s| ==> f(s[i])
    ensures Filter(f, s) == s
    decreases |s|
  {
    if |s| > 0 {
      assert forall i :: 0 <= i < |s| - 1 ==> s[1..][i] == s[i + 1];
      FilterKeepsAll(f, s[1..]);
      assert [s[0]] + s[1..] == s;
    }
  }

  /** Filtering twice with the same test is filtering once. */
  lemma FilterIdempotent<T>(f: T -> bool, s: seq<T>)
    ensures Filter(f, Filter(f, s)) == Filter(f, s)
  {
    FilterKeepsAll(f, Filter(f, s));
  }

  /** Filtering never introduces a duplicate. */
  lemma {:induction false} FilterDistinct<T>(f: T -> bool, s: seq<T>)
    requires Distinct(s)
    ensures Distinct(Filter(f, s))
    decreases |s|
  {
    if |s| > 0 {
      assert Distinct(s[1..]);
      FilterDistinct(f, s[1..]);
      var rest := Filter(f, s[1..]);
      assert s[0] !in s[1..];
      assert s[0] !in rest;
    }
  }

  /** Filtering distributes over concatenation. */
  lemma {:induction false} FilterAppend<T>(f: T -> bool, a: seq<T>, b: seq<T>)
    ensures Filter(f, a + b) == Filter(f, a) + Filter(f, b)
    decreases |a|
  {
    if |a| == 0 {
      assert a + b == b;
    } else {
      assert (a + b)[1..] == a[1..] + b;
      FilterAppend(f, a[1..], b);
    }
  }

  /** The concatenation of a sequence of sequences, in order. */
  function Flatten<T(!new)>(ss: seq<seq<T>>): (r: seq<T>)
    ensures forall x :: x in r <==> exists i :: 0 <= i < |ss| && x in ss[i]
  {
    if |ss| == 0 then []
    else
      var r := ss[0] + Flatten(ss[1..]);
      assert forall x :: x in r <==> exists i :: 0 <= i < |ss| && x in ss[i] by {
        forall x | x in Flatten(ss[1..]) ensures exists i :: 0 <= i < |ss| && x in ss[i] {
          var i :| 0 <= i < |ss[1..]| && x in ss[1..][i];
          assert x in ss[i + 1];
        }
        forall x, i | 0 <= i < |ss| && x in ss[i] ensures x in r {
          if i > 0 {
            assert x in ss[1..][i - 1];
          }
        }
      }
      r
  }

  /** The first element kept by a filter is the first element satisfying
      the test. */
  lemma {:induction false} FilterHead<T>(f: T -> bool, s: seq<T>, k: nat)
    requires k < |s| && f(s[k])
    requires forall m :: 0 <= m < k ==> !f(s[m])
    ensures |Filter(f, s)| > 0 && Filter(f, s)[0] == s[k]
    decreases k
  {
    if k > 0 {
      FilterHead(f, s[1..], k - 1);
    }
  }

  /** A filter keeps nothing when nothing satisfies the test. */
  lemma {:induction false} FilterNone<T>(f: T -> bool, s: seq<T>)
    requires forall m :: 0 <= m < |s| ==> !f(s[m])
    ensures Filter(f, s) == []
    decreases |s|
  {
    if |s| > 0 {
      FilterNone(f, s[1..]);
    }
  }

  /** Two tests that agree on every element filter alike. */
  lemma {:induction false} FilterAgree<T>(f: T -> bool, g: T -> bool, s: seq<T>)
    requires forall m :: 0 <= m < |s| ==> f(s[m]) == g(s[m])
    ensures Filter(f, s) == Filter(g, s)
    decreases |s|
  {
    if |s| > 0 {
      assert forall m :: 0 <= m < |s| - 1 ==> s[1..][m] == s[m + 1];
      FilterAgree(f, g, s[1..]);
    }
  }

  /** `Array.prototype.map`: `f` applied to every element, in order. */
  function Map<A, B>(f: A -> B, s: seq<A>): (r: seq<B>)
    ensures |r| == |s|
    ensures forall i :: 0 <= i < |s| ==> r[i] == f(s[i])
  {
    seq(|s|, i requires 0 <= i < |s| => f(s[i]))
  }

  /** Mapping a concatenation and cutting out the middle part's positions
      gives the mapped middle part. */
  lemma MapMiddle<A, B>(f: A -> B, a: seq<A>, b: seq<A>, c: seq<A>)
    ensures |a| + |b| <= |Map(f, a + b + c)|
    ensures Map(f, a + b + c)[|a|..|a| + |b|] == Map(f, b)
  {
    var m := Map(f, a + b + c)[|a|..|a| + |b|];
    forall i | 0 <= i < |b| ensures m[i] == Map(f, b)[i] {
      assert (a + b + c)[|a| + i] == b[i];
    }
  }

  /** Mapping four runs laid end to end: each run's positions, which
      start at `i`, `j` and `k` and end at `n`, hold that run mapped. */
  lemma MapRuns<A, B>(f: A -> B, a: seq<A>, b: seq<A>, c: seq<A>, d: seq<A>, i: nat, j: nat, k: nat, n: nat)
    requires i == |a| && j == i + |b| && k == j + |c| && n == k + |d|
    ensures var r := Map(f, a + b + c + d);
            && n == |r|
            && r[0..i] == Map(f, a)
            && r[i..j] == Map(f, b)
            && r[j..k] == Map(f, c)
            && r[k..n] == Map(f, d)
  {
    var l := a + b + c + d;
    assert l == [] + a + (b + c + d);
    MapMiddle(f, [], a, b + c + d);
    assert l == a + b + (c + d);
    MapMiddle(f, a, b, c + d);
    assert l == (a + b) + c + d;
    MapMiddle(f, a + b, c, d);
    assert l == (a + b + c) + d + [];
    MapMiddle(f, a + b + c, d, []);
  }

  /** Equal sequences with the same tail have the same head. */
  lemma CancelTail<T>(a: seq<T>, b: seq<T>, t: seq<T>)
    requires a + t == b + t
    ensures a == b
  {
    assert a == (a + t)[..|a|];
    assert b == (b + t)[..|b|];
  }
}
