/** Order-preserving selection and de-duplication over sequences: the shapes
    behind boolean-mask indexing and `Series.unique()`. */
module Seqs {

  /** The elements of `s` that satisfy `p`, in their original order. */
  function Filter<T>(p: T -> bool, s: seq<T>): (r: seq<T>)
    ensures |r| <= |s|
    decreases |s|
  {
    if s == [] then []
    else
      var rest := Filter(p, s[1..]);
      if p(s[0]) then [s[0]] + rest else rest
  }

  /** Everything kept comes from `s` and satisfies `p`. */
  lemma {:induction false} FilterSound<T>(p: T -> bool, s: seq<T>)
    ensures forall x :: x in Filter(p, s) ==> x in s && p(x)
    decreases |s|
  {
    if s != [] {
      FilterSound(p, s[1..]);
    }
  }

  /** Filtering distributes over concatenation: it keeps the relative order. */
  lemma {:induction false} FilterAppend<T>(p: T -> bool, a: seq<T>, b: seq<T>)
    ensures Filter(p, a + b) == Filter(p, a) + Filter(p, b)
    decreases |a|
  {
    if a == [] {
      assert a + b == b;
    } else {
      assert (a + b)[1..] == a[1..] + b;
      FilterAppend(p, a[1..], b);
    }
  }

  /** No element that satisfies `p` is dropped. */
  lemma {:induction false} FilterComplete<T>(p: T -> bool, s: seq<T>, i: nat)
    requires i < |s| && p(s[i])
    ensures s[i] in Filter(p, s)
    decreases |s|
  {
    if i > 0 {
      FilterComplete(p, s[1..], i - 1);
    }
  }

  /** Each value occurs in the result exactly as often as in the input when it
      satisfies `p`, and not at all otherwise. */
  lemma {:induction false} FilterCount<T>(p: T -> bool, s: seq<T>, x: T)
    ensures multiset(Filter(p, s))[x] == if p(x) then multiset(s)[x] else 0
    decreases |s|
  {
    if s != [] {
      FilterCount(p, s[1..], x);
      assert s == [s[0]] + s[1..];
    }
  }

  /** When every element satisfies `p`, nothing is removed. */
  lemma {:induction false} FilterKeepsAll<T>(p: T -> bool, s: seq<T>)
    requires forall i :: 0 <= i < |s| ==> p(s[i])
    ensures Filter(p, s) == s
    decreases |s|
  {
    if s != [] {
      FilterKeepsAll(p, s[1..]);
    }
  }

  /** The result is empty exactly when no element satisfies `p`. */
  lemma FilterEmpty<T>(p: T -> bool, s: seq<T>)
    ensures Filter(p, s) == [] <==> forall i :: 0 <= i < |s| ==> !p(s[i])
  {
    if exists i :: 0 <= i < |s| && p(s[i]) {
      var i :| 0 <= i < |s| && p(s[i]);
      FilterComplete(p, s, i);
    } else if Filter(p, s) != [] {
      FilterSound(p, s);
      assert Filter(p, s)[0] in Filter(p, s);
    }
  }

  /** Predicates that agree on the elements of `s` select the same elements. */
  lemma {:induction false} FilterAgree<T>(p: T -> bool, q: T -> bool, s: seq<T>)
    requires forall i :: 0 <= i < |s| ==> p(s[i]) == q(s[i])
    ensures Filter(p, s) == Filter(q, s)
    decreases |s|
  {
    if s != [] {
      FilterAgree(p, q, s[1..]);
    }
  }

  /** Filtering by `p` and then by `q` is filtering once by their conjunction. */
  lemma {:induction false} FilterFuse<T>(p: T -> bool, q: T -> bool, s: seq<T>)
    ensures Filter(q, Filter(p, s)) == Filter(x => p(x) && q(x), s)
    decreases |s|
  {
    if s != [] {
      FilterFuse(p, q, s[1..]);
    }
  }

  /** The first element of a non-empty result is the first element of `s`
      that satisfies `p`. */
  lemma {:induction false} FilterHead<T>(p: T -> bool, s: seq<T>)
    requires Filter(p, s) != []
    ensures exists i :: 0 <= i < |s| && s[i] == Filter(p, s)[0] && p(s[i])
                        && forall k :: 0 <= k < i ==> !p(s[k])
    decreases |s|
  {
    if !p(s[0]) {
      FilterHead(p, s[1..]);
      var i :| 0 <= i < |s[1..]| && s[1..][i] == Filter(p, s[1..])[0] && p(s[1..][i])
                && forall k :: 0 <= k < i ==> !p(s[1..][k]);
      assert s[i + 1] == s[1..][i];
      forall k | 0 <= k < i + 1 ensures !p(s[k]) {
        if k > 0 { assert s[k] == s[1..][k - 1]; }
      }
    } else {
      assert s[0] == Filter(p, s)[0];
    }
  }

  /** The position of the first occurrence of `x` in `s`. */
  function FirstIndex<T(==)>(s: seq<T>, x: T): (k: nat)
    requires x in s
    ensures k < |s| && s[k] == x && x !in s[..k]
  {
    if s[0] == x then 0
    else
      var k := FirstIndex(s[1..], x);
      assert s[..k + 1] == [s[0]] + s[1..][..k];
      k + 1
  }

  /** The first occurrence is determined by its defining property. */
  lemma FirstIndexUnique<T>(s: seq<T>, x: T, k: nat)
    requires k < |s| && s[k] == x && x !in s[..k]
    ensures FirstIndex(s, x) == k
  {
  }

  /** No value occurs twice. */
  predicate Distinct<T(==)>(s: seq<T>) {
    forall i, j :: 0 <= i < j < |s| ==> s[i] != s[j]
  }

  /** The distinct values of `s`, each at the place of its first occurrence. */
  function Unique<T(==)>(s: seq<T>): (u: seq<T>)
    ensures Distinct(u)
    ensures forall i :: 0 <= i < |u| ==> u[i] in s
    ensures forall i :: 0 <= i < |s| ==> s[i] in u
    decreases |s|
  {
    if s == [] then []
    else
      var init := s[..|s| - 1];
      var x := s[|s| - 1];
      var u := Unique(init);
      assert s == init + [x];
      if x in u then u else u + [x]
  }

  /** The values of `Unique(s)` come in the order of their first occurrence in `s`. */
  lemma {:induction false} UniqueFirstOccurrenceOrder<T>(s: seq<T>, i: nat, j: nat)
    requires i < j < |Unique(s)|
    ensures FirstIndex(s, Unique(s)[i]) < FirstIndex(s, Unique(s)[j])
    decreases |s|
  {
    var n := |s|;
    var init := s[..n - 1];
    var x := s[n - 1];
    var u' := Unique(init);
    var u := Unique(s);
    assert s == init + [x];
    if j < |u'| {
      assert u[i] == u'[i] && u[j] == u'[j];
      UniqueFirstOccurrenceOrder(init, i, j);
      FirstIndexOfPrefix(init, x, u'[i]);
      FirstIndexOfPrefix(init, x, u'[j]);
    } else {
      assert x !in u' && u == u' + [x] && u[j] == x;
      assert x !in init;
      FirstIndexUnique(s, x, n - 1);
      FirstIndexOfPrefix(init, x, u'[i]);
    }
  }

  /** Appending an element does not move the first occurrence of a value
      already present. */
  lemma FirstIndexOfPrefix<T>(init: seq<T>, x: T, y: T)
    requires y in init
    ensures y in init + [x] && FirstIndex(init + [x], y) == FirstIndex(init, y)
  {
    var k := FirstIndex(init, y);
    assert (init + [x])[..k] == init[..k];
    FirstIndexUnique(init + [x], y, k);
  }
}
