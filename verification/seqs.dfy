/** Counting and filtering over sequences: the list comprehensions
    `[x for x in xs if p(x)]`, `len(...)`, `[0]` and `[-1]` that both scripts
    use to scan lines and result files. */
module Seqs {

  /** Number of elements of `xs` that satisfy `p`. */
  function Count<T>(xs: seq<T>, p: T -> bool): (n: nat)
    ensures n <= |xs|
  {
    if |xs| == 0 then 0
    else Count(xs[..|xs| - 1], p) + (if p(xs[|xs| - 1]) then 1 else 0)
  }

  /** Nothing is counted exactly when no element satisfies `p`. */
  lemma {:induction false} CountZero<T>(xs: seq<T>, p: T -> bool)
    ensures Count(xs, p) == 0 <==> forall i :: 0 <= i < |xs| ==> !p(xs[i])
    decreases |xs|
  {
    if |xs| > 0 {
      var init := xs[..|xs| - 1];
      CountZero(init, p);
      assert forall i :: 0 <= i < |init| ==> init[i] == xs[i];
    }
  }

  /** Everything is counted exactly when every element satisfies `p`. */
  lemma {:induction false} CountAll<T>(xs: seq<T>, p: T -> bool)
    ensures Count(xs, p) == |xs| <==> forall i :: 0 <= i < |xs| ==> p(xs[i])
    decreases |xs|
  {
    if |xs| > 0 {
      var init := xs[..|xs| - 1];
      CountAll(init, p);
      assert forall i :: 0 <= i < |init| ==> init[i] == xs[i];
    }
  }

  /** The comprehension `[x for x in xs if p(x)]`: the elements satisfying
      `p`, in their original order. */
  function Filter<T>(xs: seq<T>, p: T -> bool): (r: seq<T>)
    ensures |r| == Count(xs, p)
    ensures forall i :: 0 <= i < |r| ==> p(r[i])
  {
    if |xs| == 0 then []
    else
      var init := xs[..|xs| - 1];
      assert xs == init + [xs[|xs| - 1]];
      Filter(init, p) + (if p(xs[|xs| - 1]) then [xs[|xs| - 1]] else [])
  }

  /** `i` is the position of the first element of `xs` satisfying `p`. */
  ghost predicate IsFirstMatch<T>(xs: seq<T>, p: T -> bool, i: int) {
    0 <= i < |xs| && p(xs[i]) && forall j :: 0 <= j < i ==> !p(xs[j])
  }

  /** `i` is the position of the last element of `xs` satisfying `p`. */
  ghost predicate IsLastMatch<T>(xs: seq<T>, p: T -> bool, i: int) {
    0 <= i < |xs| && p(xs[i]) && forall j :: i < j < |xs| ==> !p(xs[j])
  }

  /** Extending a prefix by one element adds that element's contribution. */
  lemma CountPrefixStep<T>(xs: seq<T>, k: int, p: T -> bool)
    requires 0 <= k < |xs|
    ensures Count(xs[..k + 1], p) == Count(xs[..k], p) + (if p(xs[k]) then 1 else 0)
  {
    assert xs[..k + 1][..k] == xs[..k];
  }

  /** Counting distributes over concatenation. */
  lemma {:induction false} CountAppend<T>(a: seq<T>, b: seq<T>, p: T -> bool)
    ensures Count(a + b, p) == Count(a, p) + Count(b, p)
    decreases |b|
  {
    if |b| == 0 {
      assert a + b == a;
    } else {
      var ab := a + b;
      assert ab[..|ab| - 1] == a + b[..|b| - 1];
      assert ab[|ab| - 1] == b[|b| - 1];
      CountAppend(a, b[..|b| - 1], p);
    }
  }

  /** Filtering distributes over concatenation. */
  lemma {:induction false} FilterAppend<T>(a: seq<T>, b: seq<T>, p: T -> bool)
    ensures Filter(a + b, p) == Filter(a, p) + Filter(b, p)
    decreases |b|
  {
    if |b| == 0 {
      assert a + b == a;
    } else {
      var ab := a + b;
      assert ab[..|ab| - 1] == a + b[..|b| - 1];
      var last := b[|b| - 1];
      assert ab[|ab| - 1] == last;
      var tail: seq<T> := if p(last) then [last] else [];
      FilterAppend(a, b[..|b| - 1], p);
      calc {
        Filter(ab, p);
        Filter(a + b[..|b| - 1], p) + tail;
        Filter(a, p) + Filter(b[..|b| - 1], p) + tail;
        Filter(a, p) + (Filter(b[..|b| - 1], p) + tail);
        Filter(a, p) + Filter(b, p);
      }
    }
  }

  /** An element survives filtering exactly when it occurs in the input and
      satisfies the predicate. */
  lemma {:induction false} FilterMembership<T>(xs: seq<T>, p: T -> bool, x: T)
    ensures x in Filter(xs, p) <==> x in xs && p(x)
    decreases |xs|
  {
    if |xs| > 0 {
      var init := xs[..|xs| - 1];
      FilterMembership(init, p, x);
      assert xs == init + [xs[|xs| - 1]];
    }
  }

  /** Filtering a sequence whose every element passes keeps it whole. */
  lemma {:induction false} FilterKeepsAll<T>(xs: seq<T>, p: T -> bool)
    requires forall i :: 0 <= i < |xs| ==> p(xs[i])
    ensures Filter(xs, p) == xs
    decreases |xs|
  {
    if |xs| > 0 {
      var init := xs[..|xs| - 1];
      FilterKeepsAll(init, p);
      assert xs == init + [xs[|xs| - 1]];
    }
  }

  /** The head of the filtered list is the first matching element. */
  lemma {:induction false} FilterHeadIsFirstMatch<T>(xs: seq<T>, p: T -> bool)
    requires |Filter(xs, p)| > 0
    ensures exists i :: IsFirstMatch(xs, p, i) && Filter(xs, p)[0] == xs[i]
    decreases |xs|
  {
    var init := xs[..|xs| - 1];
    if |Filter(init, p)| > 0 {
      FilterHeadIsFirstMatch(init, p);
      var i :| IsFirstMatch(init, p, i) && Filter(init, p)[0] == init[i];
      assert IsFirstMatch(xs, p, i);
    } else {
      CountZero(init, p);
      assert IsFirstMatch(xs, p, |xs| - 1);
    }
  }

  /** The last element of the filtered list is the last matching element. */
  lemma {:induction false} FilterLastIsLastMatch<T>(xs: seq<T>, p: T -> bool)
    requires |Filter(xs, p)| > 0
    ensures exists i :: IsLastMatch(xs, p, i) && Filter(xs, p)[|Filter(xs, p)| - 1] == xs[i]
    decreases |xs|
  {
    var init := xs[..|xs| - 1];
    if p(xs[|xs| - 1]) {
      assert Filter(xs, p) == Filter(init, p) + [xs[|xs| - 1]];
      assert IsLastMatch(xs, p, |xs| - 1);
    } else {
      assert Filter(xs, p) == Filter(init, p);
      FilterLastIsLastMatch(init, p);
      var i :| IsLastMatch(init, p, i) && Filter(init, p)[|Filter(init, p)| - 1] == init[i];
      assert IsLastMatch(xs, p, i);
    }
  }

  /** A count depends only on which elements occur how often, never on their
      order. */
  lemma {:induction false} CountPermutation<T>(xs: seq<T>, ys: seq<T>, p: T -> bool)
    requires multiset(xs) == multiset(ys)
    ensures Count(xs, p) == Count(ys, p)
    decreases |xs|
  {
    if |xs| == 0 {
      assert |ys| == |multiset(ys)| == 0;
    } else {
      var x := xs[|xs| - 1];
      var init := RemoveAt(xs, |xs| - 1, p);
      assert x in multiset(xs);
      var k := Locate(ys, x);
      var rest := RemoveAt(ys, k, p);
      CountPermutation(init, rest, p);
    }
  }

  /** A position holding an element that occurs in `ys`. */
  lemma Locate<T>(ys: seq<T>, x: T) returns (k: int)
    requires x in multiset(ys)
    ensures 0 <= k < |ys| && ys[k] == x
  {
    k :| 0 <= k < |ys| && ys[k] == x;
  }

  /** `ys` without its element at `k`: one fewer of that element, and that
      element's contribution fewer in any count. */
  lemma RemoveAt<T>(ys: seq<T>, k: int, p: T -> bool) returns (rest: seq<T>)
    requires 0 <= k < |ys|
    ensures |rest| == |ys| - 1
    ensures multiset(rest) == multiset(ys) - multiset{ys[k]}
    ensures Count(ys, p) == Count(rest, p) + (if p(ys[k]) then 1 else 0)
  {
    var x := ys[k];
    rest := ys[..k] + ys[k + 1..];
    assert ys == ys[..k] + [x] + ys[k + 1..];
    assert multiset(ys) == multiset(ys[..k]) + multiset{x} + multiset(ys[k + 1..]);
    CountAppend(ys[..k], [x], p);
    CountAppend(ys[..k] + [x], ys[k + 1..], p);
    CountAppend(ys[..k], ys[k + 1..], p);
  }
}
