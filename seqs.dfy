/** `Array.prototype.filter` and `flat`, with the facts the rest of the model
    needs about them. */
module Seqs {

  /** `xs.filter(p)`: the elements satisfying `p`, in their input order. */
  function Filter<T(==)>(p: T -> bool, xs: seq<T>): (r: seq<T>)
    ensures |r| <= |xs|
    ensures forall k :: 0 <= k < |r| ==> p(r[k]) && r[k] in xs
    ensures forall k :: 0 <= k < |xs| && p(xs[k]) ==> xs[k] in r
  {
    if xs == [] then []
    else (if p(xs[0]) then [xs[0]] else []) + Filter(p, xs[1..])
  }

  /** `xs.flat()`: the concatenation of a list of lists. */
  function Flatten<T>(xss: seq<seq<T>>): seq<T>
  {
    if xss == [] then [] else xss[0] + Flatten(xss[1..])
  }

  /** `sub` is obtained from `xs` by dropping elements, keeping the order of
      the rest. */
  predicate IsSubsequence<T(==)>(sub: seq<T>, xs: seq<T>)
    decreases |xs|
  {
    if sub == [] then true
    else if xs == [] then false
    else if sub[0] == xs[0] then IsSubsequence(sub[1..], xs[1..])
    else IsSubsequence(sub, xs[1..])
  }

  lemma {:induction false} FilterAppend<T>(p: T -> bool, xs: seq<T>, ys: seq<T>)
    ensures Filter(p, xs + ys) == Filter(p, xs) + Filter(p, ys)
  {
    if xs != [] {
      assert (xs + ys)[1..] == xs[1..] + ys;
      FilterAppend(p, xs[1..], ys);
    } else {
      assert xs + ys == ys;
    }
  }

  /** Filtering a list with one more element at the end. */
  lemma FilterSnoc<T>(p: T -> bool, xs: seq<T>)
    requires xs != []
    ensures Filter(p, xs) == Filter(p, xs[..|xs| - 1]) + (if p(xs[|xs| - 1]) then [xs[|xs| - 1]] else [])
  {
    var init, last := xs[..|xs| - 1], xs[|xs| - 1];
    FilterAppend(p, init, [last]);
    assert xs == init + [last];
    assert [last][1..] == [];
  }

  /** Filtering keeps the surviving elements in their input order. */
  lemma {:induction false} FilterIsSubsequence<T>(p: T -> bool, xs: seq<T>)
    ensures IsSubsequence(Filter(p, xs), xs)
  {
    if xs != [] {
      FilterIsSubsequence(p, xs[1..]);
      if !p(xs[0]) {
        assert Filter(p, xs) == Filter(p, xs[1..]);
        SubsequenceOfTail(Filter(p, xs[1..]), xs);
      }
    }
  }

  lemma {:induction false} SubsequenceOfTail<T>(sub: seq<T>, xs: seq<T>)
    requires xs != [] && IsSubsequence(sub, xs[1..])
    ensures IsSubsequence(sub, xs)
    decreases |xs|, |sub|
  {
    if sub != [] && sub[0] == xs[0] {
      SubsequenceDropHead(sub, xs[1..]);
    }
  }

  lemma {:induction false} SubsequenceDropHead<T>(sub: seq<T>, xs: seq<T>)
    requires sub != [] && IsSubsequence(sub, xs)
    ensures IsSubsequence(sub[1..], xs)
    decreases |xs|, |sub|
  {
    if xs != [] {
      if sub[0] == xs[0] {
        if sub[1..] != [] {
          SubsequenceOfTail(sub[1..], xs);
        }
      } else {
        SubsequenceDropHead(sub, xs[1..]);
        if sub[1..] != [] {
          SubsequenceOfTail(sub[1..], xs);
        }
      }
    }
  }

  /** Subsequences of two lists concatenate to a subsequence of their
      concatenation. */
  lemma {:induction false} SubsequenceAppend<T>(s1: seq<T>, xs1: seq<T>, s2: seq<T>, xs2: seq<T>)
    requires IsSubsequence(s1, xs1) && IsSubsequence(s2, xs2)
    ensures IsSubsequence(s1 + s2, xs1 + xs2)
    decreases |xs1|
  {
    if xs1 == [] {
      assert s1 == [];
      assert s1 + s2 == s2 && xs1 + xs2 == xs2;
    } else {
      assert (xs1 + xs2)[1..] == xs1[1..] + xs2;
      if s1 != [] && s1[0] == xs1[0] {
        SubsequenceAppend(s1[1..], xs1[1..], s2, xs2);
        assert (s1 + s2)[1..] == s1[1..] + s2;
      } else {
        SubsequenceAppend(s1, xs1[1..], s2, xs2);
        SubsequenceOfTail(s1 + s2, xs1 + xs2);
      }
    }
  }

  /** A non-empty list holds its front and its last element. */
  lemma MultisetSnoc<T>(xs: seq<T>)
    requires xs != []
    ensures multiset(xs) == multiset(xs[..|xs| - 1]) + multiset{xs[|xs| - 1]}
  {
    assert xs == xs[..|xs| - 1] + [xs[|xs| - 1]];
  }

  lemma {:induction false} FlattenAppend<T>(xss: seq<seq<T>>, yss: seq<seq<T>>)
    ensures Flatten(xss + yss) == Flatten(xss) + Flatten(yss)
  {
    if xss == [] {
      assert xss + yss == yss;
    } else {
      assert (xss + yss)[1..] == xss[1..] + yss;
      FlattenAppend(xss[1..], yss);
    }
  }

  /** No list is longer than the concatenation it is part of. */
  lemma {:induction false} FlattenGroupLength<T>(groups: seq<seq<T>>, i: nat)
    requires i < |groups|
    ensures |groups[i]| <= |Flatten(groups)|
  {
    if i > 0 {
      FlattenGroupLength(groups[1..], i - 1);
    }
  }

  /** Filtering keeps a list whose every element passes as it is. */
  lemma {:induction false} FilterAll<T>(p: T -> bool, xs: seq<T>)
    requires forall k :: 0 <= k < |xs| ==> p(xs[k])
    ensures Filter(p, xs) == xs
  {
    if xs != [] {
      FilterAll(p, xs[1..]);
    }
  }

  /** No element occurs twice. */
  predicate Distinct<T(==)>(xs: seq<T>) {
    forall i, j :: 0 <= i < j < |xs| ==> xs[i] != xs[j]
  }

  /** Filtering a list without repetitions gives one without repetitions. */
  lemma {:induction false} FilterKeepsDistinct<T>(p: T -> bool, xs: seq<T>)
    requires Distinct(xs)
    ensures Distinct(Filter(p, xs))
  {
    if xs != [] {
      var rest := Filter(p, xs[1..]);
      FilterKeepsDistinct(p, xs[1..]);
      assert xs[0] !in xs[1..];
      assert xs[0] !in rest;
    }
  }
}
