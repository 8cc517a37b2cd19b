/** The two array helpers: the comparator factory `by` and the bucketing
    function `splitBy`, with the stable sort the folder-tree builder runs
    with `by`'s comparator. */
module ArrayUtils {
  import opened Seqs

  // --- by ---

  /** `by(evaluate)(a, b)` as written. The second test (`bval > aval`)
      repeats the first with its sides swapped, so the comparator answers -1
      when `a` evaluates lower and 0 otherwise; it never answers 1. */
  function By<T>(evaluate: T -> int, a: T, b: T): (r: int)
    ensures r == -1 <==> evaluate(a) < evaluate(b)
    ensures r == 0 <==> evaluate(a) >= evaluate(b)
  {
    var aval := evaluate(a);
    var bval := evaluate(b);
    if aval < bval then -1
    else if bval > aval then 1
    else 0
  }

  /** The comparator `by` is meant to be: -1, 1 or 0 as `a` evaluates
      lower than, higher than or equal to `b`. */
  function ByIntended<T>(evaluate: T -> int, a: T, b: T): (r: int)
    ensures r == -1 <==> evaluate(a) < evaluate(b)
    ensures r == 1 <==> evaluate(a) > evaluate(b)
    ensures r == 0 <==> evaluate(a) == evaluate(b)
  {
    var aval := evaluate(a);
    var bval := evaluate(b);
    if aval < bval then -1
    else if aval > bval then 1
    else 0
  }

  /** A sort may rely on its comparator answering `cmp(a, b) < 0` exactly
      when `cmp(b, a) > 0`. `by` as written breaks this: by length, `""`
      compares below `"a"`, yet `"a"` does not compare above `""`. */
  lemma ByIsInconsistent()
    ensures By((s: string) => |s|, "", "a") < 0
    ensures !(By((s: string) => |s|, "a", "") > 0)
  {
    var len := (s: string) => |s|;
    assert len("") == 0 && len("a") == 1;
  }

  /** The intended comparator keeps that law, and it answers "negative"
      exactly when `by` as written does: a sort that only asks whether the
      answer is negative orders alike with either. */
  lemma ByIntendedIsConsistent<T>(evaluate: T -> int, a: T, b: T)
    ensures ByIntended(evaluate, a, b) < 0 <==> ByIntended(evaluate, b, a) > 0
    ensures ByIntended(evaluate, a, b) == 0 <==> ByIntended(evaluate, b, a) == 0
    ensures ByIntended(evaluate, a, b) < 0 <==> By(evaluate, a, b) < 0
  {
  }

  // --- sorting with `by` ---

  /** Inserts `x` behind every element of `sorted` that the comparator does
      not put after `x`: an element moves past `x` only when `x` compares
      below it. This uses only the question "is the comparator's answer
      negative", on which `by` as written and the intended comparator agree
      (`ByIntendedIsConsistent`). */
  function Insert<T>(evaluate: T -> int, sorted: seq<T>, x: T): seq<T>
  {
    if sorted == [] || ByIntended(evaluate, x, sorted[|sorted| - 1]) >= 0 then sorted + [x]
    else Insert(evaluate, sorted[..|sorted| - 1], x) + [sorted[|sorted| - 1]]
  }

  /** `xs.sort(by(evaluate))` for a stable sort. */
  function SortBy<T>(evaluate: T -> int, xs: seq<T>): seq<T>
  {
    if xs == [] then [] else Insert(evaluate, SortBy(evaluate, xs[..|xs| - 1]), xs[|xs| - 1])
  }

  /** Sorted by `evaluate`, ascending. */
  ghost predicate SortedBy<T>(evaluate: T -> int, s: seq<T>) {
    forall i, j :: 0 <= i < j < |s| ==> evaluate(s[i]) <= evaluate(s[j])
  }

  /** `array.sort(by(evaluate))` in place: the array ends up holding the
      stable sort of its old contents. */
  method SortInPlace<T>(a: array<T>, evaluate: T -> int)
    modifies a
    ensures a[..] == SortBy(evaluate, old(a[..]))
  {
    ghost var input := a[..];
    for i := 0 to a.Length
      invariant a[..i] == SortBy(evaluate, input[..i])
      invariant a[i..] == input[i..]
    {
      assert input[..i + 1] == input[..i] + [input[i]];
      InsertInPlace(a, i, evaluate);
    }
    assert input[..a.Length] == input;
  }

  /** One step of the insertion sort: moves `a[i]` left past every element
      of the sorted prefix `a[..i]` that it compares below. */
  method InsertInPlace<T>(a: array<T>, i: nat, evaluate: T -> int)
    requires i < a.Length
    modifies a
    ensures a[..i + 1] == Insert(evaluate, old(a[..i]), old(a[i]))
    ensures a[i + 1..] == old(a[i + 1..])
  {
    ghost var o := a[..];
    ghost var sorted := a[..i];
    var x := a[i];
    var j := ShiftGreater(a, i, x, evaluate);
    InsertStop(evaluate, sorted, j, x);
    ghost var shifted := a[..];
    a[j] := x;
    assert a[..] == shifted[j := x];
    Placed(o, i, j, x);
  }

  /** The inner loop of the insertion: moves the elements of the sorted
      prefix `a[..i]` that `x` compares below one slot to the right
      (the first of them stays behind as well), and answers the slot left
      for `x`. */
  method ShiftGreater<T>(a: array<T>, i: nat, x: T, evaluate: T -> int) returns (j: nat)
    requires i < a.Length
    modifies a
    ensures j <= i
    ensures a[..] == Shifted(old(a[..]), i, j)
    ensures j == 0 || ByIntended(evaluate, x, old(a[..])[j - 1]) >= 0
    ensures Insert(evaluate, old(a[..i]), x) == Insert(evaluate, old(a[..i])[..j], x) + old(a[..i])[j..]
  {
    ghost var o := a[..];
    ghost var sorted := a[..i];
    j := i;
    assert sorted[..j] == sorted && sorted[j..] == [];
    assert o == Shifted(o, i, i);
    while j > 0 && ByIntended(evaluate, x, a[j - 1]) < 0
      invariant 0 <= j <= i
      invariant a[..] == Shifted(o, i, j)
      invariant Insert(evaluate, sorted, x) == Insert(evaluate, sorted[..j], x) + sorted[j..]
    {
      InsertShift(evaluate, sorted, j, x);
      ShiftStep(o, i, j);
      ghost var before := a[..];
      a[j] := a[j - 1];
      assert a[..] == before[j := o[j - 1]];
      j := j - 1;
    }
  }

  /** The array while `ShiftGreater` runs: `o` with `o[j..i]` moved one
      slot right, and `o[j]` still in place as well. */
  ghost function Shifted<T>(o: seq<T>, i: nat, j: nat): (r: seq<T>)
    requires j <= i < |o|
    ensures |r| == |o|
  {
    o[..j + 1] + o[j..i] + o[i + 1..]
  }

  /** One shift step: copying slot `j - 1` over slot `j`. */
  lemma ShiftStep<T>(o: seq<T>, i: nat, j: nat)
    requires 0 < j <= i < |o|
    ensures Shifted(o, i, j)[j - 1] == o[j - 1]
    ensures Shifted(o, i, j)[j := o[j - 1]] == Shifted(o, i, j - 1)
  {
    var lhs := (o[..j + 1] + o[j..i] + o[i + 1..])[j := o[j - 1]];
    var rhs := o[..j] + o[j - 1..i] + o[i + 1..];
    forall k | 0 <= k < |lhs|
      ensures lhs[k] == rhs[k]
    {
      if k <= j {
      } else if k <= i {
        assert lhs[k] == o[k - 1];
      } else {
        assert lhs[k] == o[k];
      }
    }
  }

  /** Placing `x` in the slot the shift left gives the insertion of `x`
      into the sorted prefix, with the rest of the array unchanged. */
  lemma Placed<T>(o: seq<T>, i: nat, j: nat, x: T)
    requires j <= i < |o|
    ensures Shifted(o, i, j)[j := x][..i + 1] == o[..i][..j] + [x] + o[..i][j..]
    ensures Shifted(o, i, j)[j := x][i + 1..] == o[i + 1..]
  {
    var placed := Shifted(o, i, j)[j := x];
    var inserted := o[..i][..j] + [x] + o[..i][j..];
    forall k | 0 <= k <= i
      ensures placed[k] == inserted[k]
    {
      if k < j {
        assert inserted[k] == o[k];
      } else if j < k {
        assert inserted[k] == o[k - 1];
      }
    }
    forall k | i < k < |o|
      ensures placed[k] == o[k]
    {
    }
  }

  lemma InsertShift<T>(evaluate: T -> int, s: seq<T>, j: nat, x: T)
    requires 0 < j <= |s| && ByIntended(evaluate, x, s[j - 1]) < 0
    ensures Insert(evaluate, s[..j], x) + s[j..] == Insert(evaluate, s[..j - 1], x) + s[j - 1..]
  {
    assert s[..j][..j - 1] == s[..j - 1];
    assert s[j - 1..] == [s[j - 1]] + s[j..];
  }

  lemma InsertStop<T>(evaluate: T -> int, s: seq<T>, j: nat, x: T)
    requires j <= |s| && (j == 0 || ByIntended(evaluate, x, s[j - 1]) >= 0)
    ensures Insert(evaluate, s[..j], x) == s[..j] + [x]
  {
  }

  /** The sort's result is sorted. */
  lemma {:induction false} SortByIsSorted<T>(evaluate: T -> int, xs: seq<T>)
    ensures SortedBy(evaluate, SortBy(evaluate, xs))
  {
    if xs != [] {
      SortByIsSorted(evaluate, xs[..|xs| - 1]);
      InsertKeepsSorted(evaluate, SortBy(evaluate, xs[..|xs| - 1]), xs[|xs| - 1]);
    }
  }

  lemma {:induction false} InsertPermutation<T>(evaluate: T -> int, sorted: seq<T>, x: T)
    ensures multiset(Insert(evaluate, sorted, x)) == multiset(sorted) + multiset{x}
  {
    if sorted != [] && ByIntended(evaluate, x, sorted[|sorted| - 1]) < 0 {
      var init, last := sorted[..|sorted| - 1], sorted[|sorted| - 1];
      InsertPermutation(evaluate, init, x);
      assert sorted == init + [last];
    }
  }

  lemma {:induction false} InsertKeepsSorted<T>(evaluate: T -> int, sorted: seq<T>, x: T)
    requires SortedBy(evaluate, sorted)
    ensures SortedBy(evaluate, Insert(evaluate, sorted, x))
  {
    if sorted != [] && ByIntended(evaluate, x, sorted[|sorted| - 1]) < 0 {
      var init, last := sorted[..|sorted| - 1], sorted[|sorted| - 1];
      InsertKeepsSorted(evaluate, init, x);
      InsertPermutation(evaluate, init, x);
      var r := Insert(evaluate, init, x);
      forall k | 0 <= k < |r|
        ensures evaluate(r[k]) <= evaluate(last)
      {
        assert r[k] in multiset(r);
        if r[k] != x {
          var m :| 0 <= m < |init| && init[m] == r[k];
          assert sorted[m] == r[k];
        }
      }
      assert Insert(evaluate, sorted, x) == r + [last];
    }
  }

  /** The sort's result is a permutation of its input. */
  lemma {:induction false} SortByIsPermutation<T>(evaluate: T -> int, xs: seq<T>)
    ensures multiset(SortBy(evaluate, xs)) == multiset(xs)
  {
    if xs != [] {
      var init := xs[..|xs| - 1];
      SortByIsPermutation(evaluate, init);
      InsertPermutation(evaluate, SortBy(evaluate, init), xs[|xs| - 1]);
      assert xs == init + [xs[|xs| - 1]];
    }
  }

  /** Inserting keeps the relative order of the elements that evaluate to
      one value: `x` lands behind all of them. */
  lemma {:induction false} InsertStable<T>(evaluate: T -> int, p: T -> bool, v: int, sorted: seq<T>, x: T)
    requires forall y :: p(y) == (evaluate(y) == v)
    ensures Filter(p, Insert(evaluate, sorted, x)) == Filter(p, sorted) + Filter(p, [x])
  {
    if sorted == [] || ByIntended(evaluate, x, sorted[|sorted| - 1]) >= 0 {
      FilterAppend(p, sorted, [x]);
    } else {
      var init, last := sorted[..|sorted| - 1], sorted[|sorted| - 1];
      InsertStable(evaluate, p, v, init, x);
      FilterAppend(p, Insert(evaluate, init, x), [last]);
      FilterAppend(p, init, [last]);
      assert sorted == init + [last];
    }
  }

  /** The sort is stable: the elements that evaluate to one value keep their
      input order. */
  lemma {:induction false} SortByStable<T>(evaluate: T -> int, p: T -> bool, v: int, xs: seq<T>)
    requires forall y :: p(y) == (evaluate(y) == v)
    ensures Filter(p, SortBy(evaluate, xs)) == Filter(p, xs)
  {
    if xs != [] {
      var init, last := xs[..|xs| - 1], xs[|xs| - 1];
      SortByStable(evaluate, p, v, init);
      InsertStable(evaluate, p, v, SortBy(evaluate, init), last);
      FilterAppend(p, init, [last]);
      assert xs == init + [last];
    }
  }

  /** Sorting a list that is already in ascending order leaves it as it is. */
  lemma {:induction false} SortByOfSorted<T>(evaluate: T -> int, xs: seq<T>)
    requires SortedBy(evaluate, xs)
    ensures SortBy(evaluate, xs) == xs
  {
    if xs != [] {
      var init := xs[..|xs| - 1];
      assert SortedBy(evaluate, init);
      SortByOfSorted(evaluate, init);
      assert xs == init + [xs[|xs| - 1]];
    }
  }

  /** `["aa", "", "a"].sort(by(s => s.length))` is `["", "a", "aa"]`. */
  lemma SortByLengthExample()
    ensures SortBy((s: string) => |s|, ["aa", "", "a"]) == ["", "a", "aa"]
  {
    var len := (s: string) => |s|;
    assert ["aa", "", "a"][..2] == ["aa", ""];
    assert ["aa", ""][..1] == ["aa"];
    assert SortBy(len, ["aa"]) == ["aa"];
    assert Insert(len, ["aa"], "") == Insert(len, [], "") + ["aa"];
    assert SortBy(len, ["aa", ""]) == ["", "aa"];
    assert Insert(len, [""], "a") == ["", "a"];
    assert Insert(len, ["", "aa"], "a") == Insert(len, [""], "a") + ["aa"];
  }

  // --- splitBy ---

  /** The keys of `xs`, each once, in the order in which they first occur
      (the insertion order of the `Map` that `splitBy` fills). The bucket
      function is called as `bucketFn(el, 0)`, as the source calls it. */
  function Keys<T, K(==)>(bucketFn: (T, int) -> K, xs: seq<T>): seq<K>
  {
    if xs == [] then []
    else
      var ks := Keys(bucketFn, xs[..|xs| - 1]);
      var k := bucketFn(xs[|xs| - 1], 0);
      if k in ks then ks else ks + [k]
  }

  /** The elements of `xs` whose key is `k`, in input order. */
  function Bucket<T, K(==)>(bucketFn: (T, int) -> K, xs: seq<T>, k: K): seq<T>
  {
    if xs == [] then []
    else Bucket(bucketFn, xs[..|xs| - 1], k) + (if bucketFn(xs[|xs| - 1], 0) == k then [xs[|xs| - 1]] else [])
  }

  /** What `splitBy(bucketFn)(xs)` returns: one bucket per key, in
      first-occurrence order. */
  function Buckets<T, K(==)>(bucketFn: (T, int) -> K, xs: seq<T>): seq<seq<T>>
  {
    var ks := Keys(bucketFn, xs);
    seq(|ks|, i requires 0 <= i < |ks| => Bucket(bucketFn, xs, ks[i]))
  }

  /** An empty list makes no buckets. */
  lemma BucketsEmpty<T, K>(bucketFn: (T, int) -> K)
    ensures Buckets(bucketFn, []) == []
  {
  }

  /** A one-element list makes one bucket holding it. */
  lemma BucketsSingle<T, K>(bucketFn: (T, int) -> K, x: T)
    ensures Buckets(bucketFn, [x]) == [[x]]
  {
    assert [x][..0] == [];
    assert Keys(bucketFn, [x]) == [bucketFn(x, 0)];
    assert Bucket(bucketFn, [x], bucketFn(x, 0)) == [x];
  }

  /** `splitBy(bucketFn)(array)`: one pass over the array that appends each
      element to the bucket of its key in an insertion-ordered map, then the
      map's values in insertion order. The map is the pair of its key order
      `keys` and its contents `buckets`. */
  method SplitBy<T, K(==)>(bucketFn: (T, int) -> K, elements: seq<T>) returns (result: seq<seq<T>>)
    ensures result == Buckets(bucketFn, elements)
  {
    var keys: seq<K> := [];
    var buckets: map<K, seq<T>> := map[];
    for i := 0 to |elements|
      invariant keys == Keys(bucketFn, elements[..i])
      invariant forall k :: k in buckets <==> k in keys
      invariant forall k :: k in keys ==> buckets[k] == Bucket(bucketFn, elements[..i], k)
    {
      var el := elements[i];
      var key := bucketFn(el, 0);
      assert elements[..i + 1][..i] == elements[..i] && elements[..i + 1][i] == el;
      if key in buckets {
        buckets := buckets[key := buckets[key] + [el]];
      } else {
        BucketOfAbsentKey(bucketFn, elements[..i], key);
        keys := keys + [key];
        buckets := buckets[key := [el]];
      }
    }
    assert elements[..|elements|] == elements;
    result := seq(|keys|, j requires 0 <= j < |keys| => buckets[keys[j]]);
  }

  /** A key that does not occur has an empty bucket. */
  lemma {:induction false} BucketOfAbsentKey<T, K>(bucketFn: (T, int) -> K, xs: seq<T>, k: K)
    requires k !in Keys(bucketFn, xs)
    ensures Bucket(bucketFn, xs, k) == []
  {
    if xs != [] {
      BucketOfAbsentKey(bucketFn, xs[..|xs| - 1], k);
    }
  }

  /** Every key occurs, and its bucket holds exactly the elements with that
      key; keys are listed once each. */
  lemma {:induction false} KeysFacts<T, K>(bucketFn: (T, int) -> K, xs: seq<T>)
    ensures forall i :: 0 <= i < |xs| ==> bucketFn(xs[i], 0) in Keys(bucketFn, xs)
    ensures forall k :: k in Keys(bucketFn, xs) ==> Bucket(bucketFn, xs, k) != []
    ensures forall i, j :: 0 <= i < j < |Keys(bucketFn, xs)| ==> Keys(bucketFn, xs)[i] != Keys(bucketFn, xs)[j]
  {
    if xs != [] {
      var init := xs[..|xs| - 1];
      KeysFacts(bucketFn, init);
      forall i | 0 <= i < |xs| - 1
        ensures bucketFn(xs[i], 0) in Keys(bucketFn, xs)
      {
        assert xs[i] == init[i];
      }
    }
  }

  /** Every element of a bucket has the bucket's key and comes from the input. */
  lemma {:induction false} BucketMembers<T, K>(bucketFn: (T, int) -> K, xs: seq<T>, k: K)
    ensures forall y :: y in Bucket(bucketFn, xs, k) ==> bucketFn(y, 0) == k && y in xs
  {
    if xs != [] {
      BucketMembers(bucketFn, xs[..|xs| - 1], k);
    }
  }

  /** A bucket is the input filtered by its key, so it keeps input order. */
  lemma {:induction false} BucketIsFilter<T, K>(bucketFn: (T, int) -> K, p: T -> bool, xs: seq<T>, k: K)
    requires forall y :: p(y) == (bucketFn(y, 0) == k)
    ensures Bucket(bucketFn, xs, k) == Filter(p, xs)
  {
    if xs != [] {
      var init, last := xs[..|xs| - 1], xs[|xs| - 1];
      BucketIsFilter(bucketFn, p, init, k);
      FilterSnoc(p, xs);
    }
  }

  /** How one more element changes the buckets: a new key opens a bucket
      at the end, a known key's bucket grows by the element. */
  lemma BucketsSnoc<T, K>(bucketFn: (T, int) -> K, xs: seq<T>, x: T)
    ensures var ks := Keys(bucketFn, xs);
            var k := bucketFn(x, 0);
            var bs := Buckets(bucketFn, xs);
            var bs' := Buckets(bucketFn, xs + [x]);
            (k !in ks ==> bs' == bs + [[x]]) &&
            (forall j :: 0 <= j < |ks| && ks[j] == k ==> bs' == bs[j := bs[j] + [x]])
  {
    var xs' := xs + [x];
    assert xs'[..|xs'| - 1] == xs;
    var k := bucketFn(x, 0);
    var ks := Keys(bucketFn, xs);
    var bs, bs' := Buckets(bucketFn, xs), Buckets(bucketFn, xs');
    assert forall k' :: Bucket(bucketFn, xs', k') == Bucket(bucketFn, xs, k') + (if k == k' then [x] else []);
    if k !in ks {
      BucketOfAbsentKey(bucketFn, xs, k);
      assert Keys(bucketFn, xs') == ks + [k];
      assert |bs'| == |bs| + 1;
      forall i | 0 <= i < |ks|
        ensures bs'[i] == bs[i]
      {
        assert (ks + [k])[i] == ks[i] != k;
      }
      assert bs'[|ks|] == Bucket(bucketFn, xs', k) == [x];
      assert bs' == bs + [[x]];
    } else {
      KeysFacts(bucketFn, xs);
      assert Keys(bucketFn, xs') == ks;
      forall j | 0 <= j < |ks| && ks[j] == k
        ensures bs' == bs[j := bs[j] + [x]]
      {
        forall i | 0 <= i < |ks|
          ensures bs'[i] == bs[j := bs[j] + [x]][i]
        {
          if i != j {
            assert ks[i] != k;
          }
        }
      }
    }
  }

  lemma {:induction false} FlattenGrow<T>(bs: seq<seq<T>>, j: nat, x: T)
    requires j < |bs|
    ensures multiset(Flatten(bs[j := bs[j] + [x]])) == multiset(Flatten(bs)) + multiset{x}
  {
    if j > 0 {
      FlattenGrow(bs[1..], j - 1, x);
      assert bs[j := bs[j] + [x]][1..] == bs[1..][j - 1 := bs[1..][j - 1] + [x]];
    } else {
      assert bs[0 := bs[0] + [x]][1..] == bs[1..];
    }
  }

  /** Concatenating the buckets gives back the input's elements, each as
      often as it occurs: every element lands in exactly one bucket. */
  lemma {:induction false} BucketsPartition<T, K>(bucketFn: (T, int) -> K, xs: seq<T>)
    ensures multiset(Flatten(Buckets(bucketFn, xs))) == multiset(xs)
  {
    if xs != [] {
      var init, last := xs[..|xs| - 1], xs[|xs| - 1];
      BucketsPartition(bucketFn, init);
      BucketsGrow(bucketFn, xs);
      MultisetSnoc(xs);
    } else {
      assert Buckets(bucketFn, xs) == [];
    }
  }

  /** Appending an element to the input adds exactly that element to the
      buckets' contents. */
  lemma BucketsGrow<T, K>(bucketFn: (T, int) -> K, xs: seq<T>)
    requires xs != []
    ensures multiset(Flatten(Buckets(bucketFn, xs)))
         == multiset(Flatten(Buckets(bucketFn, xs[..|xs| - 1]))) + multiset{xs[|xs| - 1]}
  {
    var init, x := xs[..|xs| - 1], xs[|xs| - 1];
    assert xs == init + [x];
    BucketsSnoc(bucketFn, init, x);
    var ks, k := Keys(bucketFn, init), bucketFn(x, 0);
    var bs, bs' := Buckets(bucketFn, init), Buckets(bucketFn, xs);
    if k in ks {
      var j :| 0 <= j < |ks| && ks[j] == k;
      assert bs' == bs[j := bs[j] + [x]];
      FlattenGrow(bs, j, x);
    } else {
      assert bs' == bs + [[x]];
      FlattenAppend(bs, [[x]]);
      assert Flatten([[x]]) == [x];
    }
  }

  /** The properties `splitBy` promises: no bucket is empty, each holds only
      elements of its own key, in input order, the keys of different buckets
      differ, and together the buckets hold the input exactly once. */
  lemma BucketsProperties<T, K>(bucketFn: (T, int) -> K, xs: seq<T>)
    ensures var bs := Buckets(bucketFn, xs);
            && (xs == [] ==> bs == [])
            && multiset(Flatten(bs)) == multiset(xs)
            && (forall i :: 0 <= i < |bs| ==> bs[i] != [])
            && (forall i, y :: 0 <= i < |bs| && y in bs[i] ==> bucketFn(y, 0) == Keys(bucketFn, xs)[i])
            && (forall i, j :: 0 <= i < j < |bs| ==> bucketFn(bs[i][0], 0) != bucketFn(bs[j][0], 0))
  {
    var bs := Buckets(bucketFn, xs);
    var ks := Keys(bucketFn, xs);
    BucketsPartition(bucketFn, xs);
    KeysFacts(bucketFn, xs);
    forall i | 0 <= i < |bs|
      ensures forall y :: y in bs[i] ==> bucketFn(y, 0) == ks[i]
    {
      BucketMembers(bucketFn, xs, ks[i]);
    }
    forall i, j | 0 <= i < j < |bs|
      ensures bucketFn(bs[i][0], 0) != bucketFn(bs[j][0], 0)
    {
      assert bs[i][0] in bs[i] && bs[j][0] in bs[j];
    }
  }

  /** A bucket of a sorted list is sorted: grouping after sorting keeps
      each group in ascending order. */
  lemma {:induction false} BucketOfSortedIsSorted<T, K>(evaluate: T -> int, bucketFn: (T, int) -> K, xs: seq<T>, k: K)
    requires SortedBy(evaluate, xs)
    ensures SortedBy(evaluate, Bucket(bucketFn, xs, k))
  {
    if xs != [] {
      var init, last := xs[..|xs| - 1], xs[|xs| - 1];
      assert SortedBy(evaluate, init);
      BucketOfSortedIsSorted(evaluate, bucketFn, init, k);
      BucketMembers(bucketFn, init, k);
      var b := Bucket(bucketFn, init, k);
      forall y | y in b
        ensures evaluate(y) <= evaluate(last)
      {
        var i :| 0 <= i < |init| && init[i] == y;
        assert xs[i] == y;
      }
    }
  }

  /** Index of the first element of `xs` whose key is `k` (`|xs|` if none). */
  function FirstIndex<T, K(==)>(bucketFn: (T, int) -> K, xs: seq<T>, k: K): (r: nat)
    ensures r <= |xs|
    ensures r < |xs| ==> bucketFn(xs[r], 0) == k
    ensures forall i :: 0 <= i < r ==> bucketFn(xs[i], 0) != k
  {
    if xs == [] then 0
    else if bucketFn(xs[0], 0) == k then 0
    else 1 + FirstIndex(bucketFn, xs[1..], k)
  }

  /** Buckets come in the order in which their keys first occur. */
  lemma {:induction false} KeysInFirstOccurrenceOrder<T, K>(bucketFn: (T, int) -> K, xs: seq<T>)
    ensures forall i :: 0 <= i < |Keys(bucketFn, xs)| ==> FirstIndex(bucketFn, xs, Keys(bucketFn, xs)[i]) < |xs|
    ensures forall i, j :: 0 <= i < j < |Keys(bucketFn, xs)| ==>
      FirstIndex(bucketFn, xs, Keys(bucketFn, xs)[i]) < FirstIndex(bucketFn, xs, Keys(bucketFn, xs)[j])
  {
    if xs != [] {
      var init, last := xs[..|xs| - 1], xs[|xs| - 1];
      KeysInFirstOccurrenceOrder(bucketFn, init);
      var ks := Keys(bucketFn, init);
      forall i | 0 <= i < |ks|
        ensures FirstIndex(bucketFn, xs, ks[i]) == FirstIndex(bucketFn, init, ks[i]) < |init|
      {
        FirstIndexSnoc(bucketFn, xs, ks[i]);
      }
      var k := bucketFn(last, 0);
      if k !in ks {
        KeysFacts(bucketFn, init);
        FirstIndexSnoc(bucketFn, xs, k);
        assert FirstIndex(bucketFn, init, k) == |init|;
      }
    }
  }

  /** Where a key first occurs in a list with one more element at the end. */
  lemma FirstIndexSnoc<T, K>(bucketFn: (T, int) -> K, xs: seq<T>, k: K)
    requires xs != []
    ensures var init, last := xs[..|xs| - 1], xs[|xs| - 1];
      FirstIndex(bucketFn, xs, k) ==
        if FirstIndex(bucketFn, init, k) < |init| then FirstIndex(bucketFn, init, k)
        else if bucketFn(last, 0) == k then |init|
        else |xs|
  {
    var init, last := xs[..|xs| - 1], xs[|xs| - 1];
    FirstIndexExtend(bucketFn, init, [last], k);
    assert xs == init + [last];
    assert [last][1..] == [];
  }

  lemma {:induction false} FirstIndexExtend<T, K>(bucketFn: (T, int) -> K, xs: seq<T>, ys: seq<T>, k: K)
    ensures FirstIndex(bucketFn, xs + ys, k) ==
      if FirstIndex(bucketFn, xs, k) < |xs| then FirstIndex(bucketFn, xs, k)
      else |xs| + FirstIndex(bucketFn, ys, k)
  {
    if xs != [] {
      assert (xs + ys)[1..] == xs[1..] + ys;
      FirstIndexExtend(bucketFn, xs[1..], ys, k);
    } else {
      assert xs + ys == ys;
    }
  }

  /** The test vectors: bucketing strings by length. */
  lemma SplitByLengthExamples()
    ensures Buckets((s: string, i: int) => |s|, ["aa", "a", "b"]) == [["aa"], ["a", "b"]]
  {
    var len := (s: string, i: int) => |s|;
    var xs: seq<string> := ["aa", "a", "b"];
    assert xs[..2] == ["aa", "a"] && xs[..2][..1] == ["aa"] && xs[..1] == ["aa"];
    assert Keys(len, ["aa"]) == [2];
    assert Keys(len, ["aa", "a"]) == [2, 1];
    assert Keys(len, xs) == [2, 1];
    assert Bucket(len, ["aa"], 2) == ["aa"];
    assert Bucket(len, ["aa", "a"], 2) == ["aa"];
    assert Bucket(len, xs, 2) == ["aa"];
    assert Bucket(len, ["aa"], 1) == [];
    assert Bucket(len, ["aa", "a"], 1) == ["a"];
    assert Bucket(len, xs, 1) == ["a", "b"];
  }
}
