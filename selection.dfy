/** The bookmark selection: a list of selected elements, compared with a
    caller-supplied equality `eq` (`eq(a, b)` is `eq(a)(b)`). `select` takes
    one element (toggle it) or a list (add them all); `deselect` takes one
    or a list too. */
module Selection {
  import opened Wrappers
  import opened Seqs

  /** The argument of `select` and `deselect`: `T | T[]`. */
  datatype OneOrMany<T> = One(element: T) | Many(elements: seq<T>)

  /** `xs.some(p)`, and `Boolean(xs.find(p))` for elements that are records
      (always truthy). */
  function AnyMatch<T>(p: T -> bool, xs: seq<T>): (r: bool)
    ensures r <==> exists k :: 0 <= k < |xs| && p(xs[k])
  {
    if xs == [] then false else p(xs[0]) || AnyMatch(p, xs[1..])
  }

  /** `Array.from(new Set(xs).values())`: the elements of `xs`, each once,
      at its first occurrence. */
  function Dedup<T(==)>(xs: seq<T>): seq<T>
  {
    if xs == [] then []
    else
      var d := Dedup(xs[..|xs| - 1]);
      if xs[|xs| - 1] in d then d else d + [xs[|xs| - 1]]
  }

  /** The selection after `select(x)` for a single element: if some
      selected `s` has `eq(x, s)`, every such `s` is dropped; otherwise `x`
      is appended. */
  function ToggleOne<T(==)>(selected: seq<T>, x: T, eq: (T, T) -> bool): seq<T>
  {
    if AnyMatch((s: T) => eq(x, s), selected) then Filter((s: T) => !eq(x, s), selected)
    else selected + [x]
  }

  /** The selection after `deselect(toRemove)`: the elements `e` with
      `eq(e, r)` for some `r` to remove are dropped. */
  function Remove<T(==)>(selected: seq<T>, toRemove: seq<T>, eq: (T, T) -> bool): seq<T>
  {
    Filter((e: T) => !AnyMatch((r: T) => eq(e, r), toRemove), selected)
  }

  /** `Array.isArray(next) ? next : [next]` */
  function Elements<T>(next: OneOrMany<T>): seq<T> {
    match next
    case One(x) => [x]
    case Many(xs) => xs
  }

  /** `useSelection(options)`: the selection state and its actions. */
  class SelectionState<T(==)> {
    var selected: seq<T>
    const eq: (T, T) -> bool

    /** Missing options take their defaults: no initial selection, and `===`
        as the equality. */
    constructor(initialSelection: Option<seq<T>>, eq: Option<(T, T) -> bool>)
      ensures selected == (if initialSelection.Some? then initialSelection.value else [])
      ensures eq.Some? ==> this.eq == eq.value
      ensures eq.None? ==> forall a, b :: this.eq(a, b) == (a == b)
    {
      selected := if initialSelection.Some? then initialSelection.value else [];
      var identity: (T, T) -> bool := (a: T, b: T) => a == b;
      var chosen: (T, T) -> bool := if eq.Some? then eq.value else identity;
      this.eq := chosen;
    }

    /** `isSelected(element)`: some selected `s` has `eq(element, s)`. */
    predicate IsSelected(element: T)
      reads this
    {
      AnyMatch((s: T) => eq(element, s), selected)
    }

    /** `select(next)`: toggles a single element; adds a list, dropping
        repeated elements by identity (the custom `eq` plays no part). */
    method Select(next: OneOrMany<T>)
      modifies this
      ensures next.One? ==> selected == ToggleOne(old(selected), next.element, eq)
      ensures next.Many? ==> selected == Dedup(old(selected) + next.elements)
    {
      match next
      case Many(xs) =>
        selected := Dedup(selected + xs);
      case One(x) =>
        if AnyMatch((s: T) => eq(x, s), selected) {
          selected := Filter((s: T) => !eq(x, s), selected);
        } else {
          selected := selected + [x];
        }
    }

    /** `deselect(next)` */
    method Deselect(next: OneOrMany<T>)
      modifies this
      ensures selected == Remove(old(selected), Elements(next), eq)
    {
      var elementsToRemove := Elements(next);
      selected := Filter((e: T) => !AnyMatch((r: T) => eq(e, r), elementsToRemove), selected);
    }

    /** `reset()` */
    method Reset()
      modifies this
      ensures selected == []
    {
      selected := [];
    }
  }

  // --- properties of the update rules ---

  /** `isSelected` after `select(x)`: when some selected element matched
      `x`, none does afterwards and every other element stays in order;
      otherwise `x` is appended, and is selected when `eq` is reflexive. */
  lemma ToggleOneProperties<T>(selected: seq<T>, x: T, eq: (T, T) -> bool)
    ensures var r := ToggleOne(selected, x, eq);
      && (AnyMatch((s: T) => eq(x, s), selected) ==>
            && !AnyMatch((s: T) => eq(x, s), r)
            && IsSubsequence(r, selected)
            && (forall s :: s in selected && !eq(x, s) ==> s in r))
      && (!AnyMatch((s: T) => eq(x, s), selected) ==>
            r == selected + [x] && (eq(x, x) ==> AnyMatch((s: T) => eq(x, s), r)))
  {
    var r := ToggleOne(selected, x, eq);
    var keep := (s: T) => !eq(x, s);
    if AnyMatch((s: T) => eq(x, s), selected) {
      FilterIsSubsequence(keep, selected);
      forall s | s in selected && !eq(x, s)
        ensures s in r
      {
        var k :| 0 <= k < |selected| && selected[k] == s;
      }
    } else if eq(x, x) {
      assert r[|selected|] == x;
    }
  }

  /** Selecting the same element twice restores the selection, when nothing
      matched it before and `eq` is reflexive. */
  lemma SelectTwiceRestores<T>(selected: seq<T>, x: T, eq: (T, T) -> bool)
    requires eq(x, x)
    requires !AnyMatch((s: T) => eq(x, s), selected)
    ensures ToggleOne(ToggleOne(selected, x, eq), x, eq) == selected
  {
    var keep := (s: T) => !eq(x, s);
    var once := selected + [x];
    assert once[|selected|] == x;
    FilterAppend(keep, selected, [x]);
    FilterAll(keep, selected);
    assert Filter(keep, [x]) == (if keep(x) then [x] else []) + Filter(keep, []);
  }

  /** `deselect` drops exactly the elements matching one to remove: the
      rest stay, in order, and nothing is added. */
  lemma RemoveProperties<T>(selected: seq<T>, toRemove: seq<T>, eq: (T, T) -> bool)
    ensures var r := Remove(selected, toRemove, eq);
      && IsSubsequence(r, selected)
      && (forall k, j :: 0 <= k < |r| && 0 <= j < |toRemove| ==> !eq(r[k], toRemove[j]))
      && (forall s :: s in selected && (forall j :: 0 <= j < |toRemove| ==> !eq(s, toRemove[j])) ==> s in r)
  {
    var r := Remove(selected, toRemove, eq);
    var keep := (e: T) => !AnyMatch((q: T) => eq(e, q), toRemove);
    FilterIsSubsequence(keep, selected);
    forall s | s in selected && (forall j :: 0 <= j < |toRemove| ==> !eq(s, toRemove[j]))
      ensures s in r
    {
      var k :| 0 <= k < |selected| && selected[k] == s;
    }
  }

  /** `Dedup` keeps every element once, and a list that has no repetitions
      comes first in the result unchanged: adding a list never moves or
      drops what was already selected. */
  lemma {:induction false} DedupProperties<T>(xs: seq<T>)
    ensures Distinct(Dedup(xs))
    ensures forall x :: x in Dedup(xs) <==> x in xs
    ensures Distinct(xs) ==> Dedup(xs) == xs
  {
    if xs != [] {
      var init := xs[..|xs| - 1];
      DedupProperties(init);
      assert xs == init + [xs[|xs| - 1]];
      if Distinct(xs) {
        assert Distinct(init);
        assert xs[|xs| - 1] !in init;
      }
    }
  }

  /** The index of the first occurrence of `x` in `xs`, `|xs|` if none. */
  function FirstOccurrence<T(==)>(xs: seq<T>, x: T): (r: nat)
    ensures r <= |xs|
    ensures r < |xs| ==> xs[r] == x
    ensures forall i :: 0 <= i < r ==> xs[i] != x
  {
    if xs == [] then 0
    else if xs[0] == x then 0
    else 1 + FirstOccurrence(xs[1..], x)
  }

  /** Where `x` first occurs once one more element is added at the end. */
  lemma FirstOccurrenceSnoc<T>(init: seq<T>, last: T, x: T)
    ensures FirstOccurrence(init + [last], x) ==
      if x in init then FirstOccurrence(init, x)
      else if x == last then |init|
      else |init| + 1
  {
    var xs := init + [last];
    var r, q := FirstOccurrence(xs, x), FirstOccurrence(init, x);
    if x in init {
      assert xs[q] == x;
    } else if x == last {
      assert xs[|init|] == x;
      assert forall i :: 0 <= i < |init| ==> xs[i] == init[i];
    } else {
      assert forall i :: 0 <= i < |xs| ==> xs[i] != x by {
        forall i | 0 <= i < |xs| ensures xs[i] != x {
          if i < |init| { assert xs[i] == init[i]; }
        }
      }
    }
  }

  /** The elements of `d` occur in `xs`, in the order in which they first
      occur there. */
  predicate InFirstOccurrenceOrder<T(==)>(xs: seq<T>, d: seq<T>) {
    && (forall i :: 0 <= i < |d| ==> FirstOccurrence(xs, d[i]) < |xs|)
    && (forall i, j :: 0 <= i < j < |d| ==> FirstOccurrence(xs, d[i]) < FirstOccurrence(xs, d[j]))
  }

  /** `Dedup` keeps the input order: the result is a subsequence of the
      input, and its elements come in the order in which they first occur,
      as a `Set` iterates in insertion order. */
  lemma DedupOrder<T>(xs: seq<T>)
    ensures IsSubsequence(Dedup(xs), xs)
    ensures InFirstOccurrenceOrder(xs, Dedup(xs))
  {
    DedupIsSubsequence(xs);
    DedupFirstOccurrenceOrder(xs);
  }

  lemma {:induction false} DedupIsSubsequence<T>(xs: seq<T>)
    ensures IsSubsequence(Dedup(xs), xs)
  {
    if xs != [] {
      var init, last := xs[..|xs| - 1], xs[|xs| - 1];
      var d := Dedup(init);
      DedupIsSubsequence(init);
      assert xs == init + [last];
      if last in d {
        SubsequenceAppend(d, init, [], [last]);
        assert d + [] == d;
      } else {
        SubsequenceAppend(d, init, [last], [last]);
      }
    }
  }

  lemma {:induction false} DedupFirstOccurrenceOrder<T>(xs: seq<T>)
    ensures InFirstOccurrenceOrder(xs, Dedup(xs))
  {
    if xs != [] {
      var init, last := xs[..|xs| - 1], xs[|xs| - 1];
      DedupFirstOccurrenceOrder(init);
      DedupProperties(init);
      assert xs == init + [last];
      OrderSnoc(init, last, Dedup(init));
    }
  }

  /** One more element at the end of `xs` keeps the order of `d`, and the
      new element, when it is new, comes after all of `d`. */
  lemma OrderSnoc<T>(init: seq<T>, last: T, d: seq<T>)
    requires InFirstOccurrenceOrder(init, d)
    ensures InFirstOccurrenceOrder(init + [last], d)
    ensures last !in d && (forall x :: x in d <==> x in init) ==> InFirstOccurrenceOrder(init + [last], d + [last])
  {
    var xs := init + [last];
    forall i | 0 <= i < |d|
      ensures FirstOccurrence(xs, d[i]) == FirstOccurrence(init, d[i]) < |init|
    {
      FirstOccurrenceSnoc(init, last, d[i]);
      var q := FirstOccurrence(init, d[i]);
      assert init[q] == d[i];
    }
    if last !in d && (forall x :: x in d <==> x in init) {
      FirstOccurrenceSnoc(init, last, last);
      var r := d + [last];
      assert FirstOccurrence(xs, r[|d|]) == |init|;
      assert forall i :: 0 <= i < |d| ==> r[i] == d[i];
    }
  }

  /** Adding a list to a selection without repetitions keeps the old
      selection as the prefix of the new one. */
  lemma {:induction false} DedupKeepsPrefix<T>(xs: seq<T>, ys: seq<T>)
    requires Distinct(xs)
    ensures |Dedup(xs + ys)| >= |xs| && Dedup(xs + ys)[..|xs|] == xs
  {
    if ys == [] {
      assert xs + ys == xs;
      DedupProperties(xs);
    } else {
      var init := ys[..|ys| - 1];
      DedupKeepsPrefix(xs, init);
      assert (xs + ys)[..|xs + ys| - 1] == xs + init;
    }
  }

  /** After `select(xs)` every element of `xs` and every element selected
      before is selected (for a reflexive `eq`), and nothing else is. */
  lemma SelectManyProperties<T>(selected: seq<T>, xs: seq<T>, eq: (T, T) -> bool)
    requires forall x :: eq(x, x)
    ensures var r := Dedup(selected + xs);
      && (forall x :: x in r <==> x in selected || x in xs)
      && (forall x :: x in selected || x in xs ==> AnyMatch((s: T) => eq(x, s), r))
  {
    var r := Dedup(selected + xs);
    DedupProperties(selected + xs);
    forall x | x in selected || x in xs
      ensures AnyMatch((s: T) => eq(x, s), r)
    {
      assert x in selected + xs;
      var k :| 0 <= k < |r| && r[k] == x;
      assert eq(x, r[k]);
    }
  }
}
