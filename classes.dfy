/** `classes(...names)`: the CSS class list built from optional names. */
module Classes {
  import opened Wrappers
  import opened Strings

  /** The characters `String.prototype.trim` removes: the ECMAScript white
      space and line terminator characters. */
  predicate IsWhitespace(c: char) {
    var n := c as int;
    || 0x09 <= n <= 0x0D
    || n == 0x20 || n == 0xA0 || n == 0x1680
    || 0x2000 <= n <= 0x200A
    || n == 0x2028 || n == 0x2029 || n == 0x202F || n == 0x205F
    || n == 0x3000 || n == 0xFEFF
  }

  /** The first index from `i` on that does not hold white space, or
      `|s|`. */
  function SkipSpace(s: string, i: nat): (r: nat)
    requires i <= |s|
    decreases |s| - i
    ensures i <= r <= |s|
    ensures r < |s| ==> !IsWhitespace(s[r])
  {
    if i < |s| && IsWhitespace(s[i]) then SkipSpace(s, i + 1) else i
  }

  /** The last index up to `j` that follows a character other than white
      space, or 0. */
  function SkipSpaceBack(s: string, j: nat): (r: nat)
    requires j <= |s|
    ensures r <= j
    ensures r > 0 ==> !IsWhitespace(s[r - 1])
  {
    if j > 0 && IsWhitespace(s[j - 1]) then SkipSpaceBack(s, j - 1) else j
  }

  /** `trim(val)`: `val.trim()`, the text between the leading and the
      trailing white space. */
  function Trim(s: string): string {
    var i, j := SkipSpace(s, 0), SkipSpaceBack(s, |s|);
    if i < j then s[i..j] else ""
  }

  /** The names `isNonEmpty` keeps: the defined, non-empty ones, in order. */
  function NonEmptyNames(names: seq<Option<string>>): (r: seq<string>)
    ensures |r| <= |names|
  {
    if names == [] then []
    else if names[0].Some? && names[0].value != "" then [names[0].value] + NonEmptyNames(names[1..])
    else NonEmptyNames(names[1..])
  }

  /** Each word trimmed. */
  function TrimAll(words: seq<string>): (r: seq<string>)
    ensures |r| == |words|
  {
    seq(|words|, k requires 0 <= k < |words| => Trim(words[k]))
  }

  /** `classes(...names)`: the non-empty names, trimmed and joined with
      single spaces. */
  function ClassList(names: seq<Option<string>>): string {
    Join(TrimAll(NonEmptyNames(names)), " ")
  }

  // --- properties ---

  /** `SkipSpace` passes over white space only. */
  lemma {:induction false} SkipSpaceSkipsSpace(s: string, i: nat, k: nat)
    requires i <= |s| && i <= k < SkipSpace(s, i)
    ensures IsWhitespace(s[k])
    decreases |s| - i
  {
    if k > i {
      SkipSpaceSkipsSpace(s, i + 1, k);
    }
  }

  /** `SkipSpaceBack` passes over white space only. */
  lemma {:induction false} SkipSpaceBackSkipsSpace(s: string, j: nat, k: nat)
    requires j <= |s| && SkipSpaceBack(s, j) <= k < j
    ensures IsWhitespace(s[k])
    decreases j
  {
    if k < j - 1 {
      SkipSpaceBackSkipsSpace(s, j - 1, k);
    }
  }

  /** A trimmed string is a slice of the original with only white space cut
      off either end, and it neither starts nor ends with white space; a
      string of white space only trims to nothing. */
  lemma TrimProperties(s: string)
    ensures var r, i, j := Trim(s), SkipSpace(s, 0), SkipSpaceBack(s, |s|);
      && (forall k :: 0 <= k < i ==> IsWhitespace(s[k]))
      && (forall k :: j <= k < |s| ==> IsWhitespace(s[k]))
      && (r != [] ==> i < j && r == s[i..j])
      && (r == [] || (!IsWhitespace(r[0]) && !IsWhitespace(r[|r| - 1])))
      && (r == [] <==> forall k :: 0 <= k < |s| ==> IsWhitespace(s[k]))
  {
    var i, j := SkipSpace(s, 0), SkipSpaceBack(s, |s|);
    forall k | 0 <= k < i ensures IsWhitespace(s[k]) {
      SkipSpaceSkipsSpace(s, 0, k);
    }
    forall k | j <= k < |s| ensures IsWhitespace(s[k]) {
      SkipSpaceBackSkipsSpace(s, |s|, k);
    }
    if i < j {
      assert s[i..j][0] == s[i];
      assert !IsWhitespace(s[i]);
    } else {
      assert i == |s| || j <= i;
      assert forall k :: 0 <= k < |s| ==> IsWhitespace(s[k]);
    }
  }

  /** Undefined and empty names are dropped wherever they appear. */
  lemma {:induction false} DropsEmptyNames(before: seq<Option<string>>, after: seq<Option<string>>)
    ensures ClassList(before + [None] + after) == ClassList(before + after)
    ensures ClassList(before + [Some("")] + after) == ClassList(before + after)
  {
    NonEmptyNamesSkip(before, None, after);
    NonEmptyNamesSkip(before, Some(""), after);
  }

  lemma {:induction false} NonEmptyNamesSkip(before: seq<Option<string>>, name: Option<string>, after: seq<Option<string>>)
    requires name.None? || name.value == ""
    ensures NonEmptyNames(before + [name] + after) == NonEmptyNames(before + after)
  {
    if before == [] {
      assert before + [name] + after == [name] + after;
      assert ([name] + after)[1..] == after;
      assert before + after == after;
    } else {
      NonEmptyNamesSkip(before[1..], name, after);
      assert (before + [name] + after)[1..] == before[1..] + [name] + after;
      assert (before + after)[1..] == before[1..] + after;
      assert (before + [name] + after)[0] == before[0] == (before + after)[0];
    }
  }

  /** Every kept name contributes one word, in order: splitting the class
      list on spaces gives the trimmed names back, when at least one name is
      kept and no trimmed name has a space inside. */
  lemma SplitClassList(names: seq<Option<string>>)
    requires NonEmptyNames(names) != []
    requires forall k :: 0 <= k < |NonEmptyNames(names)| ==> ' ' !in Trim(NonEmptyNames(names)[k])
    ensures Split(ClassList(names), " ") == TrimAll(NonEmptyNames(names))
  {
    var words := TrimAll(NonEmptyNames(names));
    assert forall k :: 0 <= k < |words| ==> ' ' !in words[k];
    SplitJoinChar(words, ' ');
  }

  // --- examples ---

  lemma ClassListEmpty()
    ensures ClassList([Some("")]) == ""
  {
  }

  /** A word with no white space at either end is its own trim. */
  lemma TrimWord(w: string)
    requires w != [] && !IsWhitespace(w[0]) && !IsWhitespace(w[|w| - 1])
    ensures Trim(w) == w
  {
    assert SkipSpace(w, 0) == 0;
    assert SkipSpaceBack(w, |w|) == |w|;
    assert w[0..|w|] == w;
  }

  // The examples hold for all names `a` and `b` that are words: non-empty,
  // with no white space at either end ("a" and "b" among them).

  /** Two non-empty names give their trims around one space. */
  lemma ClassListOfTwo(x: string, y: string)
    requires x != "" && y != ""
    ensures ClassList([Some(x), Some(y)]) == Trim(x) + " " + Trim(y)
  {
    NonEmptyNamesTwo(x, y);
    TrimAllTwo(x, y);
    JoinCons(Trim(x), [Trim(y)], " ");
  }

  lemma NonEmptyNamesTwo(x: string, y: string)
    requires x != "" && y != ""
    ensures NonEmptyNames([Some(x), Some(y)]) == [x, y]
  {
    assert [Some(x), Some(y)][1..] == [Some(y)];
    assert [Some(y)][1..] == [];
  }

  lemma TrimAllTwo(x: string, y: string)
    ensures TrimAll([x, y]) == [Trim(x), Trim(y)]
  {
    var r := TrimAll([x, y]);
    assert r[0] == Trim(x) && r[1] == Trim(y);
  }

  lemma ClassListTwo(a: string, b: string)
    requires a != [] && !IsWhitespace(a[0]) && !IsWhitespace(a[|a| - 1])
    requires b != [] && !IsWhitespace(b[0]) && !IsWhitespace(b[|b| - 1])
    ensures ClassList([Some(a), Some(b)]) == a + " " + b
  {
    ClassListOfTwo(a, b);
    TrimWord(a);
    TrimWord(b);
  }

  lemma ClassListSkips(a: string, b: string)
    requires a != [] && !IsWhitespace(a[0]) && !IsWhitespace(a[|a| - 1])
    requires b != [] && !IsWhitespace(b[0]) && !IsWhitespace(b[|b| - 1])
    ensures ClassList([Some(a), None, Some(""), Some(b)]) == a + " " + b
  {
    var names := [Some(a), None, Some(""), Some(b)];
    assert names[1..] == [None, Some(""), Some(b)];
    assert names[1..][1..] == [Some(""), Some(b)];
    assert names[1..][1..][1..] == [Some(b)];
    assert NonEmptyNames([Some(""), Some(b)]) == NonEmptyNames([Some(b)]);
    NonEmptyNamesTwo(a, b);
    assert NonEmptyNames([Some(a), Some(b)]) == [a] + NonEmptyNames([Some(b)]) by {
      assert [Some(a), Some(b)][1..] == [Some(b)];
    }
    assert NonEmptyNames(names) == [a, b];
    ClassListTwo(a, b);
  }

  lemma TrimPadded(w: string)
    requires w != [] && !IsWhitespace(w[0]) && !IsWhitespace(w[|w| - 1])
    ensures Trim(" " + w + " ") == w
  {
    var p := " " + w + " ";
    assert p[0] == ' ' && p[1] == w[0];
    assert SkipSpace(p, 1) == 1;
    assert SkipSpace(p, 0) == 1;
    assert p[|p| - 1] == ' ' && p[|p| - 2] == w[|w| - 1];
    assert SkipSpaceBack(p, |p| - 1) == |p| - 1;
    assert SkipSpaceBack(p, |p|) == |p| - 1;
    assert p[1..|p| - 1] == w;
  }

  lemma ClassListTrims(a: string, b: string)
    requires a != [] && !IsWhitespace(a[0]) && !IsWhitespace(a[|a| - 1])
    requires b != [] && !IsWhitespace(b[0]) && !IsWhitespace(b[|b| - 1])
    ensures ClassList([Some(" " + a + " "), Some(" " + b + " ")]) == a + " " + b
  {
    ClassListOfTwo(" " + a + " ", " " + b + " ");
    TrimPadded(a);
    TrimPadded(b);
  }

  /** A name of white space only passes the filter and becomes an empty
      word, so two spaces separate its neighbours. */
  lemma ClassListBlankWord(a: string, b: string)
    requires a != [] && !IsWhitespace(a[0]) && !IsWhitespace(a[|a| - 1])
    requires b != [] && !IsWhitespace(b[0]) && !IsWhitespace(b[|b| - 1])
    ensures ClassList([Some(a), Some(" "), Some(b)]) == a + "  " + b
  {
    assert [Some(a), Some(" "), Some(b)][1..] == [Some(" "), Some(b)];
    assert [Some(" "), Some(b)][1..] == [Some(b)];
    assert NonEmptyNames([Some(b)]) == [b] by {
      assert [Some(b)][1..] == [];
    }
    assert NonEmptyNames([Some(" "), Some(b)]) == [" ", b];
    assert NonEmptyNames([Some(a), Some(" "), Some(b)]) == [a, " ", b];
    TrimWord(a);
    TrimWord(b);
    assert SkipSpace(" ", 0) == 1 && SkipSpaceBack(" ", 1) == 0;
    assert Trim(" ") == "";
    assert TrimAll([a, " ", b]) == [a, "", b];
    assert [a, "", b][1..] == ["", b];
    assert ["", b][1..] == [b];
    assert Join([a, "", b], " ") == a + " " + Join(["", b], " ");
    assert Join(["", b], " ") == "" + " " + Join([b], " ");
  }
}
