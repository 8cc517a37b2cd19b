/** The JavaScript string operations the bookmarks code relies on
    (`join`, `split`, `indexOf`, `replace`, `startsWith`, `endsWith`,
    `includes`, `length` and the decimal rendering of integers), stated on
    `seq<char>`. */
module Strings {
  import opened Wrappers

  /** `pat` occurs in `s` starting at index `i`. */
  predicate OccursAt(s: string, pat: string, i: nat) {
    i + |pat| <= |s| && s[i..i + |pat|] == pat
  }

  /** `s.startsWith(p)` */
  predicate StartsWith(s: string, p: string) {
    p <= s
  }

  /** `s.endsWith(suffix)` */
  predicate EndsWith(s: string, suffix: string) {
    |suffix| <= |s| && s[|s| - |suffix|..] == suffix
  }

  /** `s.indexOf(pat, from)`, with "not found" as `None`. */
  function IndexFrom(s: string, pat: string, from: nat): (r: Option<nat>)
    decreases |s| - from
    ensures r.Some? ==> from <= r.value && OccursAt(s, pat, r.value)
    ensures r.Some? ==> forall j :: from <= j < r.value ==> !OccursAt(s, pat, j)
    ensures r.None? ==> forall j :: from <= j ==> !OccursAt(s, pat, j)
  {
    if from + |pat| > |s| then None
    else if s[from..from + |pat|] == pat then Some(from)
    else IndexFrom(s, pat, from + 1)
  }

  /** `s.indexOf(pat)`: the first occurrence of `pat` in `s`. */
  function IndexOf(s: string, pat: string): (r: Option<nat>)
    ensures r.Some? ==> OccursAt(s, pat, r.value)
    ensures r.Some? ==> forall j :: 0 <= j < r.value ==> !OccursAt(s, pat, j)
    ensures r.None? ==> forall j :: 0 <= j ==> !OccursAt(s, pat, j)
  {
    IndexFrom(s, pat, 0)
  }

  /** `s.includes(pat)` */
  predicate Includes(s: string, pat: string) {
    IndexOf(s, pat).Some?
  }

  /** `parts.join(sep)` */
  function Join(parts: seq<string>, sep: string): string
  {
    if parts == [] then ""
    else if |parts| == 1 then parts[0]
    else parts[0] + sep + Join(parts[1..], sep)
  }

  /** `s.split(sep)` for a non-empty separator: the pieces between
      successive non-overlapping occurrences of `sep`, scanned from the left. */
  function Split(s: string, sep: string): (r: seq<string>)
    requires sep != ""
    decreases |s|
    ensures |r| >= 1
  {
    match IndexOf(s, sep)
    case None => [s]
    case Some(i) => [s[..i]] + Split(s[i + |sep|..], sep)
  }

  /** `s.replace(pat, rep)` with a string pattern: only the first occurrence
      is replaced. */
  function ReplaceFirst(s: string, pat: string, rep: string): string
  {
    match IndexOf(s, pat)
    case None => s
    case Some(i) => s[..i] + rep + s[i + |pat|..]
  }

  /** The number of UTF-16 code units JavaScript stores for `c`: a
      character outside the Basic Multilingual Plane takes a surrogate pair. */
  function CodeUnits(c: char): nat {
    if c as int < 0x1_0000 then 1 else 2
  }

  /** `s.length`, which counts UTF-16 code units: at least one and at most
      two per character. */
  function Utf16Length(s: string): (n: nat)
    ensures |s| <= n <= 2 * |s|
  {
    if s == [] then 0 else Utf16Length(s[..|s| - 1]) + CodeUnits(s[|s| - 1])
  }

  /** The length of a concatenation is the sum of the lengths. */
  lemma {:induction false} Utf16LengthAppend(a: string, b: string)
    ensures Utf16Length(a + b) == Utf16Length(a) + Utf16Length(b)
    decreases |b|
  {
    if b == [] {
      assert a + b == a;
    } else {
      var init := b[..|b| - 1];
      assert (a + b)[..|a + b| - 1] == a + init;
      assert (a + b)[|a + b| - 1] == b[|b| - 1];
      Utf16LengthAppend(a, init);
    }
  }

  /** `.length` counts characters exactly when every character lies in the
      Basic Multilingual Plane. */
  lemma {:induction false} Utf16LengthBmp(s: string)
    ensures Utf16Length(s) == |s| <==> forall i | 0 <= i < |s| :: s[i] as int < 0x1_0000
    decreases |s|
  {
    if s != [] {
      var init := s[..|s| - 1];
      Utf16LengthBmp(init);
      assert forall i | 0 <= i < |init| :: init[i] == s[i];
    }
  }

  /** `.length` counts two units per character exactly when every
      character lies outside the Basic Multilingual Plane. */
  lemma {:induction false} Utf16LengthAstral(s: string)
    ensures Utf16Length(s) == 2 * |s| <==> forall i | 0 <= i < |s| :: s[i] as int >= 0x1_0000
    decreases |s|
  {
    if s != [] {
      var init := s[..|s| - 1];
      Utf16LengthAstral(init);
      assert forall i | 0 <= i < |init| :: init[i] == s[i];
    }
  }

  /** Joining `xs ++ [x]` puts one separator before `x`. */
  lemma {:induction false} JoinSnoc(xs: seq<string>, x: string, sep: string)
    ensures Join(xs + [x], sep) == if xs == [] then x else Join(xs, sep) + sep + x
  {
    if |xs| > 1 {
      assert (xs + [x])[1..] == xs[1..] + [x];
      JoinSnoc(xs[1..], x, sep);
    } else if |xs| == 1 {
      assert (xs + [x])[1..] == [x];
    }
  }

  /** Joining `[x] ++ parts` puts one separator after `x`. */
  lemma JoinCons(x: string, parts: seq<string>, sep: string)
    requires parts != []
    ensures Join([x] + parts, sep) == x + sep + Join(parts, sep)
  {
    assert ([x] + parts)[1..] == parts;
  }

  /** A string is its text before `i`, the `n` characters from `i`, and
      the rest. */
  lemma SplitAround(s: string, i: nat, n: nat)
    requires i + n <= |s|
    ensures s == s[..i] + s[i..i + n] + s[i + n..]
  {
  }

  /** `join` and `split` are inverse: splitting a string and joining the
      pieces with the same separator gives the string back. */
  lemma {:induction false} JoinSplit(s: string, sep: string)
    requires sep != ""
    ensures Join(Split(s, sep), sep) == s
    decreases |s|
  {
    var idx := IndexOf(s, sep);
    if idx.Some? {
      var i := idx.value;
      var rest := s[i + |sep|..];
      var pieces := Split(rest, sep);
      assert Split(s, sep) == [s[..i]] + pieces;
      JoinSplit(rest, sep);
      JoinCons(s[..i], pieces, sep);
      SplitAround(s, i, |sep|);
      assert s[i..i + |sep|] == sep;
    }
  }

  /** A single-character separator that none of the parts contains is found
      exactly at the end of the first part. */
  lemma IndexOfCharAfterPart(x: string, c: char, rest: string)
    requires c !in x
    ensures IndexOf(x + [c] + rest, [c]) == Some(|x|)
  {
    var s := x + [c] + rest;
    assert OccursAt(s, [c], |x|);
    forall j | 0 <= j < |x|
      ensures !OccursAt(s, [c], j)
    {
      assert s[j] == x[j];
    }
  }

  /** Splitting a joined list on a one-character separator that no part
      contains gives the list back (a non-empty list: `"".split(sep)` is
      `[""]`). */
  lemma {:induction false} SplitJoinChar(parts: seq<string>, c: char)
    requires parts != []
    requires forall k :: 0 <= k < |parts| ==> c !in parts[k]
    ensures Split(Join(parts, [c]), [c]) == parts
  {
    if |parts| == 1 {
      assert IndexOf(parts[0], [c]) == None;
    } else {
      var rest := Join(parts[1..], [c]);
      var s := parts[0] + [c] + rest;
      assert Join(parts, [c]) == s;
      IndexOfCharAfterPart(parts[0], c, rest);
      assert s[..|parts[0]|] == parts[0];
      assert s[|parts[0]| + 1..] == rest;
      SplitJoinChar(parts[1..], c);
      assert parts == [parts[0]] + parts[1..];
    }
  }

  /** A pattern whose first character does not occur in `s` is not found. */
  lemma IndexOfAbsent(s: string, pat: string)
    requires pat != [] && pat[0] !in s
    ensures IndexOf(s, pat) == None
  {
    forall j: nat | j + |pat| <= |s|
      ensures !OccursAt(s, pat, j)
    {
      assert s[j..j + |pat|][0] == s[j];
    }
  }

  /** A separator whose first character does not occur in `x` is found
      right after `x`, and splitting there gives `x` as the first piece. */
  lemma SplitAfterPart(x: string, sep: string, rest: string)
    requires sep != [] && sep[0] !in x
    ensures IndexOf(x + sep + rest, sep) == Some(|x|)
    ensures Split(x + sep + rest, sep) == [x] + Split(rest, sep)
  {
    var s := x + sep + rest;
    assert s[|x|..|x| + |sep|] == sep;
    assert OccursAt(s, sep, |x|);
    forall j | 0 <= j < |x|
      ensures !OccursAt(s, sep, j)
    {
      assert s[j] == x[j];
    }
    assert s[..|x|] == x;
    assert s[|x| + |sep|..] == rest;
  }

  /** No proper prefix of `sep` is also a suffix of it, so two occurrences
      of `sep` never overlap. */
  predicate Unbordered(sep: string) {
    forall k | 0 < k < |sep| :: sep[|sep| - k..] != sep[..k]
  }

  /** An unbordered separator that does not occur in `x` is first found
      right after `x`: no occurrence can start inside `x`, whether it fits
      in `x` or straddles its end. */
  lemma FirstAfterPart(x: string, sep: string, rest: string)
    requires sep != [] && !Includes(x, sep) && Unbordered(sep)
    ensures IndexOf(x + sep + rest, sep) == Some(|x|)
    ensures Split(x + sep + rest, sep) == [x] + Split(rest, sep)
  {
    var s := x + sep + rest;
    assert s[|x|..|x| + |sep|] == sep;
    assert OccursAt(s, sep, |x|);
    forall j | 0 <= j < |x|
      ensures !OccursAt(s, sep, j)
    {
      if j + |sep| <= |x| {
        assert s[j..j + |sep|] == x[j..j + |sep|];
        assert !OccursAt(x, sep, j);
      } else {
        var k := j + |sep| - |x|;
        assert s[|x|..j + |sep|] == sep[..k];
        assert s[j..j + |sep|][|sep| - k..] == s[|x|..j + |sep|];
        assert sep[|sep| - k..] != sep[..k];
      }
    }
    assert s[..|x|] == x;
    assert s[|x| + |sep|..] == rest;
  }

  /** A doubled character does not occur in `x + [c] + y` when `x` has no
      `c`, `y` does not start with `c` and has no doubled `c` itself. */
  lemma NoDoubledAround(x: string, c: char, y: string)
    requires c !in x
    requires y == [] || y[0] != c
    requires IndexOf(y, [c, c]) == None
    ensures IndexOf(x + [c] + y, [c, c]) == None
  {
    var s := x + [c] + y;
    forall j | 0 <= j && j + 2 <= |s|
      ensures !OccursAt(s, [c, c], j)
    {
      if j < |x| {
        assert s[j] == x[j];
        assert s[j..j + 2][0] == s[j];
      } else if j == |x| {
        assert s[j + 1] == y[0];
        assert s[j..j + 2][1] == s[j + 1];
      } else {
        var k := j - |x| - 1;
        assert s[j..j + 2] == y[k..k + 2];
        assert !OccursAt(y, [c, c], k);
      }
    }
  }

  /** Looking for a one-character string is a membership test. */
  lemma IncludesChar(s: string, c: char)
    ensures Includes(s, [c]) <==> c in s
  {
    if c in s {
      var k :| 0 <= k < |s| && s[k] == c;
      assert s[k..k + 1] == [c];
      assert OccursAt(s, [c], k);
    }
    if Includes(s, [c]) {
      var i := IndexOf(s, [c]).value;
      assert s[i..i + 1][0] == s[i];
    }
  }

  /** The decimal digit of `d`. */
  function DigitChar(d: nat): (c: char)
    requires d < 10
    ensures '0' <= c <= '9'
  {
    (48 + d) as char
  }

  /** The decimal notation of a natural number, most significant digit first
      (what `${n}` prints for an integer below 10^21). */
  function NatToDecimal(n: nat): (r: string)
    ensures |r| >= 1
    ensures forall k :: 0 <= k < |r| ==> '0' <= r[k] <= '9'
    ensures (|r| == 1) == (n < 10)
  {
    if n < 10 then [DigitChar(n)] else NatToDecimal(n / 10) + [DigitChar(n % 10)]
  }

  /** The decimal notation of an integer, with a leading `-` when negative. */
  function IntToDecimal(i: int): (r: string)
    ensures |r| >= 1
    ensures forall k :: 0 <= k < |r| ==> r[k] == '-' || '0' <= r[k] <= '9'
    ensures (r[0] == '-') == (i < 0)
  {
    if i < 0 then "-" + NatToDecimal(-i) else NatToDecimal(i)
  }

  /** Different natural numbers have different decimal notations. */
  lemma {:induction false} NatToDecimalInjective(a: nat, b: nat)
    requires NatToDecimal(a) == NatToDecimal(b)
    ensures a == b
  {
    var ra, rb := NatToDecimal(a), NatToDecimal(b);
    if a >= 10 && b >= 10 {
      assert ra[..|ra| - 1] == NatToDecimal(a / 10);
      assert rb[..|rb| - 1] == NatToDecimal(b / 10);
      NatToDecimalInjective(a / 10, b / 10);
      assert DigitChar(a % 10) == ra[|ra| - 1] == rb[|rb| - 1] == DigitChar(b % 10);
    } else if a < 10 && b < 10 {
      assert DigitChar(a) == ra[0] == rb[0] == DigitChar(b);
    }
  }

  /** Different integers have different decimal notations. */
  lemma IntToDecimalInjective(a: int, b: int)
    requires IntToDecimal(a) == IntToDecimal(b)
    ensures a == b
  {
    var ra := IntToDecimal(a);
    if a < 0 {
      assert ra[1..] == NatToDecimal(-a);
      assert IntToDecimal(b)[1..] == NatToDecimal(-b);
      NatToDecimalInjective(-a, -b);
    } else {
      NatToDecimalInjective(a, b);
    }
  }
}
