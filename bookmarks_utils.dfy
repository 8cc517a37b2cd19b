/** Paths, derived ids and the two comparison predicates of the app. A path
    is the `/`-join of folder titles; the derived id appends `_` and the
    decimal `addDate`. Both are plain strings, and all comparisons are string
    comparisons. */
module BookmarkUtils {
  import opened Wrappers
  import opened Strings
  import opened BookmarkTypes
  import opened BookmarksMock

  /** `joinPath`: titles joined with `/`. */
  function JoinPath(paths: seq<string>): string {
    Join(paths, "/")
  }

  /** `getItemPath`: the parent folders followed by the item's own title. */
  function ItemPath(item: Item): string {
    JoinPath(item.parentFolders + [item.title])
  }

  /** `getParentFolderPath`: the parent folders alone. */
  function ParentFolderPath(item: Item): string {
    JoinPath(item.parentFolders)
  }

  /** `getFolderLevel`: the nesting depth, 0 for a top-level folder. */
  function FolderLevel(folder: Item): nat {
    |folder.parentFolders|
  }

  /** `getDerivedId`: `${getItemPath(item)}_${item.addDate}`. */
  function DerivedId(item: Item): string {
    ItemPath(item) + "_" + IntToDecimal(item.addDate)
  }

  /** `isSameAs(item1)(item2)`: the derived ids agree. */
  predicate IsSameAs(item1: Item, item2: Item) {
    DerivedId(item1) == DerivedId(item2)
  }

  /** `isInside(folder, includeSubfolders)(item)`: with subfolders, the item's
      parent path starts with the folder's path (a raw string prefix test);
      without, the two strings are equal. */
  predicate IsInside(folder: Item, includeSubfolders: bool, item: Item) {
    if includeSubfolders then StartsWith(ParentFolderPath(item), ItemPath(folder))
    else ParentFolderPath(item) == ItemPath(folder)
  }

  // --- paths ---

  /** An item's path is its parent path, a `/` and its title; a top-level
      item's path is its bare title. */
  lemma ItemPathShape(item: Item)
    ensures item.parentFolders == [] ==> ItemPath(item) == item.title
    ensures item.parentFolders != [] ==>
      ItemPath(item) == ParentFolderPath(item) + "/" + item.title
  {
    JoinSnoc(item.parentFolders, item.title, "/");
  }

  /** Joining a longer title list extends the shorter join by `/` and the
      join of the extra titles. */
  lemma {:induction false} JoinPathAppend(xs: seq<string>, ys: seq<string>)
    requires xs != [] && ys != []
    ensures JoinPath(xs + ys) == JoinPath(xs) + "/" + JoinPath(ys)
  {
    if |xs| == 1 {
      assert (xs + ys)[1..] == ys;
    } else {
      assert (xs + ys)[1..] == xs[1..] + ys;
      JoinPathAppend(xs[1..], ys);
    }
  }

  // --- identity ---

  /** Two strings that end in `c` followed by a `c`-free tail split the same
      way at their last `c`. */
  lemma SplitAtLastSeparator(p1: string, d1: string, p2: string, d2: string, c: char)
    requires c !in d1 && c !in d2
    requires p1 + [c] + d1 == p2 + [c] + d2
    ensures p1 == p2 && d1 == d2
  {
    var s := p1 + [c] + d1;
    var n := |s|;
    assert forall j :: n - |d1| <= j < n ==> s[j] == d1[j - (n - |d1|)];
    assert forall j :: n - |d2| <= j < n ==> s[j] == d2[j - (n - |d2|)];
    assert s[n - |d1| - 1] == c && s[n - |d2| - 1] == c;
    assert |d1| == |d2|;
    assert p1 == s[..|p1|] && p2 == s[..|p2|];
    assert d1 == s[n - |d1|..] && d2 == s[n - |d2|..];
  }

  /** `isSameAs` compares exactly the path and the timestamp: the derived id
      loses nothing, because the decimal timestamp contains no `_`. */
  lemma IsSameAsIff(item1: Item, item2: Item)
    ensures IsSameAs(item1, item2) <==>
      ItemPath(item1) == ItemPath(item2) && item1.addDate == item2.addDate
  {
    if IsSameAs(item1, item2) {
      var d1, d2 := IntToDecimal(item1.addDate), IntToDecimal(item2.addDate);
      assert '_' !in d1 && '_' !in d2;
      SplitAtLastSeparator(ItemPath(item1), d1, ItemPath(item2), d2, '_');
      IntToDecimalInjective(item1.addDate, item2.addDate);
    }
  }

  /** `isSameAs` is reflexive and ignores everything but parent folders,
      title and timestamp: a copy with other children, link or icon is
      still the same item. */
  lemma IsSameAsIgnoresContents(item: Item, children: seq<Item>, href: string, icon: Option<string>)
    ensures IsSameAs(item, item)
    ensures item.Folder? ==> IsSameAs(item, item.(children := children))
    ensures item.Bookmark? ==> IsSameAs(item, item.(href := href, icon := icon))
  {
  }

  /** Items whose title lists differ in length, or that differ in one title
      while neither title list contains `/`, are never the same. */
  lemma DifferentLocationsDiffer(item1: Item, item2: Item)
    requires forall k :: 0 <= k < |item1.parentFolders| ==> '/' !in item1.parentFolders[k]
    requires forall k :: 0 <= k < |item2.parentFolders| ==> '/' !in item2.parentFolders[k]
    requires '/' !in item1.title && '/' !in item2.title
    requires item1.parentFolders + [item1.title] != item2.parentFolders + [item2.title]
    ensures !IsSameAs(item1, item2)
  {
    var xs, ys := item1.parentFolders + [item1.title], item2.parentFolders + [item2.title];
    IsSameAsIff(item1, item2);
    assert forall k :: 0 <= k < |xs| ==> '/' !in xs[k];
    assert forall k :: 0 <= k < |ys| ==> '/' !in ys[k];
    SplitJoinChar(xs, '/');
    SplitJoinChar(ys, '/');
  }

  // --- containment ---

  /** A folder is never inside itself, unless it is a top-level folder with
      an empty title (whose path and parent path are both empty). */
  lemma NotInsideItself(folder: Item, includeSubfolders: bool)
    requires folder.parentFolders != [] || folder.title != ""
    ensures !IsInside(folder, includeSubfolders, folder)
  {
    ItemPathShape(folder);
  }

  /** Direct containment implies containment with subfolders. */
  lemma DirectlyInsideIsInside(folder: Item, item: Item)
    ensures IsInside(folder, false, item) ==> IsInside(folder, true, item)
  {
  }

  /** An item whose parent folders extend the folder's title list is inside
      it; it is directly inside when they extend it by nothing. */
  lemma DescendantIsInside(folder: Item, item: Item)
    requires folder.parentFolders + [folder.title] <= item.parentFolders
    ensures IsInside(folder, true, item)
    ensures item.parentFolders == folder.parentFolders + [folder.title] ==> IsInside(folder, false, item)
  {
    var xs := folder.parentFolders + [folder.title];
    var ys := item.parentFolders[|xs|..];
    assert item.parentFolders == xs + ys;
    if ys != [] {
      JoinPathAppend(xs, ys);
      assert ParentFolderPath(item) == ItemPath(folder) + ("/" + JoinPath(ys));
    } else {
      assert item.parentFolders == xs;
    }
  }

  /** The subfolder test compares strings, not titles: a folder "A" contains
      an item of a top-level folder called "AB". */
  lemma InsideIsRawPrefix()
    ensures var folder := Folder([], "A", 0, []);
            var item := Bookmark(["AB"], "b", 0, "", None);
            IsInside(folder, true, item) && !(folder.parentFolders + [folder.title] <= item.parentFolders)
  {
    var folder := Folder([], "A", 0, []);
    var item := Bookmark(["AB"], "b", 0, "", None);
    assert ItemPath(folder) == "A";
    assert ParentFolderPath(item) == "AB";
  }

  // --- test vectors ---

  /** A copy of a fixture with other children or another link is the same
      item. */
  lemma SameAsCopyExamples()
    ensures IsSameAs(FA, FA.(children := [FB]))
    ensures IsSameAs(Ba, Ba.(href := "#zzz"))
  {
  }

  /** Fixture folders at different locations are different items, and so
      are the two top-level folders called "A". */
  lemma SameAsFolderExamples()
    ensures !IsSameAs(FA, FB) && !IsSameAs(FA, FAA) && !IsSameAs(FAA, FAB) && !IsSameAs(FAA, FAAA)
    ensures !IsSameAs(FA, FAx)
  {
    NotSameAB();
    NotSameAAx();
    NotSameAAA();
    NotSameAAAB();
    NotSameAAAAA();
  }

  // One lemma per pair keeps each proof small.
  lemma NotSameAB() ensures !IsSameAs(FA, FB) { IsSameAsIff(FA, FB); }
  lemma NotSameAAx() ensures !IsSameAs(FA, FAx) { IsSameAsIff(FA, FAx); }
  lemma NotSameAAA() ensures !IsSameAs(FA, FAA) { DifferentLocationsDiffer(FA, FAA); }
  lemma NotSameAAAB() ensures !IsSameAs(FAA, FAB)
  {
    assert (FAB.parentFolders + [FAB.title])[1] == "B";
    DifferentLocationsDiffer(FAA, FAB);
  }
  lemma NotSameAAAAA() ensures !IsSameAs(FAA, FAAA) { DifferentLocationsDiffer(FAA, FAAA); }

  /** Fixture bookmarks at different depths are different items. */
  lemma SameAsBookmarkExamples()
    ensures !IsSameAs(Ba, BAa) && !IsSameAs(Ba, BAAa) && !IsSameAs(Ba, BAAAa)
  {
    NotSameBaBAa();
    NotSameBaBAAa();
    NotSameBaBAAAa();
  }

  lemma NotSameBaBAa() ensures !IsSameAs(Ba, BAa) { DifferentLocationsDiffer(Ba, BAa); }
  lemma NotSameBaBAAa() ensures !IsSameAs(Ba, BAAa) { DifferentLocationsDiffer(Ba, BAAa); }
  lemma NotSameBaBAAAa() ensures !IsSameAs(Ba, BAAAa) { DifferentLocationsDiffer(Ba, BAAAa); }

  /** Containment of the fixtures, with and without subfolders. */
  lemma IsInsideExamples()
    ensures !IsInside(FA, true, FA) && !IsInside(FA, true, FB) && IsInside(FA, true, FAA)
    ensures !IsInside(FAA, true, FAB) && IsInside(FAA, true, FAAA)
    ensures !IsInside(FA, true, Ba) && IsInside(FA, true, BAa) && IsInside(FA, true, BAAa)
    ensures IsInside(FA, true, BAAAa) && !IsInside(FAA, true, BAa) && IsInside(FAA, true, BAAa)
    ensures !IsInside(FAAA, true, BAAa) && IsInside(FAAA, true, BAAAa) && !IsInside(FB, true, Ba)
    ensures !IsInside(FA, false, FA) && IsInside(FA, false, FAA) && IsInside(FAA, false, FAAA)
    ensures IsInside(FA, false, BAa) && !IsInside(FA, false, BAAa) && !IsInside(FA, false, BAAAa)
    ensures IsInside(FAA, false, BAAa) && !IsInside(FAA, false, BAAAa) && IsInside(FAAA, false, BAAAa)
  {
    assert JoinPath(["A"]) == "A";
    assert JoinPath(["A", "A"]) == "A/A";
    assert JoinPath(["A", "A", "A"]) == "A/A/A";
    assert FAA.parentFolders + [FAA.title] == ["A", "A"];
    assert FAAA.parentFolders + [FAAA.title] == ["A", "A", "A"];
  }

  /** The remaining containment vectors: the deeper folders do not contain
      shallower bookmarks, and without subfolders only the direct parent
      contains. */
  lemma IsInsideMoreExamples()
    ensures !IsInside(FAA, true, Ba) && IsInside(FAA, true, BAAAa)
    ensures !IsInside(FAAA, true, Ba) && !IsInside(FAAA, true, BAa)
    ensures !IsInside(FA, false, FB) && !IsInside(FAA, false, FAB) && !IsInside(FA, false, Ba)
    ensures !IsInside(FAA, false, Ba) && !IsInside(FAA, false, BAa) && !IsInside(FAAA, false, Ba)
    ensures !IsInside(FAAA, false, BAa) && !IsInside(FAAA, false, BAAa) && !IsInside(FB, false, Ba)
  {
    assert JoinPath(["A"]) == "A";
    assert JoinPath(["A", "A"]) == "A/A";
    assert JoinPath(["A", "A", "A"]) == "A/A/A";
    assert FAA.parentFolders + [FAA.title] == ["A", "A"];
    assert FAAA.parentFolders + [FAAA.title] == ["A", "A", "A"];
    assert FAB.parentFolders + [FAB.title] == ["A", "B"];
  }

  /** Parent folders are recorded by title only, so containment cannot tell
      `/A_` from `/A`, two top-level folders both titled "A": `/A_` contains
      `/A/A` and `/A/A/A`, although it is not the folder `/A`. */
  lemma SameTitleFolderContains()
    ensures !IsSameAs(FA, FAx)
    ensures IsInside(FAx, true, FAAA) && IsInside(FAx, false, FAA)
  {
    NotSameAAx();
    SameTitleInside();
  }

  lemma SameTitleInside()
    ensures IsInside(FAx, true, FAAA) && IsInside(FAx, false, FAA)
  {
    assert JoinPath(["A"]) == "A";
    assert JoinPath(["A", "A"]) == "A/A";
  }
}
