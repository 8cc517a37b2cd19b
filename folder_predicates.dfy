/** The two predicates the folder navigation uses to highlight a folder and
    to show its subfolders, given the folder currently open (if any). */
module FolderPredicates {
  import opened Wrappers
  import opened Strings
  import opened BookmarkTypes
  import opened BookmarkUtils
  import opened BookmarksMock

  /** `isFolderSelected(folder, currentFolder)` */
  predicate IsFolderSelected(folder: Item, current: Option<Item>) {
    match current
    case None => false
    case Some(c) => IsSameAs(c, folder)
  }

  /** `isFolderOpen(folder, currentFolder)`: the folder is the current one,
      or the current one lies somewhere below it. */
  predicate IsFolderOpen(folder: Item, current: Option<Item>) {
    match current
    case None => false
    case Some(c) => IsSameAs(c, folder) || IsInside(folder, true, c)
  }

  /** With no current folder nothing is selected or open; the selected
      folder is always open; and every folder on the current folder's path
      is open. */
  lemma FolderPredicatesProperties(folder: Item, current: Option<Item>)
    ensures current.None? ==> !IsFolderSelected(folder, current) && !IsFolderOpen(folder, current)
    ensures IsFolderSelected(folder, current) ==> IsFolderOpen(folder, current)
    ensures current.Some? && folder.parentFolders + [folder.title] <= current.value.parentFolders ==>
      IsFolderOpen(folder, current)
  {
    if current.Some? && folder.parentFolders + [folder.title] <= current.value.parentFolders {
      DescendantIsInside(folder, current.value);
    }
  }

  /** With "/A/A/A" open: its ancestors "/A" and "/A/A" and itself are open,
      only itself is selected, and "/A/B" and "/B" are closed. */
  lemma NavigationExample()
    ensures IsFolderSelected(FAAA, Some(FAAA)) && !IsFolderSelected(FAA, Some(FAAA))
    ensures IsFolderOpen(FA, Some(FAAA)) && IsFolderOpen(FAA, Some(FAAA)) && IsFolderOpen(FAAA, Some(FAAA))
    ensures !IsFolderOpen(FAB, Some(FAAA)) && !IsFolderOpen(FB, Some(FAAA))
  {
    NotSameAAAAA();
    OpenAncestors();
    NotSameAAAAB();
    NotInsideAB();
    NotSameAAAB();
    NotInsideB();
  }

  lemma OpenAncestors()
    ensures IsFolderOpen(FA, Some(FAAA)) && IsFolderOpen(FAA, Some(FAAA))
  {
    assert FA.parentFolders + [FA.title] == ["A"] <= FAAA.parentFolders;
    FolderPredicatesProperties(FA, Some(FAAA));
    assert FAA.parentFolders + [FAA.title] == ["A", "A"] == FAAA.parentFolders;
    FolderPredicatesProperties(FAA, Some(FAAA));
  }

  lemma NotSameAAAAB()
    ensures !IsSameAs(FAAA, FAB)
  {
    assert (FAB.parentFolders + [FAB.title])[1] == "B";
    DifferentLocationsDiffer(FAAA, FAB);
  }

  lemma NotSameAAAB()
    ensures !IsSameAs(FAAA, FB)
  {
    DifferentLocationsDiffer(FAAA, FB);
  }

  lemma NotInsideAB()
    ensures !IsInside(FAB, true, FAAA)
  {
    assert FAAA.parentFolders == ["A", "A"];
    assert FAB.parentFolders + [FAB.title] == ["A", "B"];
    assert JoinPath(["A", "A"]) == "A/A";
    assert JoinPath(["A", "B"]) == "A/B";
    assert "A/B"[2] != "A/A"[2];
  }

  lemma NotInsideB()
    ensures !IsInside(FB, true, FAAA)
  {
    assert FAAA.parentFolders == ["A", "A"];
    assert FB.parentFolders + [FB.title] == ["B"];
    assert JoinPath(["A", "A"]) == "A/A";
    assert JoinPath(["B"]) == "B";
    assert "B"[0] != "A/A"[0];
  }
}
