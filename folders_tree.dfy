/** The expanded/collapsed state of the folder navigation: the list of
    expanded folder paths, and the toggle that updates it. */
module FoldersTree {
  import opened Wrappers
  import opened Strings
  import opened Seqs
  import opened BookmarkTypes
  import opened BookmarkUtils

  /** `exp.filter((path) => !path.startsWith(folderPath))` */
  function Collapse(paths: seq<string>, folderPath: string): seq<string> {
    Filter((path: string) => !StartsWith(path, folderPath), paths)
  }

  /** The state after `toggleFolder(folder)`: no folder collapses everything;
      a folder whose path is expanded collapses it together with every path
      that starts with it; any other folder is expanded by appending its
      path. */
  function Toggled(paths: seq<string>, folder: Option<Item>): seq<string> {
    match folder
    case None => []
    case Some(f) =>
      var folderPath := ItemPath(f);
      if folderPath in paths then Collapse(paths, folderPath) else paths + [folderPath]
  }

  /** `useFoldersTree`: the expanded paths and the toggle. */
  class ExpandedFolders {
    var expandedPaths: seq<string>

    /** The hook starts with nothing expanded. */
    constructor()
      ensures expandedPaths == []
    {
      expandedPaths := [];
    }

    /** `toggleFolder(folder)` */
    method ToggleFolder(folder: Option<Item>)
      modifies this
      ensures expandedPaths == Toggled(old(expandedPaths), folder)
    {
      if folder.None? {
        expandedPaths := [];
        return;
      }
      var folderPath := ItemPath(folder.value);
      if folderPath in expandedPaths {
        expandedPaths := Collapse(expandedPaths, folderPath);
      } else {
        expandedPaths := expandedPaths + [folderPath];
      }
    }
  }

  /** What a toggle does to the list: no folder empties it; an absent path
      is appended and nothing else changes; a present path is removed along
      with every path starting with it, the other paths stay, in their
      order, and nothing is added. A toggle adds at most one path. */
  lemma ToggledProperties(paths: seq<string>, folder: Option<Item>)
    ensures folder.None? ==> Toggled(paths, folder) == []
    ensures folder.Some? && ItemPath(folder.value) !in paths ==>
      Toggled(paths, folder) == paths + [ItemPath(folder.value)]
    ensures folder.Some? && ItemPath(folder.value) in paths ==>
      var r, p := Toggled(paths, folder), ItemPath(folder.value);
      && p !in r
      && (forall k :: 0 <= k < |r| ==> !StartsWith(r[k], p) && r[k] in paths)
      && (forall q :: q in paths && !StartsWith(q, p) ==> q in r)
      && IsSubsequence(r, paths)
    ensures |Toggled(paths, folder)| <= |paths| + 1
  {
    if folder.Some? && ItemPath(folder.value) in paths {
      var p := ItemPath(folder.value);
      var keep := (path: string) => !StartsWith(path, p);
      FilterIsSubsequence(keep, paths);
      forall q | q in paths && !StartsWith(q, p)
        ensures q in Toggled(paths, folder)
      {
        var k :| 0 <= k < |paths| && paths[k] == q;
      }
    }
  }

  /** Expanding a folder and toggling it again restores the list, when no
      expanded path started with the folder's path. */
  lemma ToggleTwiceRestores(paths: seq<string>, folder: Item)
    requires forall k :: 0 <= k < |paths| ==> !StartsWith(paths[k], ItemPath(folder))
    ensures Toggled(Toggled(paths, Some(folder)), Some(folder)) == paths
  {
    var p := ItemPath(folder);
    var keep := (path: string) => !StartsWith(path, p);
    assert StartsWith(p, p);
    assert p in paths + [p];
    FilterAppend(keep, paths, [p]);
    FilterAll(keep, paths);
    assert Filter(keep, [p]) == [] by {
      assert !keep(p);
      assert Filter(keep, [p]) == (if keep(p) then [p] else []) + Filter(keep, []);
    }
  }

  /** The list never holds a path twice. */
  lemma ToggleKeepsDistinct(paths: seq<string>, folder: Option<Item>)
    requires Distinct(paths)
    ensures Distinct(Toggled(paths, folder))
  {
    if folder.Some? {
      var p := ItemPath(folder.value);
      if p in paths {
        FilterKeepsDistinct((path: string) => !StartsWith(path, p), paths);
      }
    }
  }

  /** The collapse test is a string-prefix test: collapsing "A" also
      collapses the unrelated folder "AB". */
  lemma CollapseIsRawPrefix()
    ensures Toggled(["A", "AB", "B"], Some(Folder([], "A", 0, []))) == ["B"]
  {
    var keep := (path: string) => !StartsWith(path, "A");
    assert ItemPath(Folder([], "A", 0, [])) == "A";
    assert !StartsWith("B", "A") by { assert "B"[0] != "A"[0]; }
    assert !keep("A") && !keep("AB") && keep("B");
    assert Filter(keep, ["B"]) == ["B"];
    assert ["A", "AB", "B"][1..] == ["AB", "B"] && ["AB", "B"][1..] == ["B"];
  }
}
