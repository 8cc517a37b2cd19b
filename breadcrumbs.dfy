/** Breadcrumbs: the folders that contain the current folder, in list
    order, followed by the current folder. The containment test `contains`
    comes from outside this model and is a parameter: `contains(c, f)` is
    `contains(c)(f)`. */
module Breadcrumbs {
  import opened Wrappers
  import opened Seqs
  import opened BookmarkTypes

  /** `getBreadcrumbs(folders, currentFolder)`. */
  function GetBreadcrumbs(folders: seq<Item>, current: Option<Item>, contains: (Item, Item) -> bool): (r: seq<Item>)
  {
    match current
    case None => []
    case Some(c) => Filter((f: Item) => contains(c, f), folders) + [c]
  }

  /** Without a current folder there are no breadcrumbs. With one, the last
      breadcrumb is the current folder; the ones before it are input folders
      that contain it, in input order, and every input folder that contains
      it is among them; so there are at most `|folders| + 1`. */
  lemma BreadcrumbsProperties(folders: seq<Item>, current: Option<Item>, contains: (Item, Item) -> bool)
    ensures var r := GetBreadcrumbs(folders, current, contains);
      && (current.None? ==> r == [])
      && (current.Some? ==>
            && r != [] && r[|r| - 1] == current.value
            && (forall k :: 0 <= k < |r| - 1 ==> contains(current.value, r[k]) && r[k] in folders)
            && IsSubsequence(r[..|r| - 1], folders)
            && (forall f :: f in folders && contains(current.value, f) ==> f in r[..|r| - 1])
            && |r| <= |folders| + 1)
  {
    if current.Some? {
      var c := current.value;
      var p := (f: Item) => contains(c, f);
      var parents := Filter(p, folders);
      var r := GetBreadcrumbs(folders, current, contains);
      assert r[..|r| - 1] == parents;
      FilterIsSubsequence(p, folders);
      forall f | f in folders && contains(c, f)
        ensures f in parents
      {
        var k :| 0 <= k < |folders| && folders[k] == f;
      }
    }
  }
}
