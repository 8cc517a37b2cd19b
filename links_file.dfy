/** `getLinksFileContent`: the plain-text export, one link per line. */
module LinksFile {
  import opened Wrappers
  import opened Strings
  import opened BookmarkTypes

  /** The links of the bookmarks, in order. */
  function Hrefs(bookmarks: seq<Item>): (r: seq<string>)
    requires forall k :: 0 <= k < |bookmarks| ==> bookmarks[k].Bookmark?
    ensures |r| == |bookmarks|
    ensures forall k :: 0 <= k < |r| ==> r[k] == bookmarks[k].href
  {
    if bookmarks == [] then [] else [bookmarks[0].href] + Hrefs(bookmarks[1..])
  }

  /** `getLinksFileContent(bookmarks)` */
  function LinksFileContent(bookmarks: seq<Item>): string
    requires forall k :: 0 <= k < |bookmarks| ==> bookmarks[k].Bookmark?
  {
    Join(Hrefs(bookmarks), "\n")
  }

  /** No bookmarks give an empty file. */
  lemma LinksFileEmpty()
    ensures LinksFileContent([]) == ""
  {
  }

  /** Only the links matter: lists of bookmarks with the same links, in the
      same order, give the same file whatever their titles, dates, folders
      and icons. */
  lemma OnlyHrefsMatter(bookmarks: seq<Item>, others: seq<Item>)
    requires forall k :: 0 <= k < |bookmarks| ==> bookmarks[k].Bookmark?
    requires forall k :: 0 <= k < |others| ==> others[k].Bookmark?
    requires |bookmarks| == |others|
    requires forall k :: 0 <= k < |bookmarks| ==> bookmarks[k].href == others[k].href
    ensures LinksFileContent(bookmarks) == LinksFileContent(others)
  {
    assert Hrefs(bookmarks) == Hrefs(others);
  }

  /** Reading the file back line by line gives the links, in order, when
      there is at least one bookmark and no link holds a line break. */
  lemma LinksFileLines(bookmarks: seq<Item>)
    requires forall k :: 0 <= k < |bookmarks| ==> bookmarks[k].Bookmark?
    requires bookmarks != []
    requires forall k :: 0 <= k < |bookmarks| ==> '\n' !in bookmarks[k].href
    ensures Split(LinksFileContent(bookmarks), "\n") == Hrefs(bookmarks)
  {
    SplitJoinChar(Hrefs(bookmarks), '\n');
  }
}
