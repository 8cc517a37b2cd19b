/** The export-file parser. The markup is a Netscape bookmark file: each
    folder is an `<h3>` heading followed by a `<dl>` list of its contents,
    each bookmark an `<a>` element. The parsed document is given as an arena
    of element nodes in document order; each node knows its parent element
    and its previous element sibling, which is all the parser asks of the
    markup library (`closest("dl")`, `prev()`, `text()`, `attr(name)`). */
module BookmarksParser {
  import opened Wrappers
  import opened BookmarkTypes
  import opened BookmarkUtils
  import opened FolderTree

  /** An element: lower-case tag name, text content, attributes (lower-case
      names), the number its `add_date` attribute reads as, and its parent
      element and previous element sibling, as indices. */
  datatype Node = Node(tag: string, text: string, attrs: map<string, string>, addDate: int,
                       parent: Option<nat>, prev: Option<nat>)

  type Document = seq<Node>

  /** Parents and previous siblings come earlier in document order. */
  predicate WellFormed(doc: Document) {
    forall i :: 0 <= i < |doc| ==>
      (doc[i].parent.Some? ==> doc[i].parent.value < i) &&
      (doc[i].prev.Some? ==> doc[i].prev.value < i)
  }

  /** `$el.attr(name)`: the value, or nothing when the attribute is absent. */
  function Attr(node: Node, name: string): Option<string> {
    if name in node.attrs then Some(node.attrs[name]) else None
  }

  /** `$el.closest(tag)`: the element itself or its nearest ancestor with
      that tag. */
  function Closest(doc: Document, i: nat, tag: string): (r: Option<nat>)
    requires WellFormed(doc) && i < |doc|
    ensures r.Some? ==> r.value <= i && doc[r.value].tag == tag
    ensures doc[i].tag == tag ==> r == Some(i)
    decreases i
  {
    if doc[i].tag == tag then Some(i)
    else match doc[i].parent
      case None => None
      case Some(p) => Closest(doc, p, tag)
  }

  /** `$el.closest("dl").prev()`: the heading of the list the element sits
      in, if there is one. */
  function Heading(doc: Document, i: nat): (r: Option<nat>)
    requires WellFormed(doc) && i < |doc|
    ensures r.Some? ==> r.value < i
  {
    match Closest(doc, i, "dl")
    case None => None
    case Some(d) => doc[d].prev
  }

  /** `getParentFolderNames($el)`: the texts of the headings of the lists
      around the element, outermost first. */
  function ParentFolderNames(doc: Document, i: nat): (r: seq<string>)
    requires WellFormed(doc) && i < |doc|
    ensures (r == []) == Heading(doc, i).None?
    ensures Heading(doc, i).Some? ==> r[|r| - 1] == doc[Heading(doc, i).value].text
    decreases i
  {
    match Heading(doc, i)
    case None => []
    case Some(h) => ParentFolderNames(doc, h) + [doc[h].text]
  }

  /** `getUserFolders($el)`: the parent folder names without the two
      outermost ones (the file's root heading and the toolbar folder). */
  function UserFolders(doc: Document, i: nat): (r: seq<string>)
    requires WellFormed(doc) && i < |doc|
    ensures var names := ParentFolderNames(doc, i);
            && (|names| <= 2 ==> r == [])
            && (|names| > 2 ==> |r| == |names| - 2 && names == names[..2] + r)
  {
    var names := ParentFolderNames(doc, i);
    if |names| <= 2 then [] else names[2..]
  }

  /** `$(tag)`: the indices of the elements before `n` with that tag, in
      document order. */
  function Select(doc: Document, tag: string, n: nat): (r: seq<nat>)
    requires n <= |doc|
    ensures forall k :: 0 <= k < |r| ==> r[k] < n && doc[r[k]].tag == tag
    ensures forall k, l :: 0 <= k < l < |r| ==> r[k] < r[l]
    ensures forall i :: 0 <= i < n && doc[i].tag == tag ==> i in r
  {
    if n == 0 then []
    else Select(doc, tag, n - 1) + (if doc[n - 1].tag == tag then [n - 1] else [])
  }

  /** The record `parseBookmarks` pushes for the `<a>` element `i`: a
      missing or empty `href` becomes "", a missing or empty `icon` none. */
  function BookmarkAt(doc: Document, i: nat): (r: Item)
    requires WellFormed(doc) && i < |doc|
    ensures r.Bookmark? && r.title == doc[i].text && r.parentFolders == UserFolders(doc, i)
    ensures r.addDate == doc[i].addDate
    ensures r.href == (if "href" in doc[i].attrs then doc[i].attrs["href"] else "")
    ensures r.icon == (if "icon" in doc[i].attrs && doc[i].attrs["icon"] != "" then Some(doc[i].attrs["icon"]) else None)
  {
    var node := doc[i];
    Bookmark(UserFolders(doc, i), node.text, node.addDate,
             OrElse(Attr(node, "href"), ""), NonEmpty(Attr(node, "icon")))
  }

  /** The record `parseFolders` pushes for the `<h3>` element `i`. */
  function FolderAt(doc: Document, i: nat): (r: Item)
    requires WellFormed(doc) && i < |doc|
    ensures r.Folder? && r.title == doc[i].text && r.parentFolders == UserFolders(doc, i)
    ensures r.addDate == doc[i].addDate
    ensures r.children == []
  {
    var node := doc[i];
    Folder(UserFolders(doc, i), node.text, node.addDate, [])
  }

  /** `attr || fallback`: a missing or empty attribute gives the fallback. */
  function OrElse(attr: Option<string>, fallback: string): string {
    if attr.Some? && attr.value != "" then attr.value else fallback
  }

  /** `attr || null`. */
  function NonEmpty(attr: Option<string>): Option<string> {
    if attr.Some? && attr.value != "" then attr else None
  }

  /** What `parseBookmarks` returns: one record per `<a>`, in document order. */
  function ParsedBookmarks(doc: Document): seq<Item>
    requires WellFormed(doc)
  {
    var sel := Select(doc, "a", |doc|);
    seq(|sel|, k requires 0 <= k < |sel| => BookmarkAt(doc, sel[k]))
  }

  /** What `parseFolders` returns: one record per `<h3>`, in document order. */
  function ParsedFolders(doc: Document): seq<Item>
    requires WellFormed(doc)
  {
    var sel := Select(doc, "h3", |doc|);
    seq(|sel|, k requires 0 <= k < |sel| => FolderAt(doc, sel[k]))
  }

  /** `parseFolderTree(html)`: the parsed folders built into a tree. */
  function ParsedFolderTree(doc: Document): seq<Item>
    requires WellFormed(doc)
  {
    ParsedFoldersFlat(doc);
    BuildTree(ParsedFolders(doc), 0)
  }

  // --- the parser as the source runs it ---

  /** `parseBookmarks(html)`: walks the `<a>` elements and pushes a record
      for each. */
  method ParseBookmarks(doc: Document) returns (bookmarks: seq<Item>)
    requires WellFormed(doc)
    ensures bookmarks == ParsedBookmarks(doc)
  {
    bookmarks := [];
    for i := 0 to |doc|
      invariant var sel := Select(doc, "a", i);
        |bookmarks| == |sel| && forall k :: 0 <= k < |sel| ==> bookmarks[k] == BookmarkAt(doc, sel[k])
    {
      if doc[i].tag == "a" {
        bookmarks := bookmarks + [BookmarkAt(doc, i)];
      }
    }
  }

  /** `parseFolders(html)`: walks the `<h3>` elements and pushes a record
      with no children for each. */
  method ParseFolders(doc: Document) returns (folders: seq<Item>)
    requires WellFormed(doc)
    ensures folders == ParsedFolders(doc)
  {
    folders := [];
    for i := 0 to |doc|
      invariant var sel := Select(doc, "h3", i);
        |folders| == |sel| && forall k :: 0 <= k < |sel| ==> folders[k] == FolderAt(doc, sel[k])
    {
      if doc[i].tag == "h3" {
        folders := folders + [FolderAt(doc, i)];
      }
    }
  }

  /** `parseFolderTree(html)`: `buildTree` on a fresh array of the parsed
      folders. */
  method ParseFolderTree(doc: Document) returns (tree: seq<Item>)
    requires WellFormed(doc)
    ensures tree == ParsedFolderTree(doc)
  {
    var folders := ParseFolders(doc);
    ParsedFoldersFlat(doc);
    var a := new Item[|folders|](k requires 0 <= k < |folders| => folders[k]);
    assert a[..] == folders;
    tree := BuildTreeInPlace(a, 0);
  }

  // --- properties ---

  /** The parser emits one record per element of its tag, and the folder
      records are flat folders. */
  lemma ParsedFoldersFlat(doc: Document)
    requires WellFormed(doc)
    ensures FlatFolders(ParsedFolders(doc)) && AllFolders(ParsedFolders(doc))
    ensures |ParsedFolders(doc)| == |Select(doc, "h3", |doc|)|
    ensures |ParsedBookmarks(doc)| == |Select(doc, "a", |doc|)|
    ensures forall k :: 0 <= k < |ParsedBookmarks(doc)| ==> ParsedBookmarks(doc)[k].Bookmark?
  {
  }

  /** Every parsed folder appears exactly once in the parsed folder tree. */
  lemma ParsedFolderTreeKeepsEveryFolder(doc: Document)
    requires WellFormed(doc)
    ensures multiset(PreorderForest(ParsedFolderTree(doc))) == multiset(ParsedFolders(doc))
  {
    ParsedFoldersFlat(doc);
    BuildTreeKeepsEveryFolder(ParsedFolders(doc), 0);
  }

  /** Elements in the same list have the same parent folders. */
  lemma {:induction false} SameListSameFolders(doc: Document, i: nat, j: nat)
    requires WellFormed(doc) && i < |doc| && j < |doc|
    requires Closest(doc, i, "dl") == Closest(doc, j, "dl")
    ensures ParentFolderNames(doc, i) == ParentFolderNames(doc, j)
    ensures UserFolders(doc, i) == UserFolders(doc, j)
  {
  }

  /** An element in the list that follows the heading `h` sits one folder
      deeper than `h`, in the folder `h` names: below the two outermost
      levels, the record of such an `<a>` is directly inside the record of
      the `<h3>` heading. */
  lemma DirectlyInsideHeading(doc: Document, h: nat, i: nat)
    requires WellFormed(doc) && h < |doc| && i < |doc|
    requires doc[h].tag == "h3" && doc[i].tag == "a"
    requires Heading(doc, i) == Some(h)
    requires |ParentFolderNames(doc, h)| >= 2
    ensures BookmarkAt(doc, i).parentFolders == FolderAt(doc, h).parentFolders + [FolderAt(doc, h).title]
    ensures IsInside(FolderAt(doc, h), false, BookmarkAt(doc, i))
  {
    var names := ParentFolderNames(doc, h);
    assert ParentFolderNames(doc, i) == names + [doc[h].text];
    assert (names + [doc[h].text])[2..] == names[2..] + [doc[h].text];
  }

  // --- an export file ---

  function El(tag: string, text: string, parent: Option<nat>, prev: Option<nat>): Node {
    Node(tag, text, map[], 0, parent, prev)
  }

  /** The skeleton of an export: the root heading, the toolbar folder, a
      folder "Work" in the toolbar, a folder "Projects" in "Work" and a link
      in "Projects". */
  const Export: Document := [
    El("h1", "Bookmarks", None, None),                  // 0
    El("dl", "", None, Some(0)),                         // 1
    El("dt", "", Some(1), None),                         // 2
    El("h3", "Bookmarks bar", Some(2), None),            // 3
    El("dl", "", Some(2), Some(3)),                      // 4
    El("dt", "", Some(4), None),                         // 5
    El("h3", "Work", Some(5), None),                     // 6
    El("dl", "", Some(5), Some(6)),                      // 7
    El("dt", "", Some(7), None),                         // 8
    El("h3", "Projects", Some(8), None),                 // 9
    El("dl", "", Some(8), Some(9)),                      // 10
    El("dt", "", Some(10), None),                        // 11
    Node("a", "Site", map["href" := "https://example.com"], 42, Some(11), None) // 12
  ]

  lemma ExportWellFormed()
    ensures WellFormed(Export)
  {
  }

  lemma ExportHeadings()
    ensures WellFormed(Export)
    ensures Heading(Export, 0) == None && Heading(Export, 3) == Some(0) && Heading(Export, 6) == Some(3)
    ensures Heading(Export, 9) == Some(6) && Heading(Export, 12) == Some(9)
  {
    ExportOuterHeadings();
    ExportInnerHeadings();
  }

  lemma ExportOuterHeadings()
    ensures WellFormed(Export)
    ensures Heading(Export, 0) == None && Heading(Export, 3) == Some(0) && Heading(Export, 6) == Some(3)
  {
    ExportWellFormed();
    assert Closest(Export, 0, "dl") == None;
    ExportHeading3();
    ExportHeading6();
  }

  lemma ExportHeading3()
    ensures WellFormed(Export) && Heading(Export, 3) == Some(0)
  {
    ExportWellFormed();
    assert Closest(Export, 3, "dl") == Closest(Export, 2, "dl") == Some(1);
  }

  lemma ExportHeading6()
    ensures WellFormed(Export) && Heading(Export, 6) == Some(3)
  {
    ExportWellFormed();
    assert Closest(Export, 6, "dl") == Closest(Export, 5, "dl") == Some(4);
  }

  lemma ExportInnerHeadings()
    ensures WellFormed(Export)
    ensures Heading(Export, 9) == Some(6) && Heading(Export, 12) == Some(9)
  {
    ExportWellFormed();
    assert Closest(Export, 9, "dl") == Some(7);
    assert Closest(Export, 12, "dl") == Some(10);
  }

  lemma ExportNames()
    ensures WellFormed(Export)
    ensures ParentFolderNames(Export, 6) == ["Bookmarks", "Bookmarks bar"]
    ensures ParentFolderNames(Export, 9) == ["Bookmarks", "Bookmarks bar", "Work"]
    ensures ParentFolderNames(Export, 12) == ["Bookmarks", "Bookmarks bar", "Work", "Projects"]
  {
    ExportHeadings();
    assert ParentFolderNames(Export, 0) == [];
    assert ParentFolderNames(Export, 3) == ["Bookmarks"];
  }

  /** The two outermost headings never show up as parent folders: "Work"
      is top-level, "Projects" sits in "Work", the link in "Work/Projects". */
  lemma ExportFolders()
    ensures WellFormed(Export)
    ensures FolderAt(Export, 6).parentFolders == []
    ensures FolderAt(Export, 9).parentFolders == ["Work"]
    ensures BookmarkAt(Export, 12).parentFolders == ["Work", "Projects"]
    ensures BookmarkAt(Export, 12).addDate == 42
    ensures BookmarkAt(Export, 12).href == "https://example.com" && BookmarkAt(Export, 12).icon == None
  {
    ExportFolderPaths();
    ExportLink();
  }

  lemma ExportFolderPaths()
    ensures WellFormed(Export)
    ensures FolderAt(Export, 6).parentFolders == []
    ensures FolderAt(Export, 9).parentFolders == ["Work"]
  {
    ExportNames();
    assert ["Bookmarks", "Bookmarks bar", "Work"][2..] == ["Work"];
  }

  lemma ExportLink()
    ensures WellFormed(Export)
    ensures BookmarkAt(Export, 12).parentFolders == ["Work", "Projects"]
    ensures BookmarkAt(Export, 12).addDate == 42
    ensures BookmarkAt(Export, 12).href == "https://example.com" && BookmarkAt(Export, 12).icon == None
  {
    ExportNames();
    assert ["Bookmarks", "Bookmarks bar", "Work", "Projects"][2..] == ["Work", "Projects"];
  }
}
