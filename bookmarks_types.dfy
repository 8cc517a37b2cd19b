/** The records the app works with. An item is a folder or a bookmark; both
    carry the titles of their parent folders (outermost first), their own
    title and their `add_date` timestamp. `isFolder` and `isBookmark` of the
    source are the constructor tests `Folder?` and `Bookmark?`. */
module BookmarkTypes {
  import opened Wrappers

  datatype Item =
    | Folder(parentFolders: seq<string>, title: string, addDate: int, children: seq<Item>)
    | Bookmark(parentFolders: seq<string>, title: string, addDate: int, href: string, icon: Option<string>)
}
