/** The fixture folders and bookmarks the tests use. Each fixture's `addDate`
    is derived from its position in the fixture table: folders get even
    offsets from 1600000000000, bookmarks odd ones. */
module BookmarksMock {
  import opened Wrappers
  import opened BookmarkTypes

  function FolderDate(i: nat): int { 1600000000000 + 2 * i }
  function BookmarkDate(i: nat): int { 1600000000001 + 2 * i }

  function MockFolder(parents: seq<string>, title: string, i: nat): Item {
    Folder(parents, title, FolderDate(i), [])
  }

  function MockBookmark(parents: seq<string>, title: string, i: nat): Item {
    Bookmark(parents, title, BookmarkDate(i), "#/" + title, None)
  }

  // Folders: "/A", "/A/A", "/A/A/A", "/A/B", "/A_", "/B", "/C", "/C/A".
  const FA: Item := MockFolder([], "A", 0)
  const FAA: Item := MockFolder(["A"], "A", 1)
  const FAAA: Item := MockFolder(["A", "A"], "A", 2)
  const FAB: Item := MockFolder(["A"], "B", 3)
  const FAx: Item := MockFolder([], "A", 4)
  const FB: Item := MockFolder([], "B", 5)
  const FC: Item := MockFolder([], "C", 6)
  const FCA: Item := MockFolder(["C"], "A", 7)

  // Bookmarks: "/a", "/A/a", "/A/A/a", "/A/A/A/a", "/A_/a", "/B/a".
  const Ba: Item := MockBookmark([], "A", 0)
  const BAa: Item := MockBookmark(["A"], "A", 1)
  const BAAa: Item := MockBookmark(["A", "A"], "A", 2)
  const BAAAa: Item := MockBookmark(["A", "A", "A"], "A", 3)
  const BAxa: Item := MockBookmark(["A"], "A", 4)
  const BBa: Item := MockBookmark(["B"], "A", 5)

  /** All fixture folders, in table order. */
  const FolderFixtures: seq<Item> := [FA, FAA, FAAA, FAB, FAx, FB, FC, FCA]
}
