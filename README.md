# Bookmarks — a Dafny model

The application reads a browser's bookmark export, a Netscape bookmark file,
and presents it for browsing. It parses the file into flat lists of bookmarks
and folders. Each record knows the titles of its parent folders. It then
builds the folders into a tree for navigation. Around that core sit small
helpers:

- identity and containment tests on items;
- a comparator factory and a bucketing function;
- the breadcrumb trail;
- the expanded and collapsed folders of the navigation;
- the selection of bookmarks;
- link shortening;
- the checks on upload file names and contents;
- a CSS class-list builder;
- the plain-text export of links.

This project models each of those as Dafny and proves what the code promises
about it. There is one module per source file:

| module | file | form |
|---|---|---|
| `BookmarkTypes`, `BookmarksMock` | `app/bookmarks.types.ts`, `app/bookmarks.mock.ts` | datatypes, fixtures |
| `BookmarkUtils` | `app/bookmarks.utils.ts` | functions and lemmas |
| `ArrayUtils` | `app/utils/array.ts` | `by` as functions; `splitBy` as a method with a loop over a key list and a map; the engine's sort as an in-place insertion sort on an `array` |
| `FolderTree` | `app/models/folderTree.ts` (and the identical copy in `app/bookmarks.parser.server.ts:73-108`) | `buildTree` on values, plus a method that sorts the caller's array in place |
| `BookmarksParser` | `app/bookmarks.parser.server.ts` | a document as an arena of element nodes; `parseBookmarks`, `parseFolders` and `parseFolderTree` as methods with loops |
| `Breadcrumbs` | `app/bookmarks.breadcrumbs.ts` | function and lemma |
| `FoldersTree` | `app/folders.tree.ts` | class `ExpandedFolders` with the `expandedPaths` field |
| `Selection` | `app/utils/selection.ts` | class `SelectionState` with the `selected` field |
| `FolderPredicates` | `app/components/folders.tsx` (`isFolderSelected`, `isFolderOpen`) | predicates and lemmas |
| `LinkUtils` | `app/links.utils.ts` | function and a method with the early-exit loop |
| `FileUtils` | `app/bookmarks.file.utils.ts`, `app/utils/assert.ts` | predicates and result-returning functions |
| `Classes` | `app/utils/classes.ts` | functions and lemmas |
| `LinksFile` | `app/links.file.ts` | function and lemmas |
| `Strings`, `Seqs`, `Wrappers` | — | the JavaScript string and array operations used, `Option`, `Result` |

A few behaviours of the code are easy to miss; the model keeps them:

- An item's derived id is `${getItemPath(item)}_${item.addDate}`
  (`app/bookmarks.utils.ts:13-15`), and `parentFolders` holds plain titles
  (`app/bookmarks.parser.server.ts:54-64`).
- The parser drops the two outermost ancestor names by position
  (`app/bookmarks.parser.server.ts:54-56`) and emits every `<h3>`, the
  toolbar's own heading included.
- The grouping key of `buildTree` uses titles only. Two folders with the
  same title at the same place therefore nest into one another
  (`FolderTree.SameTitleFoldersNest`).
- For the same reason `isInside` cannot tell them apart. The comment at
  `app/bookmarks.utils.ts:58` expects `isInside(A_)(A/A/A)` to be false; the
  code answers true (`BookmarkUtils.SameTitleFolderContains`).

## Model

| member | source | states |
|---|---|---|
| BookmarkUtils.ItemPathShape | app/bookmarks.utils.ts:17-23 | an item's path is its parent path, `/` and its title; a top-level item's path is its bare title |
| BookmarkUtils.JoinPathAppend | app/bookmarks.utils.ts:29-31 | joining two non-empty title lists gives the two joins around one `/` |
| Strings.Utf16Length | app/links.utils.ts:10 | `.length` counts between one and two code units per character |
| Strings.Utf16LengthAppend | app/links.utils.ts:10 | the length of a concatenation is the sum of the lengths, as `shortened += …` relies on |
| Strings.Utf16LengthBmp | app/links.utils.ts:10 | the length equals the character count exactly when every character is in the Basic Multilingual Plane |
| Strings.Utf16LengthAstral | app/links.utils.ts:10 | the length is twice the character count exactly when every character lies outside the Basic Multilingual Plane |
| Strings.IntToDecimalInjective | app/bookmarks.utils.ts:13-15 | different timestamps print differently, so the derived id keeps the timestamp |
| BookmarkUtils.IsSameAsIff | app/bookmarks.utils.ts:44-46 | two items are the same exactly when their paths and timestamps are equal; the `_` before the timestamp loses nothing |
| BookmarkUtils.IsSameAsIgnoresContents | app/bookmarks.utils.ts:75-89 | `isSameAs` is reflexive; a copy with other children, link or icon is the same item |
| BookmarkUtils.DifferentLocationsDiffer | app/bookmarks.utils.ts:44-46 | items whose title lists differ are never the same, provided no title contains `/` |
| BookmarkUtils.NotInsideItself | app/bookmarks.utils.ts:61-67 | a folder is not inside itself unless it is a top-level folder with an empty title |
| BookmarkUtils.DirectlyInsideIsInside | app/bookmarks.utils.ts:61-67 | an item directly inside a folder is also inside it when subfolders are included |
| BookmarkUtils.DescendantIsInside | app/bookmarks.utils.ts:61-67 | an item whose parent folders extend the folder's titles is inside it; it is directly inside when it is one level deeper |
| BookmarkUtils.InsideIsRawPrefix | app/bookmarks.utils.ts:65 | containment with subfolders is a string-prefix test: folder "A" contains an item of folder "AB" |
| BookmarkUtils.SameTitleFolderContains | app/bookmarks.utils.ts:56-66 | `/A_` is not `/A`, yet it contains `/A/A` directly and `/A/A/A` with subfolders |
| BookmarkUtils.SameAsCopyExamples | app/bookmarks.utils.ts:75-89 | the test vectors: copies with other children or another link are the same |
| BookmarkUtils.SameAsFolderExamples | app/bookmarks.utils.ts:80-83 | the test vectors: fixture folders at different places differ, and `/A` differs from `/A_` |
| BookmarkUtils.SameAsBookmarkExamples | app/bookmarks.utils.ts:90-92 | the test vectors: fixture bookmarks at different depths differ |
| BookmarkUtils.IsInsideExamples | app/bookmarks.utils.ts:98-141 | the containment vectors of lines 98-108, 110-111, 115-117, 123, 125, 127, 131-133, 136-137 and 141: a folder contains its subfolders and the bookmarks at every depth below it, with subfolders off only its direct children, and contains neither itself, a sibling nor anything outside |
| BookmarkUtils.IsInsideMoreExamples | app/bookmarks.utils.ts:109-142 | the containment vectors of lines 109, 112-114, 124, 126, 130, 134-135, 138-140 and 142: `/A/A` contains the bookmark two levels down, deeper folders do not contain shallower bookmarks, and without subfolders only the direct parent contains |
| ArrayUtils.By | app/utils/array.ts:8-16 | as written: the comparator answers -1 exactly when `a` evaluates lower and 0 otherwise, so it never answers 1 |
| ArrayUtils.ByIntended | app/utils/array.ts:8-16 | the corrected comparator answers -1, 1 or 0 exactly when `a` evaluates lower, higher or equal |
| ArrayUtils.ByIsInconsistent | app/utils/array.ts:13 | by length, `""` compares below `"a"`, yet `"a"` does not compare above `""` |
| ArrayUtils.ByIntendedIsConsistent | app/utils/array.ts:8-16 | the corrected comparator is antisymmetric, and it answers "negative" exactly when `by` as written does |
| ArrayUtils.SortInPlace | app/models/folderTree.ts:12 | sorting the array in place leaves it holding the stable sort of its old contents |
| ArrayUtils.InsertInPlace | app/models/folderTree.ts:12 | one insertion step puts `a[i]` into the sorted prefix and leaves the rest of the array alone |
| ArrayUtils.ShiftGreater | app/models/folderTree.ts:12 | the inner loop shifts the prefix elements that `x` compares below one slot right and returns the slot left for `x` |
| ArrayUtils.SortByIsSorted | app/models/folderTree.ts:10-12 | the sorted list is in ascending order of `evaluate` |
| ArrayUtils.SortByIsPermutation | app/models/folderTree.ts:12 | the sorted list is a permutation of the input |
| ArrayUtils.SortByStable | app/models/folderTree.ts:12 | elements that evaluate alike keep their input order |
| ArrayUtils.SortByOfSorted | app/models/folderTree.ts:12 | sorting an ascending list leaves it unchanged |
| ArrayUtils.SortByLengthExample | app/utils/array.test.ts:6 | `["aa", "", "a"]` sorted by length is `["", "a", "aa"]` |
| ArrayUtils.SplitBy | app/utils/array.ts:24-34 | the loop over the insertion-ordered map returns the buckets `splitBy` specifies |
| ArrayUtils.BucketsEmpty | app/models/folderTree.test.ts:15 | an empty list makes no buckets |
| ArrayUtils.BucketsProperties | app/utils/array.ts:24-34 | no bucket is empty; each holds only elements of its key; different buckets have different keys; together they hold the input exactly once |
| ArrayUtils.BucketsPartition | app/utils/array.ts:27-32 | the concatenated buckets are a permutation of the input |
| ArrayUtils.KeysFacts | app/utils/array.ts:28-30 | every element's key is listed once and has a non-empty bucket |
| ArrayUtils.BucketMembers | app/utils/array.ts:28-30 | every element of a bucket has the bucket's key and comes from the input |
| ArrayUtils.BucketIsFilter | app/utils/array.ts:18-30 | a bucket is the input filtered by its key, so it keeps input order |
| ArrayUtils.KeysInFirstOccurrenceOrder | app/utils/array.ts:26-32 | buckets come in the order in which their keys first occur |
| ArrayUtils.BucketOfSortedIsSorted | app/models/folderTree.ts:10-13 | a bucket of a sorted list is sorted |
| ArrayUtils.SplitByLengthExamples | app/utils/array.test.ts:12-15 | `["aa", "a", "b"]` split by length is `[["aa"], ["a", "b"]]` |
| FolderTree.GroupsWellFormed | app/models/folderTree.ts:12-13 | the groups are non-empty lists of folders that hold the input exactly once |
| FolderTree.BuildTreeInPlace | app/models/folderTree.ts:9-26 | the caller's array ends up sorted by level, and the tree is `buildTree` of the array's old contents |
| FolderTree.AttachAll | app/models/folderTree.ts:15-23 | the `flatMap` makes one node per group, in group order |
| FolderTree.AttachInPlace | app/models/folderTree.ts:16-22 | the callback gives the leader the tree of the rest of its group, one level deeper, when that rest is non-empty |
| FolderTree.BuildTreeKeepsEveryFolder | app/models/folderTree.ts:9-26 | every input folder appears exactly once in the pre-order of the result forest |
| FolderTree.BuildGroupsKeepsEveryFolder | app/models/folderTree.ts:15-23 | the nodes made from the groups hold exactly the groups' folders |
| FolderTree.AttachKeepsEveryFolder | app/models/folderTree.ts:16-22 | the node made from one group holds exactly that group's folders |
| FolderTree.LeaderIsShallowest | app/models/folderTree.ts:10-13 | each group's leader is a shallowest folder of its group |
| FolderTree.GroupsByKey | app/models/folderTree.ts:40-49 | all folders of a group share its key, and different groups have different keys |
| FolderTree.BuildTreeShape | app/models/folderTree.ts:15-23 | one node per group, in group order; the leader gets `children := buildTree(rest, level + 1)` when the rest is non-empty and is untouched otherwise; top-level nodes have distinct keys |
| FolderTree.NodesKeepKeys | app/models/folderTree.ts:15-23 | each node has the key of the group it was made from |
| FolderTree.BuildTreeEmpty | app/models/folderTree.test.ts:34-36 | `buildTree([])` is `[]` |
| FolderTree.BuildTreeSingle | app/models/folderTree.ts:16-21 | a single folder is its own tree at any level |
| FolderTree.SplitByParentPathExample | app/bookmarks.parser.server.ts:181-215 | the full fixture list groups at level 0 into `/A` with its three descendants, `/B`, and `/C` with `/C/A` |
| FolderTree.BuildTreeLevelOneExample | app/bookmarks.parser.server.ts:181-215 | the `/A` subtree built at level 1 nests `/A/A/A` under `/A/A`, beside `/A/B` |
| FolderTree.BuildTreeExample | app/bookmarks.parser.server.ts:181-215 | the full tree: `/A` holds `/A/A` (holding `/A/A/A`) and `/A/B`; `/B`; `/C` holds `/C/A` |
| FolderTree.SameTitleFoldersNest | app/models/folderTree.ts:40-49 | two top-level folders both titled "A" share a key, so the second becomes the first's child |
| BookmarksParser.Closest | app/bookmarks.parser.server.ts:59 | `closest(tag)` is the element itself when it has the tag, otherwise an earlier element with the tag, or nothing |
| BookmarksParser.Heading | app/bookmarks.parser.server.ts:59 | the heading of an element's list precedes the element |
| BookmarksParser.ParentFolderNames | app/bookmarks.parser.server.ts:58-64 | the chain is empty exactly when there is no heading, and it ends with the heading's text |
| BookmarksParser.UserFolders | app/bookmarks.parser.server.ts:54-56 | the two outermost names are dropped; a chain of at most two gives `[]` |
| BookmarksParser.Select | app/bookmarks.parser.server.ts:12 | `$(tag)` gives the elements with that tag, all of them, in document order |
| BookmarksParser.BookmarkAt | app/bookmarks.parser.server.ts:14-20 | a bookmark record: text as title, user folders, `add_date`; a missing or empty `href` gives `""` and a missing or empty `icon` gives none |
| BookmarksParser.FolderAt | app/bookmarks.parser.server.ts:33-38 | a folder record with text as title, user folders, `add_date` and no children |
| BookmarksParser.ParseBookmarks | app/bookmarks.parser.server.ts:7-24 | the loop pushes one record per `<a>`, in document order |
| BookmarksParser.ParseFolders | app/bookmarks.parser.server.ts:26-42 | the loop pushes one record per `<h3>`, in document order |
| BookmarksParser.ParseFolderTree | app/bookmarks.parser.server.ts:44-46 | the tree is `buildTree` of the parsed folders |
| BookmarksParser.ParsedFoldersFlat | app/bookmarks.parser.server.ts:26-42 | the parsed folders are flat folders, one per `<h3>`; the bookmarks are one per `<a>` |
| BookmarksParser.ParsedFolderTreeKeepsEveryFolder | app/bookmarks.parser.server.ts:44-46 | every parsed folder appears exactly once in the parsed tree |
| BookmarksParser.SameListSameFolders | app/bookmarks.parser.server.ts:58-64 | elements of the same list have the same parent folders |
| BookmarksParser.DirectlyInsideHeading | app/bookmarks.parser.server.ts:54-64 | below the two outer levels, a link in a folder's list is directly inside that folder's record |
| BookmarksParser.ExportNames | app/bookmarks.parser.server.ts:58-64 | in a sample export, the chains are root-first: root, toolbar, "Work", "Projects" |
| BookmarksParser.ExportFolderPaths | app/bookmarks.parser.server.ts:50-56 | in a sample export, "Work" has no parent folders and "Projects" has `["Work"]` |
| BookmarksParser.ExportLink | app/bookmarks.parser.server.ts:14-20 | in a sample export, the link's record has its folders, date, `href` and no icon |
| Breadcrumbs.BreadcrumbsProperties | app/bookmarks.breadcrumbs.ts:24-36 | no current folder gives `[]`; otherwise the last crumb is the current folder; the earlier crumbs are exactly the input folders that contain it, in input order; at most `\|folders\| + 1` crumbs |
| FoldersTree.ExpandedFolders.constructor | app/folders.tree.ts:8 | nothing is expanded at first |
| FoldersTree.ExpandedFolders.ToggleFolder | app/folders.tree.ts:10-22 | the new list is the toggled old list |
| FoldersTree.ToggledProperties | app/folders.tree.ts:10-22 | no folder empties the list; an absent path is appended and nothing else changes; a present path goes, with every path starting with it, and the rest stay in order; at most one path is added |
| FoldersTree.ToggleTwiceRestores | app/folders.tree.ts:17-21 | expanding a folder and toggling it again restores the list, when no path started with the folder's path |
| FoldersTree.ToggleKeepsDistinct | app/folders.tree.ts:17-21 | the list never holds a path twice |
| FoldersTree.CollapseIsRawPrefix | app/folders.tree.ts:19 | collapsing "A" also drops "AB" |
| Selection.AnyMatch | app/utils/selection.ts:23-29 | `some(p)` holds exactly when some element satisfies `p` |
| Selection.SelectionState.constructor | app/utils/selection.ts:9-21 | the selection starts as the initial selection or `[]`; equality is the given one or, by default, value equality standing for `===` |
| Selection.SelectionState.Select | app/utils/selection.ts:34-54 | one element toggles; a list is added without duplicates, in the order `Dedup` keeps |
| Selection.SelectionState.Deselect | app/utils/selection.ts:56-70 | the elements matching one to remove are dropped |
| Selection.SelectionState.Reset | app/utils/selection.ts:72-74 | the selection becomes `[]` |
| Selection.ToggleOneProperties | app/utils/selection.ts:43-51 | if something matched `x`, nothing does afterwards and the other elements stay in order; otherwise `x` is appended, and it is selected when `eq` is reflexive |
| Selection.SelectTwiceRestores | app/utils/selection.ts:44-51 | selecting one element twice restores the selection, when nothing matched it and `eq` is reflexive |
| Selection.RemoveProperties | app/utils/selection.ts:56-70 | `deselect` drops exactly the elements that match one to remove; survivors keep their order and nothing is added |
| Selection.DedupProperties | app/utils/selection.ts:36-42 | deduplication keeps each element once, loses none, and leaves a list without repetitions unchanged |
| Selection.DedupKeepsPrefix | app/utils/selection.ts:36-42 | adding a list keeps the old selection, in order, at the front |
| Selection.FirstOccurrence | app/utils/selection.ts:39-41 | the index where an element first occurs, or the length when it is absent |
| Selection.DedupOrder | app/utils/selection.ts:39-41 | the deduplicated list is a subsequence of the input, and its elements come in the order of their first occurrences, as a `Set` iterates in insertion order |
| Selection.SelectManyProperties | app/utils/selection.ts:36-42 | after adding a list, exactly the old and the new elements are selected |
| FolderPredicates.FolderPredicatesProperties | app/components/folders.tsx:97-105 | with no current folder nothing is selected or open; selected implies open; a folder holding the current folder is open |
| FolderPredicates.NavigationExample | app/components/folders.tsx:101-105 | with `/A/A/A` current: it is selected; it and its ancestors are open; `/A/B` and `/B` are not |
| LinkUtils.ShortenLink | app/links.utils.ts:3-18 | the loop with its early exit computes `shorten`, comparing lengths in UTF-16 code units as `.length` does |
| LinkUtils.AppendSegmentsShape | app/links.utils.ts:9-15 | the result is the start, some first segments each after `/`, and `/...` exactly when segments were left; the segment that stopped the loop would have passed the limit |
| LinkUtils.ShortenFailsWithoutAddress | app/links.utils.ts:4-5 | `shorten` fails exactly on links without `//` |
| LinkUtils.ReplaceWwwShortens | app/links.utils.ts:7 | removing `www.` never makes the domain longer in code units |
| LinkUtils.ShortenBounds | app/links.utils.ts:5-15 | the result starts with the domain without its first `www.`; it is at most 31 code units longer than the domain without `/...` and at most 35 with it |
| LinkUtils.ShortenAddress | app/links.utils.ts:4-7 | only the text after the first `//` is used, split on `/` into domain and segments |
| LinkUtils.ShortenDomainOnly | app/links.utils.ts:4-17 | an address without `/` shortens to its domain without the first `www.` |
| LinkUtils.ShortenCountsCodeUnits | app/links.utils.ts:10 | `h://d/` followed by sixteen U+1F600 is cut to `d/...`: the segment is 16 characters but 32 code units, over the budget of 31 |
| LinkUtils.ShortenIgnoresSecondAddress | app/links.utils.ts:4 | whatever follows a second `//` is ignored |
| LinkUtils.ShortenLocalhost | app/links.utils.ts:25 | `http://localhost:3000` becomes `localhost:3000` |
| LinkUtils.ShortenWww | app/links.utils.ts:26 | `https://www.youtube.com` becomes `youtube.com` |
| LinkUtils.ShortenShortPath | app/links.utils.ts:27-29 | a short path is kept whole |
| LinkUtils.ShortenLongPath | app/links.utils.ts:30-32 | a long path is cut to `example.com/videos/...` |
| FileUtils.IsFileNameIff | app/bookmarks.file.utils.ts:18-24 | a file name has no `/`, ends in `.html` and has something before it |
| FileUtils.WithExtensionIsFileName | app/bookmarks.file.utils.ts:49-51 | adding the extension gives a file name exactly when the name is non-empty and has no `/` |
| FileUtils.WithoutWithExtension | app/bookmarks.file.utils.ts:45-51 | removing the extension undoes adding it, for a name without `.html` |
| FileUtils.WithoutExtensionFirstOnly | app/bookmarks.file.utils.ts:45-47 | only the first `.html` is removed |
| FileUtils.FilePathProperties | app/bookmarks.file.utils.ts:14-16 | any prefix that does not hold the upload folder, absolute paths included, followed by the upload folder, `/` and a file name forms a file path; text without the upload folder is not one |
| FileUtils.AbsoluteFilePath | app/bookmarks.file.utils.ts:14-16 | the absolute path `/srv/files/uploaded/bookmarks_example.html` is a file path |
| FileUtils.UploadFolderUnbordered | app/bookmarks.file.utils.ts:15 | no proper suffix of the upload folder is also its prefix, so its first occurrence is found right after a prefix that does not hold it |
| Strings.FirstAfterPart | app/bookmarks.file.utils.ts:15 | for a separator without borders, `split` on prefix + separator + rest yields the prefix followed by the split of the rest |
| FileUtils.IsFileContentProperties | app/bookmarks.file.utils.ts:26-28 | text opening with the doctype is file content; anything shorter than the doctype is not |
| FileUtils.AssertFileNameProperties | app/bookmarks.file.utils.ts:35-38 | passes exactly a string that is a file name; otherwise fails with `Assertion failed: assertFileName (<typeof>)` |
| FileUtils.AssertFileContentProperties | app/bookmarks.file.utils.ts:40-43 | passes exactly a string that is file content; otherwise fails with `Assertion failed: assertFileContent (<typeof>)` |
| FileUtils.ExampleFileNameIsFileName | app/bookmarks.file.utils.ts:7 | the example file name is a file name |
| Classes.TrimProperties | app/utils/classes.ts:11-13 | a trimmed string is a slice of the original with only white space cut from either end; it neither starts nor ends with white space; it is empty exactly when the string is all white space |
| Classes.DropsEmptyNames | app/utils/classes.ts:7-9 | undefined and empty names are dropped wherever they appear |
| Classes.SplitClassList | app/utils/classes.ts:1-3 | splitting the class list on spaces gives the kept names trimmed, in order, when no trimmed name has a space |
| Classes.ClassListEmpty | app/utils/classes.ts:20 | `classes("")` is `""` |
| Classes.ClassListTwo | app/utils/classes.ts:21 | two words join with one space |
| Classes.ClassListSkips | app/utils/classes.ts:22 | undefined and `""` between two words are skipped |
| Classes.ClassListTrims | app/utils/classes.ts:25 | padded words are trimmed |
| Classes.ClassListBlankWord | app/utils/classes.ts:1-13 | a blank name passes the filter and becomes an empty word: `classes("a", " ", "b")` has two spaces |
| LinksFile.Hrefs | app/links.file.ts:4 | the links of the bookmarks, one per bookmark, in order |
| LinksFile.LinksFileEmpty | app/links.file.ts:4 | no bookmarks give an empty file |
| LinksFile.OnlyHrefsMatter | app/links.file.ts:3-5 | bookmarks with the same links give the same file, whatever their titles and icons |
| LinksFile.LinksFileLines | app/links.file.ts:3-5 | splitting the file on newlines gives back the links, when there is at least one and none holds a newline |

## Left out

- The markup library (`load`, `$(tag)`, `closest`, `prev`, `text`, `attr`) is replaced by a document given as an arena of element nodes. Each node knows its tag, text, attributes, parent and previous element sibling. HTML parsing itself is not modelled.
- `Number($el.attr("add_date"))` is not modelled: `addDate` is given as an integer, so `NaN` and fractional dates do not occur.
- The derived id prints `addDate` as a plain decimal. JavaScript's exponent form for magnitudes of 10^21 and above is not modelled.
- The engine's `Array.prototype.sort` is modelled as a stable insertion sort. It asks only whether the comparator's answer is negative. A sort that also uses positive answers is not modelled, and the finding below shows why the distinction matters.
- `Map` iteration is taken to be first-insertion order. It is modelled by a key list beside a map.
- ArrayUtils.SplitBy: `bucket.concat(el)` spreads `el` when it is itself an array. The model always appends `el` as one element, so it differs from the code when the elements are arrays. In the code they are folders or strings.
- ArrayUtils.By: `evaluate` returns a JavaScript number, which may be fractional or `NaN`. The model takes it to be an integer. The code evaluates folder levels and string lengths, which are integers.
- String operations other than the `.length` in `shorten` work on characters, not on UTF-16 code units. Every separator and pattern the code uses (`//`, `/`, `www.`, `.html`, spaces, newlines) lies in the Basic Multilingual Plane, so the pieces are the same either way. The file-name test `val.length > FILE_EXTENSION.length` (`app/bookmarks.file.utils.ts:22`) comes after the `.html` suffix test, and then it holds exactly when some character precedes the suffix, in either unit.
- `buildTree` assigns `children` on the caller's folder objects. The model builds new values instead. Aliasing between the input array and the returned tree is not captured, and neither is the caller's objects' being changed. The in-place sort of the caller's array is modelled.
- `select(list)` removes duplicates with a `Set`, that is by reference identity. The model uses value identity on records. The custom `eq` is not used there, as in the code.
- Selection.SelectionState.constructor: the default `eq` is `===`, reference identity on the bookmark records. The model's default is value equality, so two distinct objects with equal fields count as one element here and as two in the code.
- `find` in `select` and `deselect` treats a falsy matched element as no match. The model takes elements to be records, which are always truthy (`Selection.AnyMatch`).
- Options spread with explicit `undefined` values are not modelled: a missing option is `None` and takes its default.
- The React hooks (`useState`, `useCallback`) are modelled as objects whose fields the actions update. Rendering, memoisation and batching are not modelled.
- `contains` in `app/bookmarks.breadcrumbs.ts` is not defined in `app/bookmarks.utils.ts`, so it is a parameter of `Breadcrumbs.GetBreadcrumbs`. The breadcrumb test vectors depend on it and are not restated.
- `app/components/folders.tsx` imports `isSameAs` and `isInside` from `app/models/bookmark.ts`, which holds only types. The model uses the versions in `app/bookmarks.utils.ts`.
- `assertFile` needs a `File` object and its MIME type, and is not modelled. Thrown errors are modelled as `Err` results carrying the message.
- The `shorten` examples are stated for any protocol without `/`, not only `http:` and `https:`.
- The test vectors of `splitByParentPath` on short lists (`app/bookmarks.parser.server.ts:122-144`, `app/models/folderTree.test.ts:18-30`) and of `buildTree` on one and two levels are not restated. The full-tree vector and its level-one subtree are restated.
- The second `splitBy` test vector (`app/utils/array.test.ts:16-18`) is not restated. The general lemmas cover its properties.

## Findings

| source | as written | input that shows it | evidently intended | confidence | as-written member | corrected member |
|---|---|---|---|---|---|---|
| app/utils/array.ts:13 | `if (bval > aval) return 1` repeats the test of line 12 with its sides swapped, so the comparator never answers 1 | `by(s => s.length)("a", "")` answers 0, while `by(s => s.length)("", "a")` answers -1: the comparator is not antisymmetric | `if (aval > bval) return 1` | high; not executed | ArrayUtils.ByIsInconsistent | ArrayUtils.ByIntended |

The sort model uses `ArrayUtils.ByIntended`. `ArrayUtils.ByIntendedIsConsistent` shows that it answers "negative" exactly when `by` as written does. A sort that only asks that question therefore orders alike with either comparator.
