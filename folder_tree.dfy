/** The flat-to-tree folder builder. At nesting level `level` it sorts the
    folders by depth, groups them by the path they share at that level, makes
    the first folder of each group the group's parent and builds the rest of
    the group, one level deeper, into that parent's `children`. */
module FolderTree {
  import opened Wrappers
  import opened Strings
  import opened Seqs
  import opened BookmarkTypes
  import opened BookmarkUtils
  import opened ArrayUtils
  import opened BookmarksMock

  /** Every element is a folder (the source's `Folder[]` type). */
  predicate AllFolders(folders: seq<Item>) {
    forall i :: 0 <= i < |folders| ==> folders[i].Folder?
  }

  /** The grouping key of `splitByParentPath(level)`: a folder at `level`
      is keyed by its own path, a deeper one by the path of its first
      `level + 1` parent folders (`slice` clamps at the list's end). */
  function GroupKey(level: nat, f: Item): string {
    var n := |f.parentFolders|;
    JoinPath(if n == level then f.parentFolders + [f.title]
             else f.parentFolders[..if level + 1 <= n then level + 1 else n])
  }

  /** The bucket function handed to `splitBy`; it ignores the index. */
  function ParentPathKey(level: nat): (Item, int) -> string {
    (f: Item, i: int) => GroupKey(level, f)
  }

  /** `splitByParentPath(level)(folders)` */
  function SplitByParentPath(level: nat, folders: seq<Item>): seq<seq<Item>> {
    Buckets(ParentPathKey(level), folders)
  }

  /** `sortByLevel`: `by(getFolderLevel)`, as the sort of `buildTree` uses it. */
  function SortByLevel(folders: seq<Item>): seq<Item> {
    SortBy((f: Item) => FolderLevel(f), folders)
  }

  /** `buildTree(folders, level)` on values. */
  function BuildTree(folders: seq<Item>, level: nat): seq<Item>
    requires AllFolders(folders)
    decreases |folders|, 2
  {
    var sorted := SortByLevel(folders);
    var groups := SplitByParentPath(level, sorted);
    GroupsWellFormed(folders, level);
    BuildGroups(groups, level)
  }

  /** Groups are non-empty lists of folders. */
  predicate GoodGroups(groups: seq<seq<Item>>) {
    forall i :: 0 <= i < |groups| ==> groups[i] != [] && AllFolders(groups[i])
  }

  /** The `flatMap` of `buildTree`: one node per group, in group order. */
  function BuildGroups(groups: seq<seq<Item>>, level: nat): seq<Item>
    requires GoodGroups(groups)
    decreases |Flatten(groups)|, 1
  {
    if groups == [] then []
    else [Attach(groups[0], level)] + BuildGroups(groups[1..], level)
  }

  /** The callback of that `flatMap`: the group's first folder, which
      receives the tree of the rest of the group, one level deeper, as its
      `children` when the rest is non-empty, and is returned untouched
      otherwise. */
  function Attach(group: seq<Item>, level: nat): Item
    requires group != [] && AllFolders(group)
    decreases |group|, 0
  {
    var folder, children := group[0], group[1..];
    if |children| > 0 then folder.(children := BuildTree(children, level + 1)) else folder
  }

  /** The groups `buildTree` forms hold the sorted input exactly once each,
      and are non-empty lists of folders. */
  lemma GroupsWellFormed(folders: seq<Item>, level: nat)
    requires AllFolders(folders)
    ensures var groups := SplitByParentPath(level, SortByLevel(folders));
            GoodGroups(groups) && multiset(Flatten(groups)) == multiset(folders)
            && |Flatten(groups)| == |folders|
  {
    var sorted := SortByLevel(folders);
    var groups := SplitByParentPath(level, sorted);
    SortByIsPermutation((f: Item) => FolderLevel(f), folders);
    BucketsProperties(ParentPathKey(level), sorted);
    assert multiset(Flatten(groups)) == multiset(folders);
    assert |multiset(Flatten(groups))| == |multiset(folders)|;
    forall i | 0 <= i < |groups|
      ensures AllFolders(groups[i])
    {
      forall j | 0 <= j < |groups[i]|
        ensures groups[i][j].Folder?
      {
        FlattenMember(groups, i, j);
        assert groups[i][j] in multiset(folders);
      }
    }
  }

  lemma {:induction false} FlattenMember<T>(groups: seq<seq<T>>, i: nat, j: nat)
    requires i < |groups| && j < |groups[i]|
    ensures groups[i][j] in Flatten(groups)
  {
    if i > 0 {
      FlattenMember(groups[1..], i - 1, j);
    }
  }

  // --- what the tree holds ---

  /** A folder as it appears in the flat list: its `children` cleared. */
  function Erase(x: Item): Item {
    if x.Folder? then x.(children := []) else x
  }

  /** Pre-order listing of a tree node with every `children` cleared. */
  function PreorderItem(x: Item): seq<Item>
    decreases x
  {
    [Erase(x)] + (if x.Folder? then PreorderForest(x.children) else [])
  }

  /** Pre-order listing of a forest. */
  function PreorderForest(forest: seq<Item>): seq<Item>
    decreases forest
  {
    if forest == [] then [] else PreorderItem(forest[0]) + PreorderForest(forest[1..])
  }

  /** Flat folders, as `parseFolders` produces them. */
  predicate FlatFolders(folders: seq<Item>) {
    forall i :: 0 <= i < |folders| ==> folders[i].Folder? && folders[i].children == []
  }

  lemma PreorderForestCons(x: Item, rest: seq<Item>)
    ensures PreorderForest([x] + rest) == PreorderItem(x) + PreorderForest(rest)
  {
    assert ([x] + rest)[0] == x && ([x] + rest)[1..] == rest;
  }

  /** Every flat folder given to `buildTree` appears exactly once in the
      tree it returns: no folder is lost or duplicated. */
  lemma {:induction false} BuildTreeKeepsEveryFolder(folders: seq<Item>, level: nat)
    requires FlatFolders(folders)
    ensures multiset(PreorderForest(BuildTree(folders, level))) == multiset(folders)
    decreases |folders|, 2
  {
    var groups := SplitByParentPath(level, SortByLevel(folders));
    GroupsWellFormed(folders, level);
    forall i | 0 <= i < |groups|
      ensures FlatFolders(groups[i])
    {
      forall j | 0 <= j < |groups[i]|
        ensures groups[i][j].Folder? && groups[i][j].children == []
      {
        FlattenMember(groups, i, j);
        assert groups[i][j] in multiset(folders);
      }
    }
    BuildGroupsKeepsEveryFolder(groups, level);
  }

  /** The groups' half of `BuildTreeKeepsEveryFolder`. */
  lemma {:induction false} BuildGroupsKeepsEveryFolder(groups: seq<seq<Item>>, level: nat)
    requires GoodGroups(groups)
    requires forall i :: 0 <= i < |groups| ==> FlatFolders(groups[i])
    ensures multiset(PreorderForest(BuildGroups(groups, level))) == multiset(Flatten(groups))
    decreases |Flatten(groups)|, 1
  {
    if groups != [] {
      var g, rest := groups[0], groups[1..];
      var node := Attach(g, level);
      assert BuildGroups(groups, level) == [node] + BuildGroups(rest, level);
      PreorderForestCons(node, BuildGroups(rest, level));
      assert Flatten(groups) == g + Flatten(rest);
      AttachKeepsEveryFolder(g, level);
      BuildGroupsKeepsEveryFolder(rest, level);
    }
  }

  /** The node made from one group lists exactly the group's folders. */
  lemma {:induction false} AttachKeepsEveryFolder(g: seq<Item>, level: nat)
    requires g != [] && FlatFolders(g)
    ensures multiset(PreorderItem(Attach(g, level))) == multiset(g)
    decreases |g|, 0
  {
    var folder, children := g[0], g[1..];
    var node := Attach(g, level);
    assert Erase(node) == folder;
    assert g == [folder] + children;
    if |children| > 0 {
      BuildTreeKeepsEveryFolder(children, level + 1);
    }
  }

  // --- the groups ---

  /** Sorting by level before grouping puts a shallowest folder of every
      group first, so the folder that becomes the group's parent is never
      deeper than the folders placed under it. */
  lemma LeaderIsShallowest(folders: seq<Item>, level: nat)
    requires AllFolders(folders)
    ensures var groups := SplitByParentPath(level, SortByLevel(folders));
            forall i, j :: 0 <= i < |groups| && 0 <= j < |groups[i]| ==>
              FolderLevel(groups[i][0]) <= FolderLevel(groups[i][j])
  {
    var evaluate := (f: Item) => FolderLevel(f);
    var sorted := SortByLevel(folders);
    var groups := SplitByParentPath(level, sorted);
    var ks := Keys(ParentPathKey(level), sorted);
    GroupsWellFormed(folders, level);
    SortByIsSorted(evaluate, folders);
    forall i, j | 0 <= i < |groups| && 0 <= j < |groups[i]|
      ensures FolderLevel(groups[i][0]) <= FolderLevel(groups[i][j])
    {
      BucketOfSortedIsSorted(evaluate, ParentPathKey(level), sorted, ks[i]);
      assert groups[i] == Bucket(ParentPathKey(level), sorted, ks[i]);
      if j > 0 {
        assert evaluate(groups[i][0]) <= evaluate(groups[i][j]);
      }
    }
  }

  /** All folders of one group share the group's key, and different groups
      have different keys; the key ignores `children` and `addDate`. */
  lemma GroupsByKey(folders: seq<Item>, level: nat)
    requires AllFolders(folders)
    ensures var groups := SplitByParentPath(level, SortByLevel(folders));
            && GoodGroups(groups)
            && (forall i, j :: 0 <= i < |groups| && 0 <= j < |groups[i]| ==>
                  GroupKey(level, groups[i][j]) == GroupKey(level, groups[i][0]))
            && (forall i, j :: 0 <= i < j < |groups| ==>
                  GroupKey(level, groups[i][0]) != GroupKey(level, groups[j][0]))
  {
    var key := ParentPathKey(level);
    var sorted := SortByLevel(folders);
    var groups := SplitByParentPath(level, sorted);
    var ks := Keys(key, sorted);
    GroupsWellFormed(folders, level);
    KeysFacts(key, sorted);
    forall i, j | 0 <= i < |groups| && 0 <= j < |groups[i]|
      ensures GroupKey(level, groups[i][j]) == ks[i]
    {
      BucketMembers(key, sorted, ks[i]);
      assert groups[i][j] in Bucket(key, sorted, ks[i]);
      assert key(groups[i][j], 0) == GroupKey(level, groups[i][j]);
    }
    forall i, j | 0 <= i < j < |groups|
      ensures GroupKey(level, groups[i][0]) != GroupKey(level, groups[j][0])
    {
      assert GroupKey(level, groups[i][0]) == ks[i];
      assert GroupKey(level, groups[j][0]) == ks[j];
    }
  }

  /** The shape of `buildTree`'s result: one node per group, in group order;
      the node is the group's first folder, given the tree of the rest of
      the group one level deeper as `children` when the rest is non-empty.
      Hence the top-level nodes have pairwise different keys. */
  lemma BuildTreeShape(folders: seq<Item>, level: nat)
    requires AllFolders(folders)
    ensures var groups := SplitByParentPath(level, SortByLevel(folders));
            var tree := BuildTree(folders, level);
            && GoodGroups(groups)
            && |tree| == |groups|
            && (forall i :: 0 <= i < |tree| ==>
                  tree[i] == if |groups[i]| > 1
                             then groups[i][0].(children := BuildTree(groups[i][1..], level + 1))
                             else groups[i][0])
            && (forall i, j :: 0 <= i < j < |tree| ==> GroupKey(level, tree[i]) != GroupKey(level, tree[j]))
  {
    var groups := SplitByParentPath(level, SortByLevel(folders));
    var tree := BuildTree(folders, level);
    GroupsByKey(folders, level);
    BuildGroupsIndexed(groups, level);
    NodesKeepKeys(groups, level);
    assert tree == BuildGroups(groups, level);
  }

  /** A node has the key of the group it was made from. */
  lemma NodesKeepKeys(groups: seq<seq<Item>>, level: nat)
    requires GoodGroups(groups)
    ensures |BuildGroups(groups, level)| == |groups|
    ensures forall i :: 0 <= i < |groups| ==>
              GroupKey(level, BuildGroups(groups, level)[i]) == GroupKey(level, groups[i][0])
  {
    var tree := BuildGroups(groups, level);
    BuildGroupsIndexed(groups, level);
    forall i | 0 <= i < |groups|
      ensures GroupKey(level, tree[i]) == GroupKey(level, groups[i][0])
    {
      assert tree[i].parentFolders == groups[i][0].parentFolders && tree[i].title == groups[i][0].title;
    }
  }

  lemma {:induction false} BuildGroupsIndexed(groups: seq<seq<Item>>, level: nat)
    requires GoodGroups(groups)
    ensures var tree := BuildGroups(groups, level);
            && |tree| == |groups|
            && forall i :: 0 <= i < |tree| ==>
                 tree[i] == if |groups[i]| > 1
                            then groups[i][0].(children := BuildTree(groups[i][1..], level + 1))
                            else groups[i][0]
  {
    if groups != [] {
      BuildGroupsIndexed(groups[1..], level);
    }
  }

  /** `buildTree([])` is `[]`. */
  lemma BuildTreeEmpty(level: nat)
    ensures BuildTree([], level) == []
  {
    assert SortByLevel([]) == [];
    assert Keys(ParentPathKey(level), []) == [];
  }

  // --- `buildTree` as the source runs it ---

  /** `buildTree(folders, level)` on the caller's array: the array is sorted
      in place, then each group's remaining folders are copied into a fresh
      array (the rest-pattern `[folder, ...children]`) and built one level
      deeper. The result is the tree `BuildTree` describes. */
  method BuildTreeInPlace(folders: array<Item>, level: nat) returns (tree: seq<Item>)
    requires AllFolders(folders[..])
    modifies folders
    ensures folders[..] == SortByLevel(old(folders[..]))
    ensures tree == BuildTree(old(folders[..]), level)
    decreases folders.Length, 2
  {
    ghost var input := folders[..];
    SortInPlace(folders, (f: Item) => FolderLevel(f));
    var groups := SplitBy(ParentPathKey(level), folders[..]);
    GroupsWellFormed(input, level);
    tree := AttachAll(groups, level);
  }

  /** The `flatMap` of `BuildTreeInPlace`, one group at a time. */
  method AttachAll(groups: seq<seq<Item>>, level: nat) returns (tree: seq<Item>)
    requires GoodGroups(groups)
    ensures tree == BuildGroups(groups, level)
    decreases |Flatten(groups)|, 1
  {
    tree := [];
    var i := 0;
    while i < |groups|
      invariant 0 <= i <= |groups|
      invariant tree + BuildGroups(groups[i..], level) == BuildGroups(groups, level)
    {
      assert groups[i..][0] == groups[i] && groups[i..][1..] == groups[i + 1..];
      FlattenGroupLength(groups, i);
      var node := AttachInPlace(groups[i], level);
      tree := tree + [node];
      i := i + 1;
    }
  }

  /** The `flatMap` callback of `BuildTreeInPlace`. */
  method AttachInPlace(group: seq<Item>, level: nat) returns (node: Item)
    requires group != [] && AllFolders(group)
    ensures node == Attach(group, level)
    decreases |group|, 0
  {
    node := group[0];
    if |group| > 1 {
      var children := new Item[|group| - 1](j requires 0 <= j < |group| - 1 => group[j + 1]);
      assert children[..] == group[1..];
      var subtree := BuildTreeInPlace(children, level + 1);
      node := node.(children := subtree);
    }
  }

  // --- unfolding helpers for concrete inputs ---

  /** `buildTree` of an input that is already sorted by level and splits
      into `groups` is the node list of those groups. */
  lemma BuildTreeFromGroups(xs: seq<Item>, level: nat, groups: seq<seq<Item>>)
    requires AllFolders(xs) && SortByLevel(xs) == xs && SplitByParentPath(level, xs) == groups
    ensures GoodGroups(groups) && BuildTree(xs, level) == BuildGroups(groups, level)
  {
    GroupsWellFormed(xs, level);
  }

  lemma BuildGroupsCons(g: seq<Item>, rest: seq<seq<Item>>, level: nat)
    requires g != [] && AllFolders(g) && GoodGroups(rest)
    ensures GoodGroups([g] + rest)
    ensures BuildGroups([g] + rest, level) == [Attach(g, level)] + BuildGroups(rest, level)
  {
    assert ([g] + rest)[0] == g && ([g] + rest)[1..] == rest;
  }

  lemma TwoGroups(g0: seq<Item>, g1: seq<Item>, level: nat)
    requires g0 != [] && g1 != [] && AllFolders(g0) && AllFolders(g1)
    ensures BuildGroups([g0, g1], level) == [Attach(g0, level), Attach(g1, level)]
  {
    BuildGroupsCons(g1, [], level);
    BuildGroupsCons(g0, [g1], level);
    assert [g0] + [g1] == [g0, g1];
  }

  lemma ThreeGroups(g0: seq<Item>, g1: seq<Item>, g2: seq<Item>, level: nat)
    requires g0 != [] && g1 != [] && g2 != []
    requires AllFolders(g0) && AllFolders(g1) && AllFolders(g2)
    ensures BuildGroups([g0, g1, g2], level) == [Attach(g0, level), Attach(g1, level), Attach(g2, level)]
  {
    BuildGroupsCons(g2, [], level);
    BuildGroupsCons(g1, [g2], level);
    BuildGroupsCons(g0, [g1, g2], level);
    assert [g0] + [g1, g2] == [g0, g1, g2];
    assert [g1] + [g2] == [g1, g2];
  }

  /** A single folder is its own tree, at any level. */
  lemma BuildTreeSingle(f: Item, level: nat)
    requires f.Folder?
    ensures BuildTree([f], level) == [f]
  {
    SortByOfSorted((x: Item) => FolderLevel(x), [f]);
    BucketsSingle(ParentPathKey(level), f);
    BuildTreeFromGroups([f], level, [[f]]);
    BuildGroupsCons([f], [], level);
    assert [[f]] + [] == [[f]];
  }

  // --- the source's test vectors, on the fixture folders ---

  const Flat: seq<Item> := [FA, FB, FC, FAA, FAB, FCA, FAAA]

  lemma FlatPrefixes()
    ensures Flat[..1] == [FA]
    ensures Flat[..2][..1] == Flat[..1] && Flat[..2][1] == FB
    ensures Flat[..3][..2] == Flat[..2] && Flat[..3][2] == FC
    ensures Flat[..4][..3] == Flat[..3] && Flat[..4][3] == FAA
    ensures Flat[..5][..4] == Flat[..4] && Flat[..5][4] == FAB
    ensures Flat[..6][..5] == Flat[..5] && Flat[..6][5] == FCA
    ensures Flat[..6] == Flat[..|Flat| - 1] && Flat[6] == FAAA
  {
  }

  lemma Level0Keys()
    ensures var key := ParentPathKey(0);
      key(FA, 0) == "A" && key(FAA, 0) == "A" && key(FAB, 0) == "A" && key(FAAA, 0) == "A"
      && key(FB, 0) == "B" && key(FC, 0) == "C" && key(FCA, 0) == "C"
  {
    assert FAAA.parentFolders[..1] == ["A"];
  }

  lemma FullKeys0()
    ensures Keys(ParentPathKey(0), Flat) == ["A", "B", "C"]
  {
    var key := ParentPathKey(0);
    FlatPrefixes();
    Level0Keys();
    assert Keys(key, Flat[..1]) == ["A"];
    assert Keys(key, Flat[..2]) == ["A", "B"];
    assert Keys(key, Flat[..3]) == ["A", "B", "C"];
    assert Keys(key, Flat[..4]) == ["A", "B", "C"];
    assert Keys(key, Flat[..5]) == ["A", "B", "C"];
    assert Keys(key, Flat[..6]) == ["A", "B", "C"];
  }

  lemma FullBucketA()
    ensures Bucket(ParentPathKey(0), Flat, "A") == [FA, FAA, FAB, FAAA]
  {
    var key := ParentPathKey(0);
    FlatPrefixes();
    Level0Keys();
    assert Bucket(key, Flat[..1], "A") == [FA];
    assert Bucket(key, Flat[..2], "A") == [FA];
    assert Bucket(key, Flat[..3], "A") == [FA];
    assert Bucket(key, Flat[..4], "A") == [FA, FAA];
    assert Bucket(key, Flat[..5], "A") == [FA, FAA, FAB];
    assert Bucket(key, Flat[..6], "A") == [FA, FAA, FAB];
  }

  lemma FullBucketB()
    ensures Bucket(ParentPathKey(0), Flat, "B") == [FB]
  {
    var key := ParentPathKey(0);
    FlatPrefixes();
    Level0Keys();
    assert Bucket(key, Flat[..1], "B") == [];
    assert Bucket(key, Flat[..2], "B") == [FB];
    assert Bucket(key, Flat[..3], "B") == [FB];
    assert Bucket(key, Flat[..4], "B") == [FB];
    assert Bucket(key, Flat[..5], "B") == [FB];
    assert Bucket(key, Flat[..6], "B") == [FB];
  }

  lemma FullBucketC()
    ensures Bucket(ParentPathKey(0), Flat, "C") == [FC, FCA]
  {
    var key := ParentPathKey(0);
    FlatPrefixes();
    Level0Keys();
    assert Bucket(key, Flat[..1], "C") == [];
    assert Bucket(key, Flat[..2], "C") == [];
    assert Bucket(key, Flat[..3], "C") == [FC];
    assert Bucket(key, Flat[..4], "C") == [FC];
    assert Bucket(key, Flat[..5], "C") == [FC];
    assert Bucket(key, Flat[..6], "C") == [FC, FCA];
  }

  /** `splitByParentPath(0)` of the full fixture list. */
  lemma SplitByParentPathExample()
    ensures SplitByParentPath(0, Flat) == [[FA, FAA, FAB, FAAA], [FB], [FC, FCA]]
  {
    FullKeys0();
    FullBucketA();
    FullBucketB();
    FullBucketC();
  }

  lemma SubtreeAKeys()
    ensures var key := ParentPathKey(1);
      key(FAA, 0) == "A/A" && key(FAB, 0) == "A/B" && key(FAAA, 0) == "A/A"
  {
    assert JoinPath(["A", "A"]) == "A/A" && JoinPath(["A", "B"]) == "A/B";
    assert FAAA.parentFolders[..2] == ["A", "A"];
  }

  lemma SubtreeAPrefixes()
    ensures [FAA, FAB, FAAA][..2] == [FAA, FAB]
    ensures [FAA, FAB][..1] == [FAA]
  {
  }

  lemma SubtreeAKeyOrder()
    ensures Keys(ParentPathKey(1), [FAA, FAB, FAAA]) == ["A/A", "A/B"]
  {
    var key := ParentPathKey(1);
    SubtreeAKeys();
    SubtreeAPrefixes();
    assert Keys(key, [FAA]) == ["A/A"];
    assert Keys(key, [FAA, FAB]) == ["A/A", "A/B"];
  }

  lemma SubtreeABucketAA()
    ensures Bucket(ParentPathKey(1), [FAA, FAB, FAAA], "A/A") == [FAA, FAAA]
  {
    var key := ParentPathKey(1);
    SubtreeAKeys();
    SubtreeAPrefixes();
    assert Bucket(key, [FAA], "A/A") == [FAA];
    assert Bucket(key, [FAA, FAB], "A/A") == [FAA];
  }

  lemma SubtreeABucketAB()
    ensures Bucket(ParentPathKey(1), [FAA, FAB, FAAA], "A/B") == [FAB]
  {
    var key := ParentPathKey(1);
    SubtreeAKeys();
    SubtreeAPrefixes();
    assert Bucket(key, [FAA], "A/B") == [];
    assert Bucket(key, [FAA, FAB], "A/B") == [FAB];
  }

  lemma SubtreeASplit()
    ensures SplitByParentPath(1, [FAA, FAB, FAAA]) == [[FAA, FAAA], [FAB]]
  {
    SubtreeAKeyOrder();
    SubtreeABucketAA();
    SubtreeABucketAB();
  }

  lemma SubtreeASorted()
    ensures SortByLevel([FAA, FAB, FAAA]) == [FAA, FAB, FAAA]
  {
    SortByOfSorted((x: Item) => FolderLevel(x), [FAA, FAB, FAAA]);
  }

  /** The `/A` subtree of the full fixture list, built at level 1. */
  lemma BuildTreeLevelOneExample()
    ensures BuildTree([FAA, FAB, FAAA], 1) == [FAA.(children := [FAAA]), FAB]
  {
    SubtreeASorted();
    SubtreeASplit();
    BuildTreeFromGroups([FAA, FAB, FAAA], 1, [[FAA, FAAA], [FAB]]);
    BuildTreeSingle(FAAA, 2);
    TwoGroups([FAA, FAAA], [FAB], 1);
  }

  lemma FlatSorted()
    ensures SortByLevel(Flat) == Flat
  {
    SortByOfSorted((x: Item) => FolderLevel(x), Flat);
  }

  /** `buildTree` of the full fixture list: `/A` holds `/A/A` (which holds
      `/A/A/A`) and `/A/B`; `/B` stays a leaf; `/C` holds `/C/A`. */
  lemma BuildTreeExample()
    ensures BuildTree(Flat, 0) == [FA.(children := [FAA.(children := [FAAA]), FAB]), FB, FC.(children := [FCA])]
  {
    FlatSorted();
    SplitByParentPathExample();
    BuildTreeFromGroups(Flat, 0, [[FA, FAA, FAB, FAAA], [FB], [FC, FCA]]);
    BuildTreeExampleGroups();
  }

  lemma BuildTreeExampleGroups()
    ensures BuildGroups([[FA, FAA, FAB, FAAA], [FB], [FC, FCA]], 0)
         == [FA.(children := [FAA.(children := [FAAA]), FAB]), FB, FC.(children := [FCA])]
  {
    BuildTreeLevelOneExample();
    BuildTreeSingle(FCA, 1);
    ThreeGroups([FA, FAA, FAB, FAAA], [FB], [FC, FCA], 0);
  }

  /** Two top-level folders with the same title share the key at level 0, so
      the second is built into the first one's `children`: the grouping
      goes by title path, not by folder identity. */
  lemma SameTitleFoldersNest()
    ensures BuildTree([FA, FAx], 0) == [FA.(children := [FAx])]
  {
    var xs := [FA, FAx];
    SameTitleSorted();
    SameTitleSplit();
    OneGroup(xs, 0);
    AttachPair(FA, FAx, 0);
  }

  /** An input that is sorted and forms a single group becomes one node. */
  lemma OneGroup(xs: seq<Item>, level: nat)
    requires xs != [] && AllFolders(xs)
    requires SortByLevel(xs) == xs && SplitByParentPath(level, xs) == [xs]
    ensures BuildTree(xs, level) == [Attach(xs, level)]
  {
    BuildTreeFromGroups(xs, level, [xs]);
    BuildGroupsCons(xs, [], level);
    assert [xs] + [] == [xs];
  }

  /** A group of two makes the second folder the first one's only child. */
  lemma AttachPair(f: Item, g: Item, level: nat)
    requires f.Folder? && g.Folder?
    ensures Attach([f, g], level) == f.(children := [g])
  {
    assert [f, g][1..] == [g];
    BuildTreeSingle(g, level + 1);
  }

  /** The two top-level folders are already in level order. */
  lemma SameTitleSorted()
    ensures SortByLevel([FA, FAx]) == [FA, FAx]
  {
    SortByOfSorted((x: Item) => FolderLevel(x), [FA, FAx]);
  }

  /** Both folders titled `A` at the top level land in one group. */
  lemma SameTitleSplit()
    ensures SplitByParentPath(0, [FA, FAx]) == [[FA, FAx]]
  {
    var key := ParentPathKey(0);
    var xs := [FA, FAx];
    assert xs[..1] == [FA];
    assert Keys(key, [FA]) == ["A"];
    assert Keys(key, xs) == ["A"];
    assert Bucket(key, [FA], "A") == [FA];
    assert Bucket(key, xs, "A") == xs;
  }
}
