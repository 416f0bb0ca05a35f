/** The depth-bounded directory tree of the project-structure tool, built over an
    abstract file tree instead of the file system: a node per entry, directories
    listed before files and entries ordered by lower-cased name, and nothing deeper
    than the depth bound. */
module DirectoryTree {
  import opened Text

  /** An entry of the walked tree. A file's size is None when it cannot be read;
      a directory's entries are ignored when listing it is refused. */
  datatype FsEntry =
    | File(name: string, size: Option<nat>)
    | Directory(name: string, readable: bool, entries: seq<FsEntry>)

  /** One node of the result: the entry's name, its path relative to the root,
      its kind, its children, its size when sizes are asked for, and whether the
      listing was refused. */
  datatype TreeNode = TreeNode(
    name: string, path: string, isDirectory: bool, children: seq<TreeNode>,
    size: Option<nat>, permissionDenied: bool)

  // ---------------------------------------------------------------------------
  // Ordering of a listing
  // ---------------------------------------------------------------------------

  /** The sort key `(is_file, name.lower())` compared as a pair: directories
      (False) before files (True), then by lower-cased name. */
  predicate KeyLe(a: FsEntry, b: FsEntry) {
    (!a.File? && b.File?) || (a.File? == b.File? && LexLe(Lower(a.name), Lower(b.name)))
  }

  lemma KeyLeTotal(a: FsEntry, b: FsEntry)
    ensures KeyLe(a, b) || KeyLe(b, a)
  {
    LexLeTotal(Lower(a.name), Lower(b.name));
  }

  lemma KeyLeTrans(a: FsEntry, b: FsEntry, c: FsEntry)
    requires KeyLe(a, b) && KeyLe(b, c)
    ensures KeyLe(a, c)
  {
    if a.File? == b.File? && b.File? == c.File? {
      LexLeTrans(Lower(a.name), Lower(b.name), Lower(c.name));
    }
  }

  predicate Sorted(s: seq<FsEntry>) {
    forall i, j :: 0 <= i < j < |s| ==> KeyLe(s[i], s[j])
  }

  /** `x` placed before the first entry it does not follow. */
  function Insert(x: FsEntry, s: seq<FsEntry>): (r: seq<FsEntry>)
    ensures multiset(r) == multiset(s) + multiset{x} && |r| == |s| + 1
    decreases |s|
  {
    if s == [] || KeyLe(x, s[0]) then [x] + s
    else
      assert s == [s[0]] + s[1..];
      [s[0]] + Insert(x, s[1..])
  }

  /** The listing sorted by the key, by insertion (`sorted` is stable, and so is
      this: an entry is inserted before the later entries with an equal key). */
  function SortEntries(s: seq<FsEntry>): (r: seq<FsEntry>)
    ensures multiset(r) == multiset(s) && |r| == |s|
    decreases |s|
  {
    if s == [] then []
    else
      assert s == [s[0]] + s[1..];
      Insert(s[0], SortEntries(s[1..]))
  }

  lemma {:induction false} InsertSorted(x: FsEntry, s: seq<FsEntry>)
    requires Sorted(s)
    ensures Sorted(Insert(x, s))
    decreases |s|
  {
    if s == [] || KeyLe(x, s[0]) {
      forall j | 0 <= j < |s|
        ensures KeyLe(x, s[j])
      {
        if j > 0 {
          KeyLeTrans(x, s[0], s[j]);
        }
      }
    } else {
      KeyLeTotal(x, s[0]);
      InsertSorted(x, s[1..]);
      var r := Insert(x, s[1..]);
      forall j | 0 <= j < |r|
        ensures KeyLe(s[0], r[j])
      {
        assert r[j] in multiset(r);
        if r[j] != x {
          assert r[j] in multiset(s[1..]);
          var k :| 0 <= k < |s[1..]| && s[1..][k] == r[j];
          assert s[k + 1] == r[j];
        }
      }
    }
  }

  /** The sorted listing is ordered and holds the same entries. */
  lemma {:induction false} SortEntriesSorted(s: seq<FsEntry>)
    ensures Sorted(SortEntries(s))
    decreases |s|
  {
    if s != [] {
      SortEntriesSorted(s[1..]);
      InsertSorted(s[0], SortEntries(s[1..]));
    }
  }

  // ---------------------------------------------------------------------------
  // Building
  // ---------------------------------------------------------------------------

  /** `str(path.relative_to(root))`: the root is ".", below it the names joined
      by '/'. */
  function ChildPath(parent: string, name: string): string {
    if parent == "." then name else parent + "/" + name
  }

  /** The nodes that were built (`if child_node:`). */
  function Built(s: seq<Option<TreeNode>>): (r: seq<TreeNode>)
    ensures |r| <= |s|
    decreases |s|
  {
    if s == [] then []
    else Built(s[..|s| - 1]) + (match s[|s| - 1] case None => [] case Some(t) => [t])
  }

  /** `build_tree_node`: no node deeper than `maxDepth`; a directory's children are
      built from its sorted listing one level deeper. */
  function Build(e: FsEntry, path: string, depth: int, maxDepth: int, includeSizes: bool): Option<TreeNode>
    decreases e
  {
    if depth > maxDepth then None
    else
      match e
      case File(name, size) =>
        Some(TreeNode(name, path, false, [], if includeSizes then Some(match size case None => 0 case Some(n) => n) else None, false))
      case Directory(name, readable, entries) =>
        if !readable then Some(TreeNode(name, path, true, [], None, true))
        else
          var sorted := SortEntries(entries);
          var kids := seq(|sorted|, i requires 0 <= i < |sorted| =>
            assert sorted[i] in multiset(entries);
            assert sorted[i] in entries;
            Build(sorted[i], ChildPath(path, sorted[i].name), depth + 1, maxDepth, includeSizes));
          Some(TreeNode(name, path, true, Built(kids), None, false))
  }

  /** `_build_directory_tree`: the root at depth 0 with path ".". */
  function BuildTree(root: FsEntry, maxDepth: int, includeSizes: bool): Option<TreeNode> {
    Build(root, ".", 0, maxDepth, includeSizes)
  }

  // ---------------------------------------------------------------------------
  // Properties
  // ---------------------------------------------------------------------------

  /** Every node sits at depth at most `maxDepth`, counting `depth` at `t`. */
  predicate DepthWithin(t: TreeNode, depth: int, maxDepth: int)
    decreases t
  {
    depth <= maxDepth && forall i :: 0 <= i < |t.children| ==> DepthWithin(t.children[i], depth + 1, maxDepth)
  }

  /** Every node's children are directories first, then by lower-cased name; and
      every child's path extends its parent's. */
  predicate Ordered(t: TreeNode)
    decreases t
  {
    (forall i, j :: 0 <= i < j < |t.children| ==> NodeKeyLe(t.children[i], t.children[j]))
    && (forall i :: 0 <= i < |t.children| ==> t.children[i].path == ChildPath(t.path, t.children[i].name))
    && (forall i :: 0 <= i < |t.children| ==> Ordered(t.children[i]))
  }

  predicate NodeKeyLe(a: TreeNode, b: TreeNode) {
    (a.isDirectory && !b.isDirectory) || (a.isDirectory == b.isDirectory && LexLe(Lower(a.name), Lower(b.name)))
  }

  /** A built node keeps the entry's name and kind. */
  lemma BuildKeepsEntry(e: FsEntry, path: string, depth: int, maxDepth: int, includeSizes: bool)
    requires Build(e, path, depth, maxDepth, includeSizes).Some?
    ensures var t := Build(e, path, depth, maxDepth, includeSizes).value;
      t.name == e.name && t.path == path && t.isDirectory == e.Directory?
  {
  }

  /** A node is built exactly at depths within the bound. A file is a leaf with
      its size (0 when it cannot be read) if sizes are asked for; a directory has
      no size, and a refused listing is flagged and leaves it without children. */
  lemma BuildNode(e: FsEntry, path: string, depth: int, maxDepth: int, includeSizes: bool)
    ensures Build(e, path, depth, maxDepth, includeSizes).None? <==> depth > maxDepth
    ensures depth <= maxDepth && e.File? ==>
      var t := Build(e, path, depth, maxDepth, includeSizes).value;
      t.children == [] && !t.permissionDenied
      && t.size == (if includeSizes then Some(if e.size.Some? then e.size.value else 0) else None)
    ensures depth <= maxDepth && e.Directory? ==>
      var t := Build(e, path, depth, maxDepth, includeSizes).value;
      t.size.None? && (t.permissionDenied <==> !e.readable) && (!e.readable ==> t.children == [])
  {
  }

  /** The built children below the depth bound are all the sorted listing; at
      the bound there are none. */
  lemma BuiltAll(kids: seq<Option<TreeNode>>)
    requires forall i :: 0 <= i < |kids| ==> kids[i].Some?
    ensures |Built(kids)| == |kids| && forall i :: 0 <= i < |kids| ==> Built(kids)[i] == kids[i].value
    decreases |kids|
  {
    if kids != [] {
      BuiltAll(kids[..|kids| - 1]);
    }
  }

  lemma BuiltNone(kids: seq<Option<TreeNode>>)
    requires forall i :: 0 <= i < |kids| ==> kids[i].None?
    ensures Built(kids) == []
    decreases |kids|
  {
    if kids != [] {
      BuiltNone(kids[..|kids| - 1]);
    }
  }

  /** Below the bound a readable directory gets one child per entry, in sorted
      order; at the bound it gets none. */
  lemma ChildrenOfDirectory(name: string, entries: seq<FsEntry>, path: string, depth: int, maxDepth: int, includeSizes: bool)
    requires depth <= maxDepth
    ensures var t := Build(Directory(name, true, entries), path, depth, maxDepth, includeSizes).value;
      var sorted := SortEntries(entries);
      |sorted| == |entries|
      && (depth < maxDepth ==>
            (|t.children| == |sorted|
             && forall i :: 0 <= i < |sorted| ==> t.children[i] == Build(sorted[i], ChildPath(path, sorted[i].name), depth + 1, maxDepth, includeSizes).value))
      && (depth == maxDepth ==> t.children == [])
  {
    var sorted := SortEntries(entries);
    var kids := seq(|sorted|, i requires 0 <= i < |sorted| =>
      Build(sorted[i], ChildPath(path, sorted[i].name), depth + 1, maxDepth, includeSizes));
    if depth < maxDepth {
      BuiltAll(kids);
    } else {
      BuiltNone(kids);
    }
    assert Build(Directory(name, true, entries), path, depth, maxDepth, includeSizes).value.children == Built(kids);
  }

  /** Below the bound, the `i`-th child of a readable directory is the node built
      from the `i`-th sorted entry, which is one of the directory's entries. */
  lemma ChildNode(e: FsEntry, path: string, depth: int, maxDepth: int, includeSizes: bool, i: int)
    requires e.Directory? && e.readable && depth < maxDepth && 0 <= i < |e.entries|
    ensures var sorted := SortEntries(e.entries);
      var t := Build(e, path, depth, maxDepth, includeSizes).value;
      var child := Build(sorted[i], ChildPath(path, sorted[i].name), depth + 1, maxDepth, includeSizes);
      |sorted| == |e.entries| && |t.children| == |sorted| && sorted[i] in e.entries
      && child.Some? && t.children[i] == child.value
      && child.value.name == sorted[i].name && child.value.isDirectory == sorted[i].Directory?
  {
    var sorted := SortEntries(e.entries);
    ChildrenOfDirectory(e.name, e.entries, path, depth, maxDepth, includeSizes);
    assert sorted[i] in multiset(e.entries);
  }

  /** No node of the result lies deeper than the bound. */
  lemma {:induction false} BuildWithinDepth(e: FsEntry, path: string, depth: int, maxDepth: int, includeSizes: bool)
    requires Build(e, path, depth, maxDepth, includeSizes).Some?
    ensures DepthWithin(Build(e, path, depth, maxDepth, includeSizes).value, depth, maxDepth)
    decreases e
  {
    if e.Directory? && e.readable {
      var t := Build(e, path, depth, maxDepth, includeSizes).value;
      var sorted := SortEntries(e.entries);
      ChildrenOfDirectory(e.name, e.entries, path, depth, maxDepth, includeSizes);
      forall i | 0 <= i < |t.children|
        ensures DepthWithin(t.children[i], depth + 1, maxDepth)
      {
        ChildNode(e, path, depth, maxDepth, includeSizes, i);
        BuildWithinDepth(sorted[i], ChildPath(path, sorted[i].name), depth + 1, maxDepth, includeSizes);
      }
    }
  }

  /** A readable directory's children are in sorted order. */
  lemma ChildrenOrdered(e: FsEntry, path: string, depth: int, maxDepth: int, includeSizes: bool)
    requires e.Directory? && e.readable && depth <= maxDepth
    ensures var t := Build(e, path, depth, maxDepth, includeSizes).value;
      forall i, j :: 0 <= i < j < |t.children| ==> NodeKeyLe(t.children[i], t.children[j])
  {
    var t := Build(e, path, depth, maxDepth, includeSizes).value;
    var sorted := SortEntries(e.entries);
    ChildrenOfDirectory(e.name, e.entries, path, depth, maxDepth, includeSizes);
    SortEntriesSorted(e.entries);
    forall i, j | 0 <= i < j < |t.children|
      ensures NodeKeyLe(t.children[i], t.children[j])
    {
      ChildNode(e, path, depth, maxDepth, includeSizes, i);
      ChildNode(e, path, depth, maxDepth, includeSizes, j);
      assert KeyLe(sorted[i], sorted[j]);
    }
  }

  /** Every directory's children of the result are ordered and carry their paths. */
  lemma {:induction false} BuildOrdered(e: FsEntry, path: string, depth: int, maxDepth: int, includeSizes: bool)
    requires Build(e, path, depth, maxDepth, includeSizes).Some?
    ensures Ordered(Build(e, path, depth, maxDepth, includeSizes).value)
    decreases e
  {
    if e.Directory? && e.readable {
      var t := Build(e, path, depth, maxDepth, includeSizes).value;
      var sorted := SortEntries(e.entries);
      ChildrenOfDirectory(e.name, e.entries, path, depth, maxDepth, includeSizes);
      ChildrenOrdered(e, path, depth, maxDepth, includeSizes);
      forall i | 0 <= i < |t.children|
        ensures Ordered(t.children[i]) && t.children[i].path == ChildPath(t.path, t.children[i].name)
      {
        ChildNode(e, path, depth, maxDepth, includeSizes, i);
        BuildOrdered(sorted[i], ChildPath(path, sorted[i].name), depth + 1, maxDepth, includeSizes);
        BuildKeepsEntry(sorted[i], ChildPath(path, sorted[i].name), depth + 1, maxDepth, includeSizes);
      }
    }
  }

  /** A negative bound gives no tree; otherwise the root is there with path ".". */
  lemma BuildTreeRoot(root: FsEntry, maxDepth: int, includeSizes: bool)
    ensures BuildTree(root, maxDepth, includeSizes).None? <==> maxDepth < 0
    ensures BuildTree(root, maxDepth, includeSizes).Some? ==>
      BuildTree(root, maxDepth, includeSizes).value.path == "." && BuildTree(root, maxDepth, includeSizes).value.name == root.name
  {
  }
}
