/** Building the nested file tree from flat paths, and sorting it in place. */
module FileTree {
  import opened Text

  datatype File = File(filePath: string, language: string, sizeBytes: int)

  /** A node of the tree. `segs` are the segments of its path; the root has none. */
  class FileNode {
    const path: string
    const name: string
    const isDir: bool
    const language: string
    const size: int
    ghost const segs: seq<string>
    var children: seq<FileNode>

    constructor Directory(path: string, name: string, ghost segs: seq<string>)
      ensures this.path == path && this.name == name && this.segs == segs && isDir && children == []
    {
      this.path, this.name, this.segs, isDir, language, size, children := path, name, segs, true, "", 0, [];
    }

    constructor Leaf(file: File, name: string, ghost segs: seq<string>)
      ensures path == file.filePath && language == file.language && size == file.sizeBytes
      ensures this.name == name && this.segs == segs && !isDir && children == []
    {
      path, language, size := file.filePath, file.language, file.sizeBytes;
      this.name, this.segs, isDir, children := name, segs, false, [];
    }
  }

  // ----- Paths as segments

  ghost predicate SlashFree(segs: seq<string>) {
    forall part :: part in segs ==> '/' !in part
  }

  /** Segments of a directory below the root: its first segment is a proper name. */
  ghost predicate GoodDir(segs: seq<string>) {
    segs != [] && SlashFree(segs) && segs[0] != "" && segs[0] != "."
  }

  /** The path has no directory named "" or "." at its start. */
  predicate CleanStart(path: string) {
    var parts := Split(path, '/');
    |parts| > 1 ==> parts[0] != "" && parts[0] != "."
  }

  /** The key of a directory in the lookup map. */
  function Key(segs: seq<string>): string {
    if segs == [] then "." else Join(segs, '/')
  }

  lemma JoinOfGood(segs: seq<string>)
    requires GoodDir(segs)
    ensures Join(segs, '/') != "." && Join(segs, '/') != ""
    ensures Split(Join(segs, '/'), '/') == segs
  {
    SplitOfJoin(segs, '/');
    if |segs| > 1 {
      assert '/' in Join(segs, '/');
    }
  }

  lemma KeyInjective(a: seq<string>, b: seq<string>)
    requires (a == [] || GoodDir(a)) && (b == [] || GoodDir(b)) && Key(a) == Key(b)
    ensures a == b
  {
    hide GoodDir, Join, Split;
    if a != [] { JoinOfGood(a); }
    if b != [] { JoinOfGood(b); }
  }

  ghost predicate Distinct(nodes: seq<FileNode>) {
    forall i, j :: 0 <= i < j < |nodes| ==> nodes[i] != nodes[j]
  }

  ghost function ParentSegs(n: FileNode): seq<string>
    requires n.segs != []
  {
    n.segs[..|n.segs| - 1]
  }

  // ----- The tree under construction

  /** A node below the root: its path and name spell its segments, and its parent exists. */
  ghost predicate NodeOk(dirs: map<string, FileNode>, n: FileNode) {
    && n.segs != [] && n.path == Join(n.segs, '/') && n.name == n.segs[|n.segs| - 1]
    && (n.isDir ==> GoodDir(n.segs) && n.path in dirs && dirs[n.path] == n)
    && Key(ParentSegs(n)) in dirs && dirs[Key(ParentSegs(n))].segs == ParentSegs(n)
  }

  ghost predicate KeyOk(dirs: map<string, FileNode>, nodes: set<FileNode>, root: FileNode, k: string)
    requires k in dirs
  {
    && dirs[k].isDir
    && if k == "." || k == "" then dirs[k] == root else dirs[k] in nodes && GoodDir(dirs[k].segs) && k == Key(dirs[k].segs)
  }

  /** A directory with these segments lists exactly the nodes whose parent it is, each once. */
  ghost predicate Lists(nodes: set<FileNode>, segs: seq<string>, children: seq<FileNode>) {
    && Distinct(children)
    && (forall n :: n in children ==> n in nodes && n.segs != [] && ParentSegs(n) == segs)
    && (forall n :: n in nodes && n.segs != [] && ParentSegs(n) == segs ==> n in children)
  }

  /** The lookup map and the nodes agree. */
  ghost predicate Consistent(dirs: map<string, FileNode>, nodes: set<FileNode>, root: FileNode) {
    && "." in dirs && "" in dirs && root.segs == [] && root.path == "." && root !in nodes
    && (forall k :: k in dirs ==> KeyOk(dirs, nodes, root, k))
    && (forall n :: n in nodes ==> NodeOk(dirs, n))
  }

  /** The map with a node added, if it is a directory. */
  ghost function Added(dirs: map<string, FileNode>, n: FileNode): map<string, FileNode> {
    if n.isDir then dirs[n.path := n] else dirs
  }

  ghost predicate Attachable(dirs: map<string, FileNode>, nodes: set<FileNode>, root: FileNode, n: FileNode) {
    && n !in nodes && n != root && n !in dirs.Values
    && n.segs != [] && n.path == Join(n.segs, '/') && n.name == n.segs[|n.segs| - 1]
    && Key(ParentSegs(n)) in dirs && dirs[Key(ParentSegs(n))].segs == ParentSegs(n)
    && (n.isDir ==> GoodDir(n.segs) && n.path !in dirs)
  }

  lemma ConsistentAfter(dirs: map<string, FileNode>, nodes: set<FileNode>, root: FileNode, n: FileNode)
    requires Consistent(dirs, nodes, root) && Attachable(dirs, nodes, root, n)
    ensures Consistent(Added(dirs, n), nodes + {n}, root)
  {
    hide GoodDir, Join;
    if n.isDir { JoinOfGood(n.segs); }
    var after := Added(dirs, n);
    forall m | m in nodes + {n}
      ensures NodeOk(after, m)
    {
      if m != n {
        assert NodeOk(dirs, m);
        assert m.isDir ==> m.path != n.path || !n.isDir;
        var key := Key(ParentSegs(m));
        assert n.isDir && key == n.path ==> false;
      }
    }
  }

  lemma ListsParent(nodes: set<FileNode>, n: FileNode, children: seq<FileNode>)
    requires n !in nodes && n.segs != [] && Lists(nodes, ParentSegs(n), children)
    ensures Lists(nodes + {n}, ParentSegs(n), children + [n])
  {
    assert forall m :: m in children ==> m in children + [n];
  }

  lemma ListsOther(nodes: set<FileNode>, n: FileNode, segs: seq<string>, children: seq<FileNode>)
    requires n.segs != [] && segs != ParentSegs(n) && Lists(nodes, segs, children)
    ensures Lists(nodes + {n}, segs, children)
  {
  }

  /** A new directory has no children yet: any node below it would have had it in the map. */
  lemma ListsNew(dirs: map<string, FileNode>, nodes: set<FileNode>, root: FileNode, n: FileNode)
    requires Consistent(dirs, nodes, root) && Attachable(dirs, nodes, root, n) && n.isDir
    ensures Lists(nodes + {n}, n.segs, [])
  {
    hide GoodDir, Join;
    forall m | m in nodes + {n} && m.segs != []
      ensures ParentSegs(m) != n.segs
    {
      if m != n {
        assert NodeOk(dirs, m);
      }
    }
  }

  class TreeBuilder {
    const root: FileNode
    var dirs: map<string, FileNode>
    /** Every node created so far but the root. */
    ghost var nodes: set<FileNode>

    ghost predicate Valid()
      reads this`dirs, this`nodes, dirs.Values`children
    {
      && Consistent(dirs, nodes, root)
      && (forall k :: k in dirs ==> Lists(nodes, dirs[k].segs, dirs[k].children))
    }

    /** Files have no children. */
    ghost predicate BareLeaves()
      reads this`nodes, nodes
    {
      forall n :: n in nodes && !n.isDir ==> n.children == []
    }

    constructor ()
      ensures Valid() && nodes == {} && fresh(root) && dirs == map["." := root, "" := root]
    {
      root := new FileNode.Directory(".", ".", []);
      dirs := map[];
      nodes := {};
      new;
      dirs := map["." := root, "" := root];
    }

    /** Appends a new node below its parent directory. */
    method Attach(parent: FileNode, n: FileNode)
      requires Valid() && Attachable(dirs, nodes, root, n) && n.children == []
      requires dirs[Key(ParentSegs(n))] == parent
      modifies this`dirs, this`nodes, parent`children
      ensures Valid() && nodes == old(nodes) + {n} && dirs == Added(old(dirs), n)
    {
      hide Consistent, Lists, Join, GoodDir, Key;
      ghost var before, nodesBefore := dirs, nodes;
      ConsistentAfter(dirs, nodes, root, n);
      if n.isDir {
        ListsNew(dirs, nodes, root, n);
        dirs := dirs[n.path := n];
      }
      ListsParent(nodes, n, parent.children);
      parent.children := parent.children + [n];
      nodes := nodes + {n};
      forall k | k in dirs
        ensures Lists(nodes, dirs[k].segs, dirs[k].children)
      {
        if dirs[k] != n && dirs[k] != parent {
          SameSegsSameNode(before, nodesBefore, root, k, Key(ParentSegs(n)));
          ListsOther(nodesBefore, n, dirs[k].segs, dirs[k].children);
        }
      }
    }

    /** Creates the directory of the first `i + 1` parts, unless it exists. */
    method EnsureDirectory(parts: seq<string>, i: nat)
      requires Valid() && GoodDir(parts) && i < |parts| - 1 && HasDirectories(dirs, parts, i)
      modifies this`dirs, this`nodes, dirs.Values`children
      ensures Valid() && Grown(old(dirs), dirs, old(nodes), nodes) && fresh(dirs.Values - old(dirs.Values))
      ensures HasDirectories(dirs, parts, i + 1)
      ensures forall n :: n in nodes - old(nodes) ==> n.isDir && n.segs < parts
    {
      hide Consistent, Lists, Join, GoodDir;
      var dirPath := Join(parts[..i + 1], '/');
      PrefixKeys(parts, i);
      if dirPath in dirs {
        FoundDirectory(dirs, nodes, root, parts[..i + 1]);
        return;
      }
      var parentPath := ".";
      if i > 0 {
        parentPath := Join(parts[..i], '/');
      }
      var dirNode := new FileNode.Directory(dirPath, parts[i], parts[..i + 1]);
      Attach(dirs[parentPath], dirNode);
    }

    /** Creates the directories of the path that do not exist yet. */
    method EnsureDirectories(parts: seq<string>)
      requires Valid() && parts != [] && (|parts| > 1 ==> GoodDir(parts))
      modifies this`dirs, this`nodes, dirs.Values`children
      ensures Valid() && Grown(old(dirs), dirs, old(nodes), nodes) && fresh(dirs.Values - old(dirs.Values))
      ensures HasDirectories(dirs, parts, |parts| - 1)
      ensures forall n :: n in nodes - old(nodes) ==> n.isDir && n.segs < parts
    {
      hide Consistent, Lists, GoodDir, HasDirectories;
      NoDirectoriesYet(dirs, nodes, root, parts);
      for i := 0 to |parts| - 1
        invariant Valid() && Grown(old(dirs), dirs, old(nodes), nodes) && fresh(dirs.Values - old(dirs.Values))
        invariant HasDirectories(dirs, parts, i)
        invariant forall n :: n in nodes - old(nodes) ==> n.isDir && n.segs < parts
      {
        EnsureDirectory(parts, i);
      }
    }

    method AddFile(f: File) returns (leaf: FileNode)
      requires Valid() && CleanStart(f.filePath)
      modifies this`dirs, this`nodes, dirs.Values`children
      ensures Valid() && Grown(old(dirs), dirs, old(nodes), nodes) && fresh(dirs.Values - old(dirs.Values))
      ensures HasDirectories(dirs, Split(f.filePath, '/'), |Split(f.filePath, '/')| - 1)
      ensures leaf in nodes && leaf !in old(nodes) && LeafOf(leaf, f) && leaf.children == []
      ensures forall n :: n in nodes - old(nodes) ==> n == leaf || (n.isDir && n.segs < Split(f.filePath, '/'))
    {
      hide Consistent, Lists, Join, GoodDir, Split, HasDirectories, CleanStart;
      var parts := Split(f.filePath, '/');
      PathParts(f.filePath);
      EnsureDirectories(parts);
      LastDirectory(dirs, parts);
      var parentPath := ".";
      if |parts| > 1 {
        parentPath := Join(parts[..|parts| - 1], '/');
      }
      leaf := new FileNode.Leaf(f, parts[|parts| - 1], parts);
      hide Key;
      Attach(dirs[parentPath], leaf);
    }

    /** The directory is the given one or lies below it. */
    ghost predicate Below(d: FileNode, node: FileNode) {
      node.segs <= d.segs
    }

    /** Sorts the children of one directory. */
    method SortLevel(key: string, node: FileNode)
      requires Valid() && key in dirs && dirs[key] == node
      modifies node`children
      ensures Valid() && SortedNodes(node.children)
    {
      hide Consistent, SortedNodes;
      ListedDistinct(nodes, node.segs, node.children);
      SortChildren(node);
      ListsPermuted(nodes, node.segs, old(node.children), node.children);
      hide Lists;
      forall k | k in dirs
        ensures Lists(nodes, dirs[k].segs, dirs[k].children)
      {
        if dirs[k] != node {
          assert old(Lists(nodes, dirs[k].segs, dirs[k].children));
        }
      }
    }

    /** Sorts every directory below the listed children of `node`. */
    method SortBelow(key: string, node: FileNode, kids: seq<FileNode>, ghost limit: nat)
      requires Valid() && key in dirs && dirs[key] == node && node.children == kids
      requires |node.segs| <= limit && forall n :: n in nodes ==> |n.segs| <= limit
      modifies dirs.Values`children
      ensures Valid() && node.children == kids
      ensures forall j, k :: 0 <= j < |kids| && kids[j].isDir && k in dirs && Below(dirs[k], kids[j]) ==> SortedNodes(dirs[k].children)
      ensures forall k :: k in dirs && !Below(dirs[k], node) ==> dirs[k].children == old(dirs[k].children)
      decreases limit - |node.segs|, 0
    {
      hide Consistent, SortedNodes, Lists;
      for i := 0 to |kids|
        invariant Valid() && node.children == kids
        invariant forall k :: k in dirs && !Below(dirs[k], node) ==> dirs[k].children == old(dirs[k].children)
        invariant forall j, k :: 0 <= j < i && kids[j].isDir && k in dirs && Below(dirs[k], kids[j]) ==> SortedNodes(dirs[k].children)
      {
        if kids[i].isDir {
          ChildIsDirectory(dirs, nodes, root, node, kids, i);
          SortFileNodes(kids[i].path, kids[i], limit);
          forall j, k | 0 <= j < i && kids[j].isDir && k in dirs && Below(dirs[k], kids[j])
            ensures !Below(dirs[k], kids[i])
          {
            SiblingsApart(dirs, nodes, root, node, kids, j, i, dirs[k]);
          }
        }
      }
    }

    /** Sorts the children of the directory and of every directory below it, and no others. */
    method SortFileNodes(key: string, node: FileNode, ghost limit: nat)
      requires Valid() && key in dirs && dirs[key] == node
      requires |node.segs| <= limit && forall n :: n in nodes ==> |n.segs| <= limit
      modifies dirs.Values`children
      ensures Valid()
      ensures forall k :: k in dirs && Below(dirs[k], node) ==> SortedNodes(dirs[k].children)
      ensures forall k :: k in dirs && !Below(dirs[k], node) ==> dirs[k].children == old(dirs[k].children)
      decreases limit - |node.segs|, 1
    {
      hide Consistent, SortedNodes, Lists;
      SortLevel(key, node);
      var kids := node.children;
      SortBelow(key, node, kids, limit);
      forall k | k in dirs && Below(dirs[k], node)
        ensures SortedNodes(dirs[k].children)
      {
        var j := WhichChild(dirs, nodes, root, key, kids, k);
      }
    }
  }

  lemma ListsPermuted(nodes: set<FileNode>, segs: seq<string>, before: seq<FileNode>, after: seq<FileNode>)
    requires Lists(nodes, segs, before) && Distinct(after) && forall m :: m in after <==> m in before
    ensures Lists(nodes, segs, after)
  {
  }

  lemma ListedDistinct(nodes: set<FileNode>, segs: seq<string>, children: seq<FileNode>)
    requires Lists(nodes, segs, children)
    ensures Distinct(children)
  {
  }

  lemma ChildIsDirectory(dirs: map<string, FileNode>, nodes: set<FileNode>, root: FileNode, node: FileNode, kids: seq<FileNode>, i: nat)
    requires Consistent(dirs, nodes, root) && Lists(nodes, node.segs, kids) && i < |kids| && kids[i].isDir
    ensures kids[i] in nodes && kids[i].path in dirs && dirs[kids[i].path] == kids[i]
    ensures |kids[i].segs| == |node.segs| + 1 && node.segs <= kids[i].segs
  {
    assert kids[i] in kids;
    assert NodeOk(dirs, kids[i]);
  }

  /** Nothing lies below two different children. */
  lemma SiblingsApart(dirs: map<string, FileNode>, nodes: set<FileNode>, root: FileNode, node: FileNode, kids: seq<FileNode>, j: nat, i: nat, d: FileNode)
    requires Consistent(dirs, nodes, root) && Lists(nodes, node.segs, kids)
    requires j < i < |kids| && kids[j].isDir && kids[i].isDir && kids[j].segs <= d.segs
    ensures !(kids[i].segs <= d.segs)
  {
    ChildIsDirectory(dirs, nodes, root, node, kids, j);
    ChildIsDirectory(dirs, nodes, root, node, kids, i);
    if kids[i].segs <= d.segs {
      assert kids[i].segs == d.segs[..|node.segs| + 1] == kids[j].segs;
      SameSegsSameNode(dirs, nodes, root, kids[j].path, kids[i].path);
    }
  }

  lemma PathParts(path: string)
    requires CleanStart(path)
    ensures var parts := Split(path, '/'); Join(parts, '/') == path && (|parts| > 1 ==> GoodDir(parts))
  {
    JoinOfSplit(path, '/');
  }

  lemma LastDirectory(dirs: map<string, FileNode>, parts: seq<string>)
    requires parts != [] && HasDirectories(dirs, parts, |parts| - 1)
    ensures var up := parts[..|parts| - 1];
            && Key(up) in dirs && dirs[Key(up)].segs == up
            && Key(up) == if |parts| > 1 then Join(up, '/') else "."
  {
  }

  /** The node is a leaf for the file. */
  ghost predicate LeafOf(n: FileNode, f: File) {
    !n.isDir && n.segs == Split(f.filePath, '/') && n.path == f.filePath && n.language == f.language && n.size == f.sizeBytes
  }

  /** Nothing known is lost. */
  ghost predicate Grown(before: map<string, FileNode>, after: map<string, FileNode>, nodes: set<FileNode>, more: set<FileNode>) {
    nodes <= more && forall k :: k in before ==> k in after && after[k] == before[k]
  }

  /** The directories of the path up to the given depth are in the map. */
  ghost predicate HasDirectories(dirs: map<string, FileNode>, parts: seq<string>, depth: nat)
    requires depth <= |parts|
  {
    forall i :: 0 <= i <= depth ==> Key(parts[..i]) in dirs && dirs[Key(parts[..i])].segs == parts[..i]
  }

  lemma RootIsThere(dirs: map<string, FileNode>, nodes: set<FileNode>, root: FileNode)
    requires Consistent(dirs, nodes, root)
    ensures "." in dirs && dirs["."].segs == []
  {
    assert KeyOk(dirs, nodes, root, ".");
  }

  lemma NoDirectoriesYet(dirs: map<string, FileNode>, nodes: set<FileNode>, root: FileNode, parts: seq<string>)
    requires Consistent(dirs, nodes, root)
    ensures HasDirectories(dirs, parts, 0)
  {
    RootIsThere(dirs, nodes, root);
  }

  lemma PrefixKeys(parts: seq<string>, i: nat)
    requires GoodDir(parts) && i < |parts| - 1
    ensures GoodDir(parts[..i + 1]) && Key(parts[..i + 1]) == Join(parts[..i + 1], '/')
    ensures parts[..i + 1][..i] == parts[..i] && parts[..i + 1][i] == parts[i] && parts[..i + 1] < parts
    ensures Key(parts[..i]) == if i > 0 then Join(parts[..i], '/') else "."
  {
  }

  /** A key found in the map belongs to the very directory that was looked up. */
  lemma FoundDirectory(dirs: map<string, FileNode>, nodes: set<FileNode>, root: FileNode, segs: seq<string>)
    requires Consistent(dirs, nodes, root) && GoodDir(segs) && Key(segs) in dirs
    ensures dirs[Key(segs)].segs == segs
  {
    hide GoodDir, Join;
    GoodDirNonEmpty(segs);
    JoinOfGood(segs);
    assert KeyOk(dirs, nodes, root, Key(segs));
    KeyInjective(dirs[Key(segs)].segs, segs);
  }

  lemma SameSegsSameNode(dirs: map<string, FileNode>, nodes: set<FileNode>, root: FileNode, k: string, l: string)
    requires Consistent(dirs, nodes, root) && k in dirs && l in dirs
    ensures dirs[k].segs == dirs[l].segs ==> dirs[k] == dirs[l]
  {
    hide GoodDir, Join;
    assert KeyOk(dirs, nodes, root, k) && KeyOk(dirs, nodes, root, l);
    GoodDirNonEmpty(dirs[k].segs);
    GoodDirNonEmpty(dirs[l].segs);
  }

  lemma GoodDirNonEmpty(segs: seq<string>)
    ensures GoodDir(segs) ==> segs != []
  {
  }

  // ----- Sorting

  /** Directories come first; within each kind, names in order. */
  predicate Before(a: FileNode, b: FileNode) {
    if a.isDir != b.isDir then a.isDir else Less(a.name, b.name)
  }

  ghost predicate SortedNodes(nodes: seq<FileNode>) {
    forall i, j :: 0 <= i < j < |nodes| ==> !Before(nodes[j], nodes[i])
  }

  lemma BeforeIsOrder(a: FileNode, b: FileNode, c: FileNode)
    ensures Before(a, b) ==> !Before(b, a)
    ensures !Before(b, a) && !Before(c, b) ==> !Before(c, a)
  {
    LessTotal(a.name, b.name);
    LessTotal(b.name, c.name);
    LessTotal(a.name, c.name);
    if Less(a.name, b.name) && Less(b.name, c.name) {
      LessTransitive(a.name, b.name, c.name);
    }
  }

  method InsertNode(nodes: seq<FileNode>, n: FileNode) returns (r: seq<FileNode>)
    requires SortedNodes(nodes) && Distinct(nodes) && n !in nodes
    ensures SortedNodes(r) && Distinct(r) && forall m :: m in r <==> m in nodes || m == n
  {
    hide Before;
    var k := 0;
    while k < |nodes| && !Before(n, nodes[k])
      invariant 0 <= k <= |nodes|
      invariant forall i :: 0 <= i < k ==> !Before(n, nodes[i])
    {
      k := k + 1;
    }
    forall i | k <= i < |nodes|
      ensures !Before(nodes[i], n)
    {
      BeforeIsOrder(n, nodes[k], nodes[i]);
    }
    r := nodes[..k] + [n] + nodes[k..];
  }

  /** `sort.Slice` on a directory's children: an ordered rearrangement of the same nodes. */
  method SortChildren(d: FileNode)
    requires Distinct(d.children)
    modifies d`children
    ensures SortedNodes(d.children) && Distinct(d.children)
    ensures forall m :: m in d.children <==> m in old(d.children)
  {
    hide Before;
    var sorted: seq<FileNode> := [];
    for i := 0 to |d.children|
      invariant d.children == old(d.children)
      invariant SortedNodes(sorted) && Distinct(sorted) && forall m :: m in sorted <==> m in d.children[..i]
    {
      assert d.children[i] !in d.children[..i];
      sorted := InsertNode(sorted, d.children[i]);
    }
    d.children := sorted;
  }

  /** Every ancestor of a directory is in the map. */
  lemma {:induction false} AncestorThere(dirs: map<string, FileNode>, nodes: set<FileNode>, root: FileNode, k: string, depth: nat)
    requires Consistent(dirs, nodes, root) && k in dirs && depth <= |dirs[k].segs|
    ensures var up := dirs[k].segs[..depth]; Key(up) in dirs && dirs[Key(up)].segs == up
    decreases |dirs[k].segs| - depth
  {
    var d := dirs[k];
    assert KeyOk(dirs, nodes, root, k) && KeyOk(dirs, nodes, root, ".");
    if depth == |d.segs| {
      assert d.segs[..depth] == d.segs;
    } else {
      AncestorThere(dirs, nodes, root, k, depth + 1);
      var lower := dirs[Key(d.segs[..depth + 1])];
      assert KeyOk(dirs, nodes, root, Key(d.segs[..depth + 1]));
      assert NodeOk(dirs, lower);
      assert ParentSegs(lower) == d.segs[..depth];
    }
  }

  /** A directory below `node` is `node` itself or lies below one of its children. */
  lemma WhichChild(dirs: map<string, FileNode>, nodes: set<FileNode>, root: FileNode, key: string, kids: seq<FileNode>, k: string)
    returns (j: int)
    requires Consistent(dirs, nodes, root) && key in dirs && k in dirs && dirs[key].segs <= dirs[k].segs
    requires Lists(nodes, dirs[key].segs, kids)
    ensures dirs[k] == dirs[key] || (0 <= j < |kids| && kids[j].isDir && kids[j].segs <= dirs[k].segs)
  {
    j := 0;
    var node, d := dirs[key], dirs[k];
    SameSegsSameNode(dirs, nodes, root, key, k);
    if d.segs != node.segs {
      var n := |node.segs| + 1;
      AncestorThere(dirs, nodes, root, k, n);
      var child := dirs[Key(d.segs[..n])];
      assert KeyOk(dirs, nodes, root, Key(d.segs[..n]));
      assert ParentSegs(child) == node.segs;
      assert child in kids;
      j :| 0 <= j < |kids| && kids[j] == child;
    }
  }

  // ----- The whole tree

  /** One leaf per file, in order; the other nodes are exactly the proper directory prefixes. */
  ghost predicate TreeOf(files: seq<File>, dirs: map<string, FileNode>, nodes: set<FileNode>, leaves: seq<FileNode>) {
    && |leaves| == |files| && Distinct(leaves)
    && (forall j :: 0 <= j < |files| ==> leaves[j] in nodes && LeafOf(leaves[j], files[j]))
    && (forall n :: n in nodes && !n.isDir ==> n in leaves)
    && (forall j :: 0 <= j < |files| ==> DirectoriesOf(dirs, files[j]))
    && (forall n :: n in nodes && n.isDir ==> IsPrefixOfSome(n, files))
  }

  /** Every directory prefix of the file is in the map. */
  ghost predicate DirectoriesOf(dirs: map<string, FileNode>, f: File) {
    var parts := Split(f.filePath, '/');
    HasDirectories(dirs, parts, |parts| - 1)
  }

  ghost predicate IsPrefixOfSome(n: FileNode, files: seq<File>) {
    exists j :: 0 <= j < |files| && n.segs < Split(files[j].filePath, '/')
  }

  lemma TreeExtended(files: seq<File>, f: File, dirs: map<string, FileNode>, more: map<string, FileNode>,
                     nodes: set<FileNode>, moreNodes: set<FileNode>, leaves: seq<FileNode>, leaf: FileNode)
    requires TreeOf(files, dirs, nodes, leaves) && Grown(dirs, more, nodes, moreNodes)
    requires DirectoriesOf(more, f) && leaf in moreNodes && leaf !in nodes && LeafOf(leaf, f)
    requires forall n :: n in moreNodes - nodes ==> n == leaf || (n.isDir && n.segs < Split(f.filePath, '/'))
    ensures TreeOf(files + [f], more, moreNodes, leaves + [leaf])
  {
    var fs, ls := files + [f], leaves + [leaf];
    hide Split;
    forall n | n in moreNodes && n.isDir
      ensures IsPrefixOfSome(n, fs)
    {
      if n in nodes {
        var j :| 0 <= j < |files| && n.segs < Split(files[j].filePath, '/');
        assert fs[j] == files[j];
      } else {
        assert fs[|files|] == f;
      }
    }
    forall n | n in moreNodes && !n.isDir
      ensures n in ls
    {
      if n in nodes { assert n in leaves; } else { assert ls[|leaves|] == n; }
    }
    forall j | 0 <= j < |fs|
      ensures DirectoriesOf(more, fs[j])
    {
      if j < |files| { assert DirectoriesOf(dirs, files[j]); }
    }
  }

  method BuildFileTree(files: seq<File>) returns (b: TreeBuilder, ghost leaves: seq<FileNode>)
    requires forall i :: 0 <= i < |files| ==> CleanStart(files[i].filePath)
    ensures fresh(b) && b.Valid() && TreeOf(files, b.dirs, b.nodes, leaves)
    ensures forall k :: k in b.dirs ==> SortedNodes(b.dirs[k].children)
    ensures b.BareLeaves()
    ensures forall k :: k in b.dirs ==> DirectoriesFirst(b.dirs[k].children) && NamesAscend(b.dirs[k].children)
  {
    hide Consistent, Lists, CleanStart, SortedNodes, Split, Less;
    b := new TreeBuilder();
    leaves := [];
    ghost var limit: nat := 0;
    EmptyTree(b.dirs);
    for i := 0 to |files|
      invariant fresh(b) && fresh(b.dirs.Values) && b.Valid() && TreeOf(files[..i], b.dirs, b.nodes, leaves)
      invariant forall n :: n in b.nodes ==> |n.segs| <= limit
      invariant forall j :: 0 <= j < |leaves| ==> leaves[j].children == []
    {
      ghost var dirs, nodes := b.dirs, b.nodes;
      LeavesAreNoDirectories(b.dirs, b.nodes, b.root, files[..i], leaves);
      var leaf := b.AddFile(files[i]);
      hide TreeOf;
      TreeExtended(files[..i], files[i], dirs, b.dirs, nodes, b.nodes, leaves, leaf);
      assert files[..i + 1] == files[..i] + [files[i]];
      leaves := leaves + [leaf];
      ghost var depth := |Split(files[i].filePath, '/')|;
      limit := if depth > limit then depth else limit;
    }
    assert files[..|files|] == files;
    RootIsThere(b.dirs, b.nodes, b.root);
    RootIsRoot(b.dirs, b.nodes, b.root);
    LeavesAreNoDirectories(b.dirs, b.nodes, b.root, files, leaves);
    b.SortFileNodes(".", b.root, limit);
    forall k | k in b.dirs
      ensures DirectoriesFirst(b.dirs[k].children) && NamesAscend(b.dirs[k].children)
    {
      SortedMeaning(b.dirs[k].children);
    }
  }

  /** No file stands before a directory. */
  ghost predicate DirectoriesFirst(nodes: seq<FileNode>) {
    forall i, j :: 0 <= i < j < |nodes| && nodes[j].isDir ==> nodes[i].isDir
  }

  /** Among directories, and among files, names never decrease. */
  ghost predicate NamesAscend(nodes: seq<FileNode>) {
    forall i, j :: 0 <= i < j < |nodes| && nodes[i].isDir == nodes[j].isDir ==> nodes[i].name == nodes[j].name || Less(nodes[i].name, nodes[j].name)
  }

  lemma SortedMeaning(nodes: seq<FileNode>)
    requires SortedNodes(nodes)
    ensures DirectoriesFirst(nodes) && NamesAscend(nodes)
  {
    forall i, j | 0 <= i < j < |nodes| && nodes[i].isDir == nodes[j].isDir
      ensures nodes[i].name == nodes[j].name || Less(nodes[i].name, nodes[j].name)
    {
      assert !Before(nodes[j], nodes[i]);
      LessTotal(nodes[i].name, nodes[j].name);
    }
  }

  lemma LeavesAreNoDirectories(dirs: map<string, FileNode>, nodes: set<FileNode>, root: FileNode, files: seq<File>, leaves: seq<FileNode>)
    requires Consistent(dirs, nodes, root) && TreeOf(files, dirs, nodes, leaves)
    ensures forall j :: 0 <= j < |leaves| ==> leaves[j] !in dirs.Values
  {
    forall j | 0 <= j < |leaves|
      ensures leaves[j] !in dirs.Values
    {
      assert !leaves[j].isDir;
      assert forall k :: k in dirs ==> KeyOk(dirs, nodes, root, k);
    }
  }

  lemma EmptyTree(dirs: map<string, FileNode>)
    ensures TreeOf([], dirs, {}, [])
  {
  }

  lemma RootIsRoot(dirs: map<string, FileNode>, nodes: set<FileNode>, root: FileNode)
    requires Consistent(dirs, nodes, root)
    ensures "." in dirs && dirs["."] == root && root.segs == []
  {
    assert KeyOk(dirs, nodes, root, ".");
  }

  // ----- What a valid tree means

  lemma {:induction false} JoinAppend(segs: seq<string>, name: string)
    requires segs != []
    ensures Join(segs + [name], '/') == Join(segs, '/') + "/" + name
  {
    if |segs| == 1 {
      assert (segs + [name])[1..] == [name];
    } else {
      assert (segs + [name])[1..] == segs[1..] + [name];
      JoinAppend(segs[1..], name);
    }
  }

  /** A node's path is its parent's path plus its name; below the root it is the name itself. */
  lemma PathIsParentPlusName(dirs: map<string, FileNode>, nodes: set<FileNode>, root: FileNode, n: FileNode)
    requires Consistent(dirs, nodes, root) && n in nodes
    ensures Key(ParentSegs(n)) in dirs
    ensures var parent := dirs[Key(ParentSegs(n))];
            n.path == if parent == root then n.name else parent.path + "/" + n.name
  {
    assert NodeOk(dirs, n);
    var up := ParentSegs(n);
    var parent := dirs[Key(up)];
    assert KeyOk(dirs, nodes, root, Key(up)) && KeyOk(dirs, nodes, root, ".");
    assert n.segs == up + [n.name];
    if up == [] {
      assert Join([n.name], '/') == n.name;
    } else {
      JoinAppend(up, n.name);
      SameSegsSameNode(dirs, nodes, root, Key(up), ".");
      assert parent in nodes && NodeOk(dirs, parent);
    }
  }

  /** Each node is listed exactly once in the tree: under its parent, and there once. */
  lemma ListedOnce(b: TreeBuilder, n: FileNode, k: string)
    requires b.Valid() && n in b.nodes && k in b.dirs
    ensures Key(ParentSegs(n)) in b.dirs
    ensures n in b.dirs[k].children <==> b.dirs[k] == b.dirs[Key(ParentSegs(n))]
    ensures Distinct(b.dirs[k].children)
  {
    assert NodeOk(b.dirs, n);
    SameSegsSameNode(b.dirs, b.nodes, b.root, k, Key(ParentSegs(n)));
    assert Lists(b.nodes, b.dirs[k].segs, b.dirs[k].children);
  }

  /** Each node but the first is a child of the one before it. */
  ghost predicate Descends(walk: seq<FileNode>)
    reads walk
  {
    forall i :: 0 <= i < |walk| - 1 ==> walk[i + 1] in walk[i].children
  }

  /** Every node can be reached from the root through children. */
  lemma {:induction false} ReachedFromRoot(b: TreeBuilder, n: FileNode) returns (walk: seq<FileNode>)
    requires b.Valid() && n in b.nodes
    ensures |walk| > 1 && walk[0] == b.root && walk[|walk| - 1] == n && Descends(walk)
    decreases |n.segs|
  {
    assert NodeOk(b.dirs, n);
    var key := Key(ParentSegs(n));
    var parent := b.dirs[key];
    ListedOnce(b, n, key);
    if parent == b.root {
      walk := [parent, n];
    } else {
      assert KeyOk(b.dirs, b.nodes, b.root, key);
      var above := ReachedFromRoot(b, parent);
      walk := above + [n];
      forall i | 0 <= i < |walk| - 1
        ensures walk[i + 1] in walk[i].children
      {
        if i < |above| - 1 { assert above[i + 1] in above[i].children; }
      }
    }
  }

  lemma DescendsBefore(walk: seq<FileNode>)
    requires |walk| > 1 && Descends(walk)
    ensures Descends(walk[..|walk| - 1]) && walk[|walk| - 1] in walk[|walk| - 2].children
  {
    var shorter := walk[..|walk| - 1];
    forall i | 0 <= i < |shorter| - 1
      ensures shorter[i + 1] in shorter[i].children
    {
      assert walk[i + 1] in walk[i].children;
    }
    assert walk[|walk| - 2 + 1] in walk[|walk| - 2].children;
  }

  lemma ChildIsNode(b: TreeBuilder, parent: FileNode, child: FileNode)
    requires b.Valid() && b.BareLeaves() && (parent == b.root || parent in b.nodes) && child in parent.children
    ensures child in b.nodes
  {
    RootIsRoot(b.dirs, b.nodes, b.root);
    var key := if parent == b.root then "." else parent.path;
    if parent != b.root {
      assert parent.isDir && NodeOk(b.dirs, parent);
    }
    assert Lists(b.nodes, b.dirs[key].segs, b.dirs[key].children);
  }

  /** Nothing else can. */
  lemma {:induction false} OnlyNodesReached(b: TreeBuilder, walk: seq<FileNode>)
    requires b.Valid() && b.BareLeaves()
    requires |walk| > 0 && walk[0] == b.root && Descends(walk)
    ensures |walk| > 1 ==> walk[|walk| - 1] in b.nodes
    decreases |walk|
  {
    hide Consistent, Lists, Descends;
    if |walk| > 1 {
      DescendsBefore(walk);
      OnlyNodesReached(b, walk[..|walk| - 1]);
      ChildIsNode(b, walk[|walk| - 2], walk[|walk| - 1]);
    }
  }

  /** Each distinct directory prefix has exactly one node. */
  lemma OneNodePerDirectory(dirs: map<string, FileNode>, nodes: set<FileNode>, root: FileNode, m: FileNode, n: FileNode)
    requires Consistent(dirs, nodes, root) && m in nodes && n in nodes && m.isDir && n.isDir && m.segs == n.segs
    ensures m == n
  {
    assert NodeOk(dirs, m) && NodeOk(dirs, n);
  }
}
