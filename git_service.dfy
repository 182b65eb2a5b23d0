/**
 * The parts of `GitService` that compute rather than talk to git: the
 * clean-up of `git branch -a` into a branch list, and the construction of
 * the documentation tree from the flat output of `git ls-tree`, ordered
 * with directories first. Running git is not modelled: the branch table
 * and the listing (or the error it threw) are inputs.
 */
module GitService {
  import opened Wrappers
  import opened Strings
  import Sorting

  // ---------------------------------------------------------------------
  // Branches
  // ---------------------------------------------------------------------

  /** One entry of the branch table `git branch -a` reports, in enumeration order. */
  datatype BranchEntry = BranchEntry(name: string, current: bool)

  datatype BranchInfo = BranchInfo(name: string, isRemote: bool, isCurrent: bool)

  /**
   * `name.replace(/^remotes\/[^/]+\//, "")`: drops "remotes/", a non-empty
   * remote name and the "/" after it; a name the pattern does not match is
   * returned as it is.
   */
  function StripRemote(name: string): string {
    if !StartsWith(name, "remotes/") then name
    else
      var rest := name[8..];
      match IndexOf(rest, '/')
      case Some(k) => if k > 0 then rest[k + 1..] else name
      case None => name
  }

  /** A remote-tracking name loses exactly its "remotes/<remote>/" prefix; other names are unchanged. */
  lemma StripRemoteSpec(remote: string, branch: string, local: string)
    requires remote != "" && '/' !in remote
    requires !StartsWith(local, "remotes/")
    ensures StripRemote("remotes/" + remote + "/" + branch) == branch
    ensures StripRemote(local) == local
  {
    var name := "remotes/" + remote + "/" + branch;
    assert name[..8] == "remotes/";
    assert name[8..] == remote + ['/'] + branch;
    IndexOfFirst(remote, '/', branch);
    assert name[8..][|remote| + 1..] == branch;
  }

  /** HEAD references (any name containing "HEAD") are skipped. */
  predicate Skipped(e: BranchEntry) {
    Includes(e.name, "HEAD")
  }

  function ToInfo(e: BranchEntry): BranchInfo {
    BranchInfo(StripRemote(e.name), StartsWith(e.name, "remotes/"), e.current)
  }

  predicate HasName(branches: seq<BranchInfo>, name: string) {
    exists i :: 0 <= i < |branches| && branches[i].name == name
  }

  /** What one entry adds to the list built so far: nothing if skipped or already listed under its clean name. */
  function Step(branches: seq<BranchInfo>, e: BranchEntry): seq<BranchInfo> {
    if Skipped(e) || HasName(branches, ToInfo(e).name) then branches
    else branches + [ToInfo(e)]
  }

  /** The branch list `listBranches` returns for a branch table. */
  function Branches(entries: seq<BranchEntry>): seq<BranchInfo> {
    if |entries| == 0 then []
    else Step(Branches(entries[..|entries| - 1]), entries[|entries| - 1])
  }

  /** `listBranches`: one pass over the table, skipping HEAD, cleaning remote names and deduplicating. */
  method ListBranches(entries: seq<BranchEntry>) returns (branches: seq<BranchInfo>)
    ensures branches == Branches(entries)
  {
    branches := [];
    var i := 0;
    while i < |entries|
      invariant 0 <= i <= |entries|
      invariant branches == Branches(entries[..i])
    {
      assert entries[..i + 1][..i] == entries[..i];
      var e := entries[i];
      if !Includes(e.name, "HEAD") {
        var isRemote := StartsWith(e.name, "remotes/");
        var cleanName := if isRemote then StripRemote(e.name) else e.name;
        if !HasName(branches, cleanName) {
          branches := branches + [BranchInfo(cleanName, isRemote, e.current)];
        }
      }
      i := i + 1;
    }
    assert entries[..|entries|] == entries;
  }

  /** No two listed branches share a name. */
  lemma {:induction false} BranchesDistinct(entries: seq<BranchEntry>)
    ensures forall i, j :: 0 <= i < j < |Branches(entries)| ==> Branches(entries)[i].name != Branches(entries)[j].name
    decreases |entries|
  {
    if |entries| > 0 {
      BranchesDistinct(entries[..|entries| - 1]);
    }
  }

  /** A step keeps the list built so far as a prefix, and lists a non-skipped entry's clean name. */
  lemma StepExtends(branches: seq<BranchInfo>, e: BranchEntry)
    ensures |Step(branches, e)| >= |branches|
    ensures forall k :: 0 <= k < |branches| ==> Step(branches, e)[k] == branches[k]
    ensures !Skipped(e) ==> HasName(Step(branches, e), ToInfo(e).name)
    ensures |Step(branches, e)| > |branches| ==>
              Step(branches, e) == branches + [ToInfo(e)] && !Skipped(e) && !HasName(branches, ToInfo(e).name)
  {
    if !Skipped(e) && !HasName(branches, ToInfo(e).name) {
      assert Step(branches, e)[|branches|] == ToInfo(e);
    }
  }

  /** Every entry that is not a HEAD reference is listed under its clean name. */
  lemma {:induction false} BranchesComplete(entries: seq<BranchEntry>)
    ensures forall i :: 0 <= i < |entries| && !Skipped(entries[i]) ==> HasName(Branches(entries), ToInfo(entries[i]).name)
    decreases |entries|
  {
    if |entries| > 0 {
      var prev := entries[..|entries| - 1];
      var e := entries[|entries| - 1];
      BranchesComplete(prev);
      var before := Branches(prev);
      var r := Branches(entries);
      assert r == Step(before, e);
      StepExtends(before, e);
      forall i | 0 <= i < |entries| && !Skipped(entries[i]) ensures HasName(r, ToInfo(entries[i]).name) {
        if i < |prev| {
          assert entries[i] == prev[i];
          var k :| 0 <= k < |before| && before[k].name == ToInfo(prev[i]).name;
          assert r[k] == before[k];
        }
      }
    }
  }

  /**
   * Every listed branch comes from a non-HEAD entry, the first one with
   * that clean name: later duplicates do not replace it.
   */
  lemma {:induction false} BranchesFirstWins(entries: seq<BranchEntry>)
    ensures forall k :: 0 <= k < |Branches(entries)| ==> FirstWith(entries, Branches(entries)[k])
    decreases |entries|
  {
    if |entries| > 0 {
      var prev := entries[..|entries| - 1];
      var e := entries[|entries| - 1];
      BranchesFirstWins(prev);
      BranchesComplete(prev);
      var before := Branches(prev);
      var r := Branches(entries);
      assert r == Step(before, e);
      StepExtends(before, e);
      forall k | 0 <= k < |r| ensures FirstWith(entries, r[k]) {
        if k < |before| {
          assert r[k] == before[k];
          FirstWithExtends(prev, e, before[k]);
          assert prev + [e] == entries;
        } else {
          var i := |entries| - 1;
          forall j | 0 <= j < i ensures Skipped(entries[j]) || ToInfo(entries[j]).name != ToInfo(e).name {
            assert entries[j] == prev[j];
          }
          assert entries[i] == e && r[k] == ToInfo(e) && !Skipped(e);
          assert FirstWithAt(entries, r[k], i);
        }
      }
    }
  }

  /** `b` is listed because of entry `i`, the first non-HEAD entry with its clean name. */
  predicate FirstWithAt(entries: seq<BranchEntry>, b: BranchInfo, i: int) {
    && 0 <= i < |entries| && !Skipped(entries[i]) && b == ToInfo(entries[i])
    && forall j :: 0 <= j < i ==> Skipped(entries[j]) || ToInfo(entries[j]).name != b.name
  }

  predicate FirstWith(entries: seq<BranchEntry>, b: BranchInfo) {
    exists i :: 0 <= i < |entries| && FirstWithAt(entries, b, i)
  }

  lemma FirstWithExtends(entries: seq<BranchEntry>, e: BranchEntry, b: BranchInfo)
    requires FirstWith(entries, b)
    ensures FirstWith(entries + [e], b)
  {
    var i :| 0 <= i < |entries| && FirstWithAt(entries, b, i);
    var longer := entries + [e];
    assert forall j :: 0 <= j <= i ==> longer[j] == entries[j];
    assert FirstWithAt(longer, b, i);
  }

  // ---------------------------------------------------------------------
  // The documentation tree
  // ---------------------------------------------------------------------

  datatype Kind = File | Directory

  /** A node's children: `undefined` for a file, a list for a directory. */
  datatype Children = Undefined | Kids(nodes: seq<FileTreeNode>)

  /** A node of the tree. */
  datatype FileTreeNode = FileTreeNode(name: string, path: string, kind: Kind, children: Children)

  /** What `currentLevel.push` throws once the walk has stepped into a file node's missing children. */
  const PushOnUndefined := Error("Cannot read properties of undefined (reading 'push')")

  /** The path below the base directory, when the file lies under it. */
  function Relative(filePath: string, basePath: string): string {
    if StartsWith(filePath, basePath + "/") then filePath[|basePath| + 1..] else filePath
  }

  /** What a directory node's path starts with: the base directory when the file lies under it, nothing otherwise. */
  function DirBase(filePath: string, basePath: string): string {
    if StartsWith(filePath, basePath + "/") then basePath + "/" else ""
  }

  /** The path segments `buildTree` walks for one file. */
  function Parts(filePath: string, basePath: string): seq<string> {
    Split(Relative(filePath, basePath), '/')
  }

  /** Index of the node with the given name in a level. */
  function FindByName(level: seq<FileTreeNode>, name: string): (r: Option<nat>)
    ensures r.None? <==> forall i :: 0 <= i < |level| ==> level[i].name != name
    ensures r.Some? ==> r.value < |level| && level[r.value].name == name
  {
    if |level| == 0 then None
    else if level[0].name == name then Some(0)
    else
      match FindByName(level[1..], name)
      case None => None
      case Some(k) => Some(k + 1)
  }

  /**
   * The inner loop of `buildTree` for one file: walks the remaining
   * segments `rest` from `level`, whose directory path is `prefix`.
   * A missing segment gets a node, a directory when segments follow and
   * otherwise a file whose path is the whole file path; an existing node is
   * reused. Stepping into a file node with segments left throws.
   *
   * The source finds an existing node through a map keyed by the
   * accumulated path; every node of a level is stored under `prefix` plus
   * its name (see `NodeOk`), so looking the segment up by name in the
   * current level selects the same node.
   */
  function Place(level: seq<FileTreeNode>, prefix: string, rest: seq<string>, filePath: string)
    : Result<seq<FileTreeNode>, Error>
    requires |rest| > 0
    decreases |rest|
  {
    var part := rest[0];
    var k := FindByName(level, part);
    if |rest| == 1 then
      Success(if k.Some? then level else level + [FileTreeNode(part, filePath, File, Undefined)])
    else
      var level1 := WithDirectory(level, prefix, part);
      var idx := DirectoryIndex(level, part);
      var node := level1[idx];
      if node.children.Undefined? then Failure(PushOnUndefined)
      else
        var kids :- Place(node.children.nodes, prefix + part + "/", rest[1..], filePath);
        Success(level1[idx := node.(children := Kids(kids))])
  }

  /** The level with a new, empty directory node for `part` appended when no node has that name. */
  function WithDirectory(level: seq<FileTreeNode>, prefix: string, part: string): (r: seq<FileTreeNode>)
    ensures DirectoryIndex(level, part) < |r| && r[DirectoryIndex(level, part)].name == part
  {
    if FindByName(level, part).Some? then level else level + [FileTreeNode(part, prefix + part, Directory, Kids([]))]
  }

  /** Where the node for `part` sits in `WithDirectory(level, prefix, part)`. */
  function DirectoryIndex(level: seq<FileTreeNode>, part: string): nat {
    match FindByName(level, part)
    case Some(k) => k
    case None => |level|
  }

  /** One iteration of the outer loop of `buildTree`. */
  function AddFile(root: seq<FileTreeNode>, filePath: string, basePath: string): Result<seq<FileTreeNode>, Error> {
    Place(root, DirBase(filePath, basePath), Parts(filePath, basePath), filePath)
  }

  /** The outer loop of `buildTree` from a given root: files are added in order; the first throw ends it. */
  function Grow(root: seq<FileTreeNode>, files: seq<string>, basePath: string): Result<seq<FileTreeNode>, Error>
    decreases |files|
  {
    if |files| == 0 then Success(root)
    else
      var next :- AddFile(root, files[0], basePath);
      Grow(next, files[1..], basePath)
  }

  /** "a may precede b" for `sortTree`'s comparator: directories first, then by name. */
  predicate NodeLe(a: FileTreeNode, b: FileTreeNode) {
    if a.kind != b.kind then a.kind == Directory else LexLe(a.name, b.name)
  }

  lemma NodeLeTotal()
    ensures Sorting.TotalPreorder(NodeLe)
  {
    forall a: FileTreeNode, b: FileTreeNode ensures NodeLe(a, b) || NodeLe(b, a) {
      LexLeTotal(a.name, b.name);
    }
    forall a: FileTreeNode, b: FileTreeNode, c: FileTreeNode | NodeLe(a, b) && NodeLe(b, c) ensures NodeLe(a, c) {
      if a.kind == b.kind == c.kind {
        LexLeTransitive(a.name, b.name, c.name);
      }
    }
  }

  /** `sortTree` applied below a node: its children sorted, each of them sorted in turn. */
  function SortNode(n: FileTreeNode): (r: FileTreeNode)
    ensures r.name == n.name && r.path == n.path && r.kind == n.kind
    ensures r.children.Kids? <==> n.children.Kids?
    decreases n
  {
    match n.children
    case Undefined => n
    case Kids(kids) =>
      n.(children := Kids(Sorting.Sort(seq(|kids|, i requires 0 <= i < |kids| => SortNode(kids[i])), NodeLe)))
  }

  /** `sortTree`: every level ordered by `NodeLe`, with a stable sort. */
  function SortTree(level: seq<FileTreeNode>): seq<FileTreeNode> {
    Sorting.Sort(seq(|level|, i requires 0 <= i < |level| => SortNode(level[i])), NodeLe)
  }

  lemma SortNodeChildren(n: FileTreeNode)
    requires n.children.Kids?
    ensures SortNode(n).children == Kids(SortTree(n.children.nodes))
  {
  }

  /**
   * The source sorts a level and then sorts below each node; sorting below
   * each node first gives the same level, since that keeps every node's
   * name and kind.
   */
  lemma SortTreeAsWritten(level: seq<FileTreeNode>)
    ensures SortTree(level) == Sorting.Map(SortNode, Sorting.Sort(level, NodeLe))
  {
    Sorting.SortMap(level, SortNode, NodeLe, NodeLe);
    assert Sorting.Map(SortNode, level) == seq(|level|, i requires 0 <= i < |level| => SortNode(level[i]));
  }

  /** A sorted level holds the same nodes (each sorted below) as the level it came from, and no others. */
  lemma SortTreeMembers(level: seq<FileTreeNode>)
    ensures |SortTree(level)| == |level|
    ensures forall k :: 0 <= k < |level| ==> exists m :: 0 <= m < |level| && SortTree(level)[m] == SortNode(level[k])
    ensures forall m :: 0 <= m < |level| ==> exists k :: 0 <= k < |level| && SortTree(level)[m] == SortNode(level[k])
  {
    var mapped := seq(|level|, i requires 0 <= i < |level| => SortNode(level[i]));
    var sorted := SortTree(level);
    Sorting.SortMultiset(mapped, NodeLe);
    assert |sorted| == |multiset(sorted)| == |multiset(mapped)| == |level|;
    forall k | 0 <= k < |level| ensures exists m :: 0 <= m < |level| && sorted[m] == SortNode(level[k]) {
      assert mapped[k] in multiset(sorted);
    }
    forall m | 0 <= m < |level| ensures exists k :: 0 <= k < |level| && sorted[m] == SortNode(level[k]) {
      assert sorted[m] in multiset(mapped);
    }
  }

  /** A property of every node sorted below holds of every node of the sorted level. */
  lemma SortTreeForall(level: seq<FileTreeNode>, p: FileTreeNode -> bool)
    requires forall k :: 0 <= k < |level| ==> p(SortNode(level[k]))
    ensures forall m :: 0 <= m < |SortTree(level)| ==> p(SortTree(level)[m])
  {
    var mapped := seq(|level|, k requires 0 <= k < |level| => SortNode(level[k]));
    var sorted := SortTree(level);
    Sorting.SortMultiset(mapped, NodeLe);
    forall m | 0 <= m < |sorted| ensures p(sorted[m]) {
      assert sorted[m] in multiset(mapped);
      var k :| 0 <= k < |mapped| && mapped[k] == sorted[m];
    }
  }

  // Shape invariants of a built tree.

  predicate NamesDiffer(a: FileTreeNode, b: FileTreeNode) {
    a.name != b.name
  }

  predicate DistinctNames(level: seq<FileTreeNode>) {
    Sorting.Pairwise(level, NamesDiffer)
  }

  /**
   * A well-formed node under directory path `prefix`: its path is `prefix`
   * plus its name, the name is one segment, files have no children and
   * directories a non-empty list of well-formed children with distinct names.
   */
  predicate NodeOk(n: FileTreeNode, prefix: string)
    decreases n
  {
    && n.path == prefix + n.name
    && '/' !in n.name
    && (n.kind == File <==> n.children.Undefined?)
    && (n.children.Kids? ==>
          && |n.children.nodes| > 0
          && DistinctNames(n.children.nodes)
          && forall i :: 0 <= i < |n.children.nodes| ==> NodeOk(n.children.nodes[i], n.path + "/"))
  }

  predicate LevelOk(level: seq<FileTreeNode>, prefix: string) {
    DistinctNames(level) && forall i :: 0 <= i < |level| ==> NodeOk(level[i], prefix)
  }

  /** Every file node's path is one of `files`, and every directory lies on the way to one of them. */
  predicate Within(n: FileTreeNode, files: set<string>)
    decreases n
  {
    && (n.kind == File ==> n.path in files)
    && (n.kind == Directory ==> exists g :: g in files && StartsWith(g, n.path + "/"))
    && (n.children.Kids? ==> forall i :: 0 <= i < |n.children.nodes| ==> Within(n.children.nodes[i], files))
  }

  predicate LevelWithin(level: seq<FileTreeNode>, files: set<string>) {
    forall i :: 0 <= i < |level| ==> Within(level[i], files)
  }

  /** Following the segments `rest` down from `level` ends at a file node whose path is `filePath`. */
  predicate HasFile(level: seq<FileTreeNode>, rest: seq<string>, filePath: string)
    decreases |rest|
  {
    && |rest| > 0
    && exists i :: 0 <= i < |level| && level[i].name == rest[0] &&
         if |rest| == 1 then level[i].kind == File && level[i].path == filePath
         else level[i].children.Kids? && HasFile(level[i].children.nodes, rest[1..], filePath)
  }

  /** No path is a directory of another (true of a listing of files). */
  predicate PrefixFree(files: set<string>) {
    forall f, g :: f in files && g in files ==> !StartsWith(f, g + "/")
  }

  lemma AppendDistinct(level: seq<FileTreeNode>, x: FileTreeNode)
    requires DistinctNames(level)
    requires forall i :: 0 <= i < |level| ==> level[i].name != x.name
    ensures DistinctNames(level + [x])
  {
    var r := level + [x];
    forall i, j | 0 <= i < |r| && 0 <= j < |r| && i != j ensures NamesDiffer(r[i], r[j]) {
      if i < |level| && j < |level| {
        assert NamesDiffer(level[i], level[j]);
      }
    }
  }

  lemma UpdateDistinct(level: seq<FileTreeNode>, idx: nat, x: FileTreeNode)
    requires DistinctNames(level) && idx < |level| && x.name == level[idx].name
    ensures DistinctNames(level[idx := x])
  {
    var r := level[idx := x];
    forall i, j | 0 <= i < |r| && 0 <= j < |r| && i != j ensures NamesDiffer(r[i], r[j]) {
      assert NamesDiffer(level[i], level[j]);
    }
  }

  /**
   * Placing a file whose path is `prefix` followed by its segments, into a
   * well-formed level, succeeds when no listed file is a directory of it or
   * has it as a directory, keeps the level well-formed and within the
   * listed files, and leaves a file node for it at the end of its segments.
   */
  lemma {:induction false} PlaceBuilds(level: seq<FileTreeNode>, prefix: string, rest: seq<string>, f: string,
                                       files: set<string>)
    requires |rest| > 0 && SeparatorFree(rest, '/') && f == prefix + Join(rest, '/')
    requires f in files && PrefixFree(files)
    requires LevelOk(level, prefix) && LevelWithin(level, files)
    ensures Place(level, prefix, rest, f).Success?
    ensures LevelOk(Place(level, prefix, rest, f).value, prefix)
    ensures LevelWithin(Place(level, prefix, rest, f).value, files)
    ensures HasFile(Place(level, prefix, rest, f).value, rest, f)
    decreases |rest|, 1
  {
    JoinNoSeparatorPrefix(rest, '/');
    if |rest| == 1 {
      PlaceLast(level, prefix, rest, f, files);
    } else {
      PlaceInner(level, prefix, rest, f, files);
    }
  }

  /** The last segment: the file node is added, or is already there. */
  lemma PlaceLast(level: seq<FileTreeNode>, prefix: string, rest: seq<string>, f: string, files: set<string>)
    requires |rest| == 1 && '/' !in rest[0] && f == prefix + rest[0]
    requires f in files && PrefixFree(files)
    requires LevelOk(level, prefix) && LevelWithin(level, files)
    ensures Place(level, prefix, rest, f).Success?
    ensures LevelOk(Place(level, prefix, rest, f).value, prefix)
    ensures LevelWithin(Place(level, prefix, rest, f).value, files)
    ensures HasFile(Place(level, prefix, rest, f).value, rest, f)
  {
    var part := rest[0];
    var k := FindByName(level, part);
    if k.Some? {
      var n := level[k.value];
      assert NodeOk(n, prefix) && Within(n, files);
      // A directory here would be a directory of a listed file, so of f.
      assert forall g :: g in files ==> !StartsWith(g, f + "/");
      assert n.kind == File;
    } else {
      var x := FileTreeNode(part, f, File, Undefined);
      AppendDistinct(level, x);
      var r := level + [x];
      assert r[|level|] == x;
    }
  }

  /** A segment with more to follow: descend into the directory node, creating it if missing. */
  lemma {:induction false} PlaceInner(level: seq<FileTreeNode>, prefix: string, rest: seq<string>, f: string,
                                      files: set<string>)
    requires |rest| > 1 && SeparatorFree(rest, '/') && f == prefix + Join(rest, '/')
    requires f in files && PrefixFree(files)
    requires LevelOk(level, prefix) && LevelWithin(level, files)
    ensures Place(level, prefix, rest, f).Success?
    ensures LevelOk(Place(level, prefix, rest, f).value, prefix)
    ensures LevelWithin(Place(level, prefix, rest, f).value, files)
    ensures HasFile(Place(level, prefix, rest, f).value, rest, f)
    decreases |rest|, 0
  {
    var part := rest[0];
    var prefix' := prefix + part + "/";
    JoinCons(part, rest[1..], '/');
    assert [part] + rest[1..] == rest;
    assert f == prefix' + Join(rest[1..], '/');
    assert SeparatorFree(rest[1..], '/') by {
      assert forall i :: 0 <= i < |rest[1..]| ==> rest[1..][i] == rest[i + 1];
    }
    assert StartsWith(f, prefix') by {
      assert f[..|prefix'|] == prefix';
    }
    DirectoryReady(level, prefix, part, f, files);
    var level1 := WithDirectory(level, prefix, part);
    var idx := DirectoryIndex(level, part);
    var kids := level1[idx].children.nodes;
    PlaceBuilds(kids, prefix', rest[1..], f, files);
    var kids' := Place(kids, prefix', rest[1..], f).value;
    assert Place(level, prefix, rest, f) == Success(level1[idx := level1[idx].(children := Kids(kids'))]);
    ReplaceChildren(level1, prefix, idx, kids', rest, f, files);
  }

  /**
   * The node a segment with more to follow descends into: an existing node
   * of that name is a directory (a file there would be a listed file that
   * is a directory of `f`), and a new one is an empty directory.
   */
  lemma DirectoryReady(level: seq<FileTreeNode>, prefix: string, part: string, f: string, files: set<string>)
    requires '/' !in part && StartsWith(f, prefix + part + "/")
    requires f in files && PrefixFree(files)
    requires LevelOk(level, prefix) && LevelWithin(level, files)
    ensures var level1 := WithDirectory(level, prefix, part);
            var idx := DirectoryIndex(level, part);
            && DistinctNames(level1)
            && (forall i :: 0 <= i < |level1| && i != idx ==> NodeOk(level1[i], prefix) && Within(level1[i], files))
            && level1[idx].kind == Directory && level1[idx].children.Kids?
            && level1[idx].path == prefix + part
            && LevelOk(level1[idx].children.nodes, prefix + part + "/")
            && LevelWithin(level1[idx].children.nodes, files)
  {
    var k := FindByName(level, part);
    if k.Some? {
      var node := level[k.value];
      assert NodeOk(node, prefix) && Within(node, files);
      assert !StartsWith(f, node.path + "/") || node.kind == Directory;
    } else {
      var node := FileTreeNode(part, prefix + part, Directory, Kids([]));
      AppendDistinct(level, node);
      assert forall i :: 0 <= i < |level| ==> (level + [node])[i] == level[i];
    }
  }

  /** Putting a directory's new children back keeps the level well-formed and reaches the file through it. */
  lemma ReplaceChildren(level: seq<FileTreeNode>, prefix: string, idx: nat, kids: seq<FileTreeNode>,
                        rest: seq<string>, f: string, files: set<string>)
    requires DistinctNames(level) && idx < |level|
    requires forall i :: 0 <= i < |level| && i != idx ==> NodeOk(level[i], prefix) && Within(level[i], files)
    requires |rest| > 1 && level[idx].name == rest[0] && '/' !in rest[0]
    requires level[idx].kind == Directory && level[idx].path == prefix + rest[0]
    requires f in files && StartsWith(f, level[idx].path + "/")
    requires LevelOk(kids, level[idx].path + "/") && LevelWithin(kids, files) && HasFile(kids, rest[1..], f)
    ensures var r := level[idx := level[idx].(children := Kids(kids))];
            LevelOk(r, prefix) && LevelWithin(r, files) && HasFile(r, rest, f)
  {
    var node := level[idx];
    var node' := node.(children := Kids(kids));
    var r := level[idx := node'];
    assert NodeOk(node', prefix);
    assert Within(node', files);
    UpdateDistinct(level, idx, node');
    assert forall i :: 0 <= i < |r| && i != idx ==> r[i] == level[i];
    assert r[idx] == node';
  }

  /** Placing a file keeps every file already reachable along its segments. */
  lemma {:induction false} PlaceKeeps(level: seq<FileTreeNode>, prefix: string, rest: seq<string>, f: string,
                                      rest2: seq<string>, g: string)
    requires |rest| > 0 && Place(level, prefix, rest, f).Success?
    requires HasFile(level, rest2, g)
    ensures HasFile(Place(level, prefix, rest, f).value, rest2, g)
    decreases |rest|
  {
    var r := Place(level, prefix, rest, f).value;
    var i :| 0 <= i < |level| && level[i].name == rest2[0] &&
             if |rest2| == 1 then level[i].kind == File && level[i].path == g
             else level[i].children.Kids? && HasFile(level[i].children.nodes, rest2[1..], g);
    if |rest| > 1 {
      var part := rest[0];
      var level1 := WithDirectory(level, prefix, part);
      var idx := DirectoryIndex(level, part);
      var node := level1[idx];
      var kids := node.children.nodes;
      var kids' := Place(kids, prefix + part + "/", rest[1..], f).value;
      assert r == level1[idx := node.(children := Kids(kids'))];
      assert level1[i] == level[i];
      if i == idx && |rest2| > 1 {
        PlaceKeeps(kids, prefix + part + "/", rest[1..], f, rest2[1..], g);
      }
      assert r[i].name == level[i].name;
    } else {
      assert r[i] == level[i];
    }
  }

  /**
   * The outer loop over a listing whose files all lie under the base
   * directory and form a prefix-free set: it does not throw, keeps the tree
   * well-formed and within the listing, keeps what was there, and gives
   * every listed file its node.
   */
  lemma {:induction false} GrowBuilds(root: seq<FileTreeNode>, files: seq<string>, basePath: string, all: set<string>)
    requires forall i :: 0 <= i < |files| ==> StartsWith(files[i], basePath + "/") && files[i] in all
    requires PrefixFree(all)
    requires LevelOk(root, basePath + "/") && LevelWithin(root, all)
    ensures Grow(root, files, basePath).Success?
    ensures LevelOk(Grow(root, files, basePath).value, basePath + "/")
    ensures LevelWithin(Grow(root, files, basePath).value, all)
    ensures forall rest, g :: HasFile(root, rest, g) ==> HasFile(Grow(root, files, basePath).value, rest, g)
    decreases |files|
  {
    if |files| > 0 {
      AddFileBuilds(root, files[0], basePath, all);
      var next := AddFile(root, files[0], basePath).value;
      var later := files[1..];
      assert forall i :: 0 <= i < |later| ==> later[i] == files[i + 1];
      GrowBuilds(next, later, basePath, all);
      assert Grow(root, files, basePath) == Grow(next, later, basePath);
    }
  }

  /** After the outer loop every listed file has its node. */
  lemma {:induction false} GrowHasAll(root: seq<FileTreeNode>, files: seq<string>, basePath: string, all: set<string>)
    requires forall i :: 0 <= i < |files| ==> StartsWith(files[i], basePath + "/") && files[i] in all
    requires PrefixFree(all)
    requires LevelOk(root, basePath + "/") && LevelWithin(root, all)
    ensures Grow(root, files, basePath).Success?
    ensures forall i :: 0 <= i < |files| ==> HasFile(Grow(root, files, basePath).value, Parts(files[i], basePath), files[i])
    decreases |files|
  {
    GrowBuilds(root, files, basePath, all);
    if |files| > 0 {
      AddFileBuilds(root, files[0], basePath, all);
      var next := AddFile(root, files[0], basePath).value;
      var later := files[1..];
      assert forall i :: 0 <= i < |later| ==> later[i] == files[i + 1];
      GrowBuilds(next, later, basePath, all);
      GrowHasAll(next, later, basePath, all);
      var t := Grow(root, files, basePath).value;
      assert Grow(root, files, basePath) == Grow(next, later, basePath);
      forall i | 0 <= i < |files| ensures HasFile(t, Parts(files[i], basePath), files[i]) {
        if i > 0 {
          assert files[i] == later[i - 1];
        }
      }
    }
  }

  /** One file of the listing: it is placed, the tree stays well-formed, and what was reachable stays so. */
  lemma AddFileBuilds(root: seq<FileTreeNode>, f: string, basePath: string, all: set<string>)
    requires StartsWith(f, basePath + "/") && f in all && PrefixFree(all)
    requires LevelOk(root, basePath + "/") && LevelWithin(root, all)
    ensures AddFile(root, f, basePath).Success?
    ensures LevelOk(AddFile(root, f, basePath).value, basePath + "/")
    ensures LevelWithin(AddFile(root, f, basePath).value, all)
    ensures HasFile(AddFile(root, f, basePath).value, Parts(f, basePath), f)
    ensures forall rest, g :: HasFile(root, rest, g) ==> HasFile(AddFile(root, f, basePath).value, rest, g)
  {
    var rel := f[|basePath| + 1..];
    assert Relative(f, basePath) == rel && DirBase(f, basePath) == basePath + "/";
    assert f == basePath + "/" + rel by {
      assert f[..|basePath| + 1] == basePath + "/";
    }
    JoinSplit(rel, '/');
    SplitParts(rel, '/');
    PlaceBuilds(root, basePath + "/", Parts(f, basePath), f, all);
    forall rest, g | HasFile(root, rest, g) ensures HasFile(AddFile(root, f, basePath).value, rest, g) {
      PlaceKeeps(root, basePath + "/", Parts(f, basePath), f, rest, g);
    }
  }

  // Sorting keeps the tree's shape.

  lemma SortNodeOk(n: FileTreeNode, prefix: string)
    requires NodeOk(n, prefix)
    ensures NodeOk(SortNode(n), prefix)
    decreases n
  {
    if n.children.Kids? {
      var kids := n.children.nodes;
      forall k | 0 <= k < |kids| ensures NodeOk(SortNode(kids[k]), n.path + "/") {
        SortNodeOk(kids[k], n.path + "/");
      }
      SortTreeDistinct(kids);
      SortTreeForall(kids, (x: FileTreeNode) => NodeOk(x, n.path + "/"));
      SortNodeChildren(n);
    }
  }

  lemma SortNodeWithin(n: FileTreeNode, files: set<string>)
    requires Within(n, files)
    ensures Within(SortNode(n), files)
    decreases n
  {
    if n.children.Kids? {
      var kids := n.children.nodes;
      forall i | 0 <= i < |kids| ensures Within(SortNode(kids[i]), files) {
        SortNodeWithin(kids[i], files);
      }
      SortTreeForall(kids, (x: FileTreeNode) => Within(x, files));
      SortNodeChildren(n);
    }
  }

  /** Every level below a node is in `NodeLe` order. */
  predicate DeepSorted(n: FileTreeNode)
    decreases n
  {
    n.children.Kids? ==>
      && Sorting.Sorted(n.children.nodes, NodeLe)
      && forall i :: 0 <= i < |n.children.nodes| ==> DeepSorted(n.children.nodes[i])
  }

  predicate LevelSorted(level: seq<FileTreeNode>) {
    Sorting.Sorted(level, NodeLe) && forall i :: 0 <= i < |level| ==> DeepSorted(level[i])
  }

  lemma SortNodeSorted(n: FileTreeNode)
    ensures DeepSorted(SortNode(n))
    decreases n
  {
    if n.children.Kids? {
      var kids := n.children.nodes;
      forall i | 0 <= i < |kids| ensures DeepSorted(SortNode(kids[i])) {
        SortNodeSorted(kids[i]);
      }
      NodeLeTotal();
      Sorting.SortSorted(seq(|kids|, i requires 0 <= i < |kids| => SortNode(kids[i])), NodeLe);
      SortTreeForall(kids, DeepSorted);
      SortNodeChildren(n);
    }
  }

  /**
   * `sortTree` puts every level in order (directories before files, names
   * ascending within each kind) and changes nothing but order: each level
   * holds the same nodes, each sorted below.
   */
  lemma SortTreeSpec(level: seq<FileTreeNode>)
    ensures LevelSorted(SortTree(level))
    ensures forall i, j :: 0 <= i < j < |SortTree(level)| ==>
              var a, b := SortTree(level)[i], SortTree(level)[j];
              (b.kind == Directory ==> a.kind == Directory) && (a.kind == b.kind ==> LexLe(a.name, b.name))
    ensures multiset(SortTree(level)) == multiset(seq(|level|, i requires 0 <= i < |level| => SortNode(level[i])))
  {
    var r := SortTree(level);
    SortTreeSorted(level);
    forall i, j | 0 <= i < j < |r|
      ensures (r[j].kind == Directory ==> r[i].kind == Directory) && (r[i].kind == r[j].kind ==> LexLe(r[i].name, r[j].name))
    {
      assert NodeLe(r[i], r[j]);
    }
    Sorting.SortMultiset(seq(|level|, i requires 0 <= i < |level| => SortNode(level[i])), NodeLe);
  }

  lemma SortTreeSorted(level: seq<FileTreeNode>)
    ensures LevelSorted(SortTree(level))
  {
    var mapped := seq(|level|, i requires 0 <= i < |level| => SortNode(level[i]));
    NodeLeTotal();
    Sorting.SortSorted(mapped, NodeLe);
    forall k | 0 <= k < |level| ensures DeepSorted(SortNode(level[k])) {
      SortNodeSorted(level[k]);
    }
    SortTreeForall(level, DeepSorted);
  }

  lemma SortTreeOk(level: seq<FileTreeNode>, prefix: string, files: set<string>)
    requires LevelOk(level, prefix) && LevelWithin(level, files)
    ensures LevelOk(SortTree(level), prefix) && LevelWithin(SortTree(level), files)
  {
    forall k | 0 <= k < |level| ensures NodeOk(SortNode(level[k]), prefix) && Within(SortNode(level[k]), files) {
      SortNodeOk(level[k], prefix);
      SortNodeWithin(level[k], files);
    }
    SortTreeDistinct(level);
    SortTreeForall(level, (x: FileTreeNode) => NodeOk(x, prefix) && Within(x, files));
  }

  lemma SortTreeDistinct(level: seq<FileTreeNode>)
    requires DistinctNames(level)
    ensures DistinctNames(SortTree(level))
  {
    var mapped := seq(|level|, i requires 0 <= i < |level| => SortNode(level[i]));
    forall i, j | 0 <= i < |mapped| && 0 <= j < |mapped| && i != j ensures NamesDiffer(mapped[i], mapped[j]) {
      assert NamesDiffer(level[i], level[j]);
    }
    Sorting.SortPairwise(mapped, NodeLe, NamesDiffer);
  }

  lemma {:induction false} SortTreeHasFile(level: seq<FileTreeNode>, rest: seq<string>, f: string)
    requires HasFile(level, rest, f)
    ensures HasFile(SortTree(level), rest, f)
    decreases |rest|, 1
  {
    var i :| 0 <= i < |level| && level[i].name == rest[0] &&
             if |rest| == 1 then level[i].kind == File && level[i].path == f
             else level[i].children.Kids? && HasFile(level[i].children.nodes, rest[1..], f);
    var n := level[i];
    if |rest| > 1 {
      SortNodeHasFile(n, rest[1..], f);
    }
    SortNodeIn(level, i);
    HasFileVia(SortTree(level), SortNode(n), rest, f);
  }

  lemma SortNodeIn(level: seq<FileTreeNode>, i: nat)
    requires i < |level|
    ensures SortNode(level[i]) in SortTree(level)
  {
    var mapped := seq(|level|, k requires 0 <= k < |level| => SortNode(level[k]));
    Sorting.SortMultiset(mapped, NodeLe);
    assert mapped[i] in multiset(mapped);
  }

  lemma {:induction false} SortNodeHasFile(n: FileTreeNode, rest: seq<string>, f: string)
    requires n.children.Kids? && HasFile(n.children.nodes, rest, f)
    ensures SortNode(n).children.Kids? && HasFile(SortNode(n).children.nodes, rest, f)
    decreases |rest| + 1, 0
  {
    SortNodeChildren(n);
    SortTreeHasFile(n.children.nodes, rest, f);
  }

  lemma HasFileVia(level: seq<FileTreeNode>, x: FileTreeNode, rest: seq<string>, f: string)
    requires x in level && |rest| > 0 && x.name == rest[0]
    requires if |rest| == 1 then x.kind == File && x.path == f
             else x.children.Kids? && HasFile(x.children.nodes, rest[1..], f)
    ensures HasFile(level, rest, f)
  {
    var i :| 0 <= i < |level| && level[i] == x;
  }

  /** `buildTree`: the files added in order, then the tree sorted; a throw ends it. */
  function TreeOf(files: seq<string>, basePath: string): Result<seq<FileTreeNode>, Error> {
    var root :- Grow([], files, basePath);
    Success(SortTree(root))
  }

  /** `buildTree` with its outer loop. */
  method BuildTree(files: seq<string>, basePath: string) returns (r: Result<seq<FileTreeNode>, Error>)
    ensures r == TreeOf(files, basePath)
  {
    var root: seq<FileTreeNode> := [];
    var i := 0;
    while i < |files|
      invariant 0 <= i <= |files|
      invariant Grow(root, files[i..], basePath) == Grow([], files, basePath)
    {
      assert files[i..][1..] == files[i + 1..];
      var added := AddFile(root, files[i], basePath);
      if added.Failure? {
        return Failure(added.error);
      }
      root := added.value;
      i := i + 1;
    }
    return Success(SortTree(root));
  }

  /**
   * For a listing of files under the base directory of which none is a
   * directory of another, `buildTree` does not throw and yields a tree in
   * which every listed file has its file node at the place its segments
   * name, every file node is a listed file, every directory is shared by
   * the files below it (one node per accumulated path, distinct names per
   * level, each node's path its directory path plus its name), and every
   * level is sorted.
   */
  lemma TreeOfSpec(files: seq<string>, basePath: string)
    requires forall i :: 0 <= i < |files| ==> StartsWith(files[i], basePath + "/")
    requires PrefixFree(set f | f in files)
    ensures TreeOf(files, basePath).Success?
    ensures LevelOk(TreeOf(files, basePath).value, basePath + "/")
    ensures LevelWithin(TreeOf(files, basePath).value, set f | f in files)
    ensures forall i :: 0 <= i < |files| ==> HasFile(TreeOf(files, basePath).value, Parts(files[i], basePath), files[i])
    ensures LevelSorted(TreeOf(files, basePath).value)
  {
    var all := set f | f in files;
    GrowBuilds([], files, basePath, all);
    GrowHasAll([], files, basePath, all);
    var root := Grow([], files, basePath).value;
    SortTreeOk(root, basePath + "/", all);
    forall i | 0 <= i < |files| ensures HasFile(SortTree(root), Parts(files[i], basePath), files[i]) {
      SortTreeHasFile(root, Parts(files[i], basePath), files[i]);
    }
    SortTreeSpec(root);
  }

  /** A node found at the end of a file's segments is the only node with that name on its level. */
  lemma HasFileUnique(level: seq<FileTreeNode>, prefix: string, rest: seq<string>, f: string)
    requires LevelOk(level, prefix) && HasFile(level, rest, f)
    ensures exists i :: 0 <= i < |level| && level[i].name == rest[0]
                        && forall j :: 0 <= j < |level| && j != i ==> level[j].name != rest[0]
  {
    var i :| 0 <= i < |level| && level[i].name == rest[0];
    forall j | 0 <= j < |level| && j != i ensures level[j].name != rest[0] {
      assert NamesDiffer(level[i], level[j]);
    }
  }

  /** The paths of the file nodes in a level and below, with multiplicity. */
  function FilePaths(level: seq<FileTreeNode>): multiset<string>
    decreases level
  {
    if |level| == 0 then multiset{}
    else NodePaths(level[0]) + FilePaths(level[1..])
  }

  /** The paths of the file nodes at and below a node, with multiplicity. */
  function NodePaths(n: FileTreeNode): multiset<string>
    decreases n
  {
    (if n.kind == File then multiset{n.path} else multiset{})
      + match n.children
        case Undefined => multiset{}
        case Kids(kids) => FilePaths(kids)
  }

  /** Path `f` is directory path `d` itself or lies below it. */
  predicate Under(f: string, d: string) {
    StartsWith(f + "/", d + "/")
  }

  /** No path lies under two siblings: their names differ and hold no "/". */
  lemma SiblingsDisjoint(f: string, prefix: string, a: string, b: string)
    requires '/' !in a && '/' !in b && a != b
    requires Under(f, prefix + a)
    ensures !Under(f, prefix + b)
  {
    var x, y := prefix + a + "/", prefix + b + "/";
    var g := f + "/";
    assert g[..|x|] == x;
    if |y| <= |g| {
      var m: nat;
      if |a| == |b| {
        var k :| 0 <= k < |a| && a[k] != b[k];
        m := |prefix| + k;
        assert g[m] == x[m] == a[k];
      } else if |a| < |b| {
        m := |prefix| + |a|;
        assert g[m] == x[m] == '/';
      } else {
        m := |prefix| + |b|;
        assert g[m] == x[m] == a[|b|];
      }
      assert g[..|y|][m] != y[m];
    }
  }

  /** What lies under a child of `d` lies under `d`. */
  lemma UnderChild(f: string, d: string, name: string)
    requires Under(f, d + "/" + name)
    ensures Under(f, d)
  {
    var g := f + "/";
    assert g[..|d + "/" + name + "/"|] == d + "/" + name + "/";
    assert (d + "/" + name + "/")[..|d| + 1] == d + "/";
  }

  /** In a well-formed node, every file path lies under the node's path and occurs once. */
  lemma {:induction false} NodePathsUnique(n: FileTreeNode, prefix: string)
    requires NodeOk(n, prefix)
    ensures forall f :: f in NodePaths(n) ==> Under(f, n.path)
    ensures forall f :: NodePaths(n)[f] <= 1
    decreases n
  {
    if n.kind == File {
      assert (n.path + "/")[..|n.path + "/"|] == n.path + "/";
    } else {
      var kids := n.children.nodes;
      LevelPathsUnique(kids, n.path + "/");
      assert NodePaths(n) == FilePaths(kids);
      forall f | f in NodePaths(n) ensures Under(f, n.path) {
        var i :| 0 <= i < |kids| && Under(f, kids[i].path);
        UnderChild(f, n.path, kids[i].name);
      }
    }
  }

  /** In a well-formed level, every file path lies under one of its nodes and occurs once. */
  lemma {:induction false} LevelPathsUnique(level: seq<FileTreeNode>, prefix: string)
    requires LevelOk(level, prefix)
    ensures forall f :: f in FilePaths(level) ==> exists i :: 0 <= i < |level| && Under(f, level[i].path)
    ensures forall f :: FilePaths(level)[f] <= 1
    decreases level
  {
    if |level| > 0 {
      var tail := level[1..];
      forall i, j | 0 <= i < |tail| && 0 <= j < |tail| && i != j ensures NamesDiffer(tail[i], tail[j]) {
        assert NamesDiffer(level[i + 1], level[j + 1]);
      }
      NodePathsUnique(level[0], prefix);
      LevelPathsUnique(tail, prefix);
      forall f ensures FilePaths(level)[f] <= 1 {
        if f in NodePaths(level[0]) {
          forall j | 0 <= j < |tail| ensures !Under(f, tail[j].path) {
            assert NamesDiffer(level[0], level[j + 1]);
            SiblingsDisjoint(f, prefix, level[0].name, tail[j].name);
          }
        }
      }
      forall f | f in FilePaths(level) ensures exists i :: 0 <= i < |level| && Under(f, level[i].path) {
        if f !in NodePaths(level[0]) {
          var j :| 0 <= j < |tail| && Under(f, tail[j].path);
          assert Under(f, level[j + 1].path);
        }
      }
    }
  }

  /** A node's file paths are among its level's. */
  lemma {:induction false} NodePathsInLevel(level: seq<FileTreeNode>, i: nat)
    requires i < |level|
    ensures NodePaths(level[i]) <= FilePaths(level)
    decreases i
  {
    if i > 0 {
      NodePathsInLevel(level[1..], i - 1);
    }
  }

  /** A file reached along its segments is among the level's file paths. */
  lemma {:induction false} HasFilePaths(level: seq<FileTreeNode>, rest: seq<string>, f: string)
    requires HasFile(level, rest, f)
    ensures f in FilePaths(level)
    decreases |rest|
  {
    var i :| 0 <= i < |level| && level[i].name == rest[0] &&
             if |rest| == 1 then level[i].kind == File && level[i].path == f
             else level[i].children.Kids? && HasFile(level[i].children.nodes, rest[1..], f);
    NodePathsInLevel(level, i);
    if |rest| > 1 {
      HasFilePaths(level[i].children.nodes, rest[1..], f);
    }
  }

  /** Every file path of a level within `files` is one of `files`. */
  lemma {:induction false} LevelPathsWithin(level: seq<FileTreeNode>, files: set<string>)
    requires LevelWithin(level, files)
    ensures forall f :: f in FilePaths(level) ==> f in files
    decreases level
  {
    if |level| > 0 {
      NodePathsWithin(level[0], files);
      LevelPathsWithin(level[1..], files);
    }
  }

  lemma {:induction false} NodePathsWithin(n: FileTreeNode, files: set<string>)
    requires Within(n, files)
    ensures forall f :: f in NodePaths(n) ==> f in files
    decreases n
  {
    if n.children.Kids? {
      LevelPathsWithin(n.children.nodes, files);
    }
  }

  /**
   * The built tree's file nodes carry exactly the listed paths, each one
   * once: no listed file is missing, none is doubled, nothing else appears.
   */
  lemma TreeOfFiles(files: seq<string>, basePath: string)
    requires forall i :: 0 <= i < |files| ==> StartsWith(files[i], basePath + "/")
    requires PrefixFree(set f | f in files)
    ensures TreeOf(files, basePath).Success?
    ensures FilePaths(TreeOf(files, basePath).value) == multiset(set f | f in files)
  {
    var all := set f | f in files;
    TreeOfSpec(files, basePath);
    var t := TreeOf(files, basePath).value;
    LevelPathsUnique(t, basePath + "/");
    LevelPathsWithin(t, all);
    forall f ensures FilePaths(t)[f] == multiset(all)[f] {
      if f in all {
        var i :| 0 <= i < |files| && files[i] == f;
        HasFilePaths(t, Parts(files[i], basePath), files[i]);
      }
    }
  }

  /**
   * `getTreeAtPath` on the output of `git ls-tree -r --name-only` (or the
   * error it threw): a blank listing or any throw gives the empty tree.
   */
  method GetTreeAtPath(listing: Result<string, Error>, treePath: string) returns (tree: seq<FileTreeNode>)
    ensures listing.Failure? ==> tree == []
    ensures listing.Success? && AllWhitespace(listing.value) ==> tree == []
    ensures listing.Success? && !AllWhitespace(listing.value) ==>
              tree == match TreeOf(Split(Trim(listing.value), '\n'), treePath)
                      case Success(t) => t
                      case Failure(_) => []
  {
    if listing.Failure? {
      return [];
    }
    TrimSpec(listing.value);
    if Trim(listing.value) == "" {
      return [];
    }
    var files := Split(Trim(listing.value), '\n');
    var built := BuildTree(files, treePath);
    tree := if built.Success? then built.value else [];
  }
}
