/**
 * The documentation sidebar: which directory nodes start out expanded (the
 * ancestors of the active file), the expand/collapse toggle, and the link a
 * file node navigates to.
 */
module DocsSidebar {
  import opened Wrappers
  import opened Strings
  import opened GitService
  import Uri

  /**
   * `isAncestorOf`: the active path starts with the node's path (character
   * by character) and some child either has the active path or is itself an
   * ancestor of it. A node without a children list (a file) is no ancestor.
   */
  function IsAncestorOf(node: FileTreeNode, activePath: string): (r: bool)
    ensures r ==> StartsWith(activePath, node.path) && node.children.Kids?
    decreases node
  {
    && StartsWith(activePath, node.path)
    && node.children.Kids?
    && exists i :: 0 <= i < |node.children.nodes| &&
         (node.children.nodes[i].path == activePath || IsAncestorOf(node.children.nodes[i], activePath))
  }

  /** Some node strictly below `node` has path `p`. */
  predicate Below(node: FileTreeNode, p: string)
    decreases node
  {
    node.children.Kids? &&
    exists i :: 0 <= i < |node.children.nodes| &&
      (node.children.nodes[i].path == p || Below(node.children.nodes[i], p))
  }

  /** In a well-formed tree every path below a node extends the node's path and a "/". */
  lemma BelowExtends(node: FileTreeNode, prefix: string, p: string)
    requires NodeOk(node, prefix) && Below(node, p)
    ensures StartsWith(p, node.path + "/")
    decreases node
  {
    var kids := node.children.nodes;
    var i :| 0 <= i < |kids| && (kids[i].path == p || Below(kids[i], p));
    var c := kids[i];
    assert NodeOk(c, node.path + "/");
    assert c.path[..|node.path + "/"|] == node.path + "/";
    if c.path != p {
      BelowExtends(c, node.path + "/", p);
      assert p[..|c.path + "/"|] == c.path + "/";
      assert p[..|node.path + "/"|] == (c.path + "/")[..|node.path + "/"|];
    }
  }

  /** The prefix test only prunes: in any tree, an ancestor has the path below it. */
  lemma AncestorIsBelow(node: FileTreeNode, p: string)
    requires IsAncestorOf(node, p)
    ensures Below(node, p)
    decreases node
  {
    var kids := node.children.nodes;
    var i :| 0 <= i < |kids| && (kids[i].path == p || IsAncestorOf(kids[i], p));
    if kids[i].path != p {
      AncestorIsBelow(kids[i], p);
    }
  }

  /**
   * In a tree built from a listing, a node is an ancestor of the active path
   * exactly when some node strictly below it has that path; in particular a
   * node is never an ancestor of its own path.
   */
  lemma AncestorIffBelow(node: FileTreeNode, prefix: string, p: string)
    requires NodeOk(node, prefix)
    ensures IsAncestorOf(node, p) <==> Below(node, p)
    ensures !IsAncestorOf(node, node.path)
  {
    if IsAncestorOf(node, p) {
      AncestorIsBelow(node, p);
    }
    if Below(node, p) {
      BelowIsAncestor(node, prefix, p);
    }
    NotOwnAncestor(node, prefix);
  }

  /** In a well-formed tree the prefix test never prunes a path that lies below. */
  lemma BelowIsAncestor(node: FileTreeNode, prefix: string, p: string)
    requires NodeOk(node, prefix) && Below(node, p)
    ensures IsAncestorOf(node, p)
    decreases node
  {
    var kids := node.children.nodes;
    var i :| 0 <= i < |kids| && (kids[i].path == p || Below(kids[i], p));
    BelowExtends(node, prefix, p);
    assert StartsWith(p, node.path) by {
      assert p[..|node.path|] == (node.path + "/")[..|node.path|];
    }
    if kids[i].path != p {
      assert NodeOk(kids[i], node.path + "/");
      BelowIsAncestor(kids[i], node.path + "/", p);
    }
  }

  /** A node is not an ancestor of its own path: everything below it is longer. */
  lemma NotOwnAncestor(node: FileTreeNode, prefix: string)
    requires NodeOk(node, prefix)
    ensures !IsAncestorOf(node, node.path)
  {
    if IsAncestorOf(node, node.path) {
      AncestorIsBelow(node, node.path);
      BelowExtends(node, prefix, node.path);
      assert false;
    }
  }

  /** A node's initial `open` state: with an active path, whether it is an ancestor; otherwise only top-level nodes. */
  function InitiallyOpen(node: FileTreeNode, activePath: Option<string>, depth: nat): (r: bool)
    ensures activePath.Some? && activePath.value != "" ==> (r <==> IsAncestorOf(node, activePath.value))
    ensures (activePath.None? || activePath.value == "") ==> (r <==> depth == 0)
  {
    if activePath.Some? && activePath.value != "" then IsAncestorOf(node, activePath.value) else depth == 0
  }

  /** A directory node of the sidebar with its expanded state. */
  class TreeNodeView {
    const node: FileTreeNode
    var open: bool

    constructor(node: FileTreeNode, activePath: Option<string>, depth: nat)
      ensures this.node == node && open == InitiallyOpen(node, activePath, depth)
    {
      this.node := node;
      open := InitiallyOpen(node, activePath, depth);
    }

    /** A click on the directory's row. */
    method Toggle()
      modifies this
      ensures open == !old(open)
    {
      open := !open;
    }
  }

  /** The link of a file node: encoded repository and branch, then each path segment encoded on its own. */
  function FileHref(repo: string, branch: string, path: string): string {
    var segs := Split(path, '/');
    "/docs/" + Uri.EncodeURIComponent(repo) + "/" + Uri.EncodeURIComponent(branch) + "/"
      + Join(seq(|segs|, i requires 0 <= i < |segs| => Uri.EncodeURIComponent(segs[i])), '/')
  }

  /**
   * The link splits, at "/", into the route prefix, the encoded repository
   * and branch, and one encoded segment per segment of the file's path; each
   * decodes back, and the decoded segments join to the path again.
   */
  lemma FileHrefRoundTrip(repo: string, branch: string, path: string)
    ensures var segs := Split(FileHref(repo, branch, path), '/');
            && |segs| == 4 + |Split(path, '/')|
            && segs[..4] == ["", "docs", Uri.EncodeURIComponent(repo), Uri.EncodeURIComponent(branch)]
            && Uri.DecodeURIComponent(segs[2]) == Some(repo)
            && Uri.DecodeURIComponent(segs[3]) == Some(branch)
            && Uri.DecodeSegments(segs[4..]) == Some(Split(path, '/'))
            && Join(Uri.DecodeSegments(segs[4..]).value, '/') == path
  {
    var parts := Split(path, '/');
    var enc := seq(|parts|, i requires 0 <= i < |parts| => Uri.EncodeURIComponent(parts[i]));
    var e1, e2 := Uri.EncodeURIComponent(repo), Uri.EncodeURIComponent(branch);
    Uri.EncodeChars(repo);
    Uri.EncodeChars(branch);
    Uri.EncodeDecodeRoundTrip(repo);
    Uri.EncodeDecodeRoundTrip(branch);
    forall i | 0 <= i < |parts| ensures '/' !in enc[i] {
      Uri.EncodeChars(parts[i]);
    }
    SplitJoin(enc, '/');
    var tail := Join(enc, '/');
    HrefNested(e1, e2, tail);
    SplitHref(e1, e2, tail);
    HrefList(e1, e2, Split(tail, '/'));
    Uri.DecodeEncodedSegments(parts);
    JoinSplit(path, '/');
  }

  lemma HrefNested(e1: string, e2: string, t: string)
    ensures "/docs/" + e1 + "/" + e2 + "/" + t == "" + "/" + ("docs" + "/" + (e1 + "/" + (e2 + "/" + t)))
  {
  }

  lemma SplitHref(e1: string, e2: string, t: string)
    requires '/' !in e1 && '/' !in e2
    ensures Split("" + "/" + ("docs" + "/" + (e1 + "/" + (e2 + "/" + t))), '/')
         == [""] + (["docs"] + ([e1] + ([e2] + Split(t, '/'))))
  {
    var t3 := e2 + "/" + t;
    var t2 := e1 + "/" + t3;
    var t1 := "docs" + "/" + t2;
    SplitCons("", '/', t1);
    SplitCons("docs", '/', t2);
    SplitCons(e1, '/', t3);
    SplitCons(e2, '/', t);
  }

  lemma HrefList(e1: string, e2: string, t: seq<string>)
    ensures [""] + (["docs"] + ([e1] + ([e2] + t))) == ["", "docs", e1, e2] + t
  {
  }
}
