/**
 * The two rules the Markdown renderer adds to markdown-it: the rewrite of a
 * relative image `src` into a URL of the repository assets API, resolved
 * against the rendered file's directory, and the `highlight` hook that turns
 * a "mermaid" code block into a placeholder carrying the encoded diagram
 * and falls back to an escaped plain block when no highlighting applies.
 */
module Markdown {
  import opened Wrappers
  import opened Strings
  import Uri
  import Html

  /** The render environment: the repository, branch and path of the file being rendered. */
  datatype RenderEnv = RenderEnv(repoName: Option<string>, branch: Option<string>, filePath: Option<string>)

  /** Sources that are left alone: absolute http(s) URLs and root-relative paths. */
  predicate IsExternal(src: string) {
    StartsWith(src, "http://") || StartsWith(src, "https://") || StartsWith(src, "/")
  }

  /** `filePath.split("/").slice(0, -1).join("/")`, or "" without a file path. */
  function FileDir(filePath: Option<string>): string {
    if !Truthy(filePath) then ""
    else
      var parts := Split(filePath.value, '/');
      Join(parts[..|parts| - 1], '/')
  }

  /** The image path relative to the repository: the file's directory, "/", then `src`; `src` alone at the root. */
  function ResolvedPath(filePath: Option<string>, src: string): string {
    var dir := FileDir(filePath);
    if dir != "" then dir + "/" + src else src
  }

  /** The assets API URL; repository and branch are percent-encoded, the path is not. */
  function AssetUrl(repoName: string, branch: string, resolvedPath: string): string {
    "/api/repos/" + Uri.EncodeURIComponent(repoName) + "/" + Uri.EncodeURIComponent(branch) + "/assets/" + resolvedPath
  }

  /** The new value of an image's `src`. */
  function RewriteSrc(src: string, env: RenderEnv): (r: string)
    ensures IsExternal(src) ==> r == src
    ensures !Truthy(env.repoName) || !Truthy(env.branch) ==> r == src
    ensures !IsExternal(src) && Truthy(env.repoName) && Truthy(env.branch) ==>
              r == AssetUrl(env.repoName.value, env.branch.value, ResolvedPath(env.filePath, src))
  {
    if IsExternal(src) || !Truthy(env.repoName) || !Truthy(env.branch) then src
    else AssetUrl(env.repoName.value, env.branch.value, ResolvedPath(env.filePath, src))
  }

  /**
   * A file path made of directory segments and a file name resolves an
   * image source against those directory segments, with "." and ".." kept
   * as they are; a file at the root (or no file) leaves the source as it is.
   */
  lemma ResolvedPathSpec(dirs: seq<string>, name: string, src: string)
    requires SeparatorFree(dirs + [name], '/')
    ensures |dirs| == 0 ==> ResolvedPath(Some(name), src) == src
    ensures |dirs| > 0 && Join(dirs, '/') != "" ==>
              ResolvedPath(Some(Join(dirs + [name], '/')), src) == Join(dirs + [src], '/')
    ensures ResolvedPath(None, src) == src
  {
    var parts := dirs + [name];
    SplitJoin(parts, '/');
    assert parts[..|parts| - 1] == dirs;
    if |dirs| == 0 {
      assert Join(parts, '/') == name;
      assert Join(dirs, '/') == "";
    } else {
      JoinAppend(dirs, src, '/');
    }
  }

  /**
   * The rewritten URL splits, at "/", into the route prefix, the encoded
   * repository and branch (which decode back to the originals and hold no
   * "/"), "assets", and the segments of the resolved path.
   */
  lemma AssetUrlSegments(repoName: string, branch: string, resolvedPath: string)
    ensures Split(AssetUrl(repoName, branch, resolvedPath), '/') ==
              ["", "api", "repos", Uri.EncodeURIComponent(repoName), Uri.EncodeURIComponent(branch), "assets"]
              + Split(resolvedPath, '/')
    ensures Uri.DecodeURIComponent(Uri.EncodeURIComponent(repoName)) == Some(repoName)
    ensures Uri.DecodeURIComponent(Uri.EncodeURIComponent(branch)) == Some(branch)
  {
    var e1, e2 := Uri.EncodeURIComponent(repoName), Uri.EncodeURIComponent(branch);
    Uri.EncodeChars(repoName);
    Uri.EncodeChars(branch);
    Uri.EncodeDecodeRoundTrip(repoName);
    Uri.EncodeDecodeRoundTrip(branch);
    AssetUrlNested(e1, e2, resolvedPath);
    SplitNested(e1, e2, resolvedPath);
    NestedList(e1, e2, Split(resolvedPath, '/'));
  }

  lemma AssetUrlNested(e1: string, e2: string, p: string)
    ensures "/api/repos/" + e1 + "/" + e2 + "/assets/" + p
         == "" + "/" + ("api" + "/" + ("repos" + "/" + (e1 + "/" + (e2 + "/" + ("assets" + "/" + p)))))
  {
  }

  lemma SplitNested(e1: string, e2: string, p: string)
    requires '/' !in e1 && '/' !in e2
    ensures Split("" + "/" + ("api" + "/" + ("repos" + "/" + (e1 + "/" + (e2 + "/" + ("assets" + "/" + p))))), '/')
         == [""] + (["api"] + (["repos"] + ([e1] + ([e2] + (["assets"] + Split(p, '/'))))))
  {
    var t3 := e1 + "/" + (e2 + "/" + ("assets" + "/" + p));
    SplitRoute(t3);
    SplitEncoded(e1, e2, p);
  }

  lemma SplitRoute(t: string)
    ensures Split("" + "/" + ("api" + "/" + ("repos" + "/" + t)), '/') == [""] + (["api"] + (["repos"] + Split(t, '/')))
  {
    var t2 := "repos" + "/" + t;
    var t1 := "api" + "/" + t2;
    SplitCons("", '/', t1);
    SplitCons("api", '/', t2);
    SplitCons("repos", '/', t);
  }

  lemma SplitEncoded(e1: string, e2: string, p: string)
    requires '/' !in e1 && '/' !in e2
    ensures Split(e1 + "/" + (e2 + "/" + ("assets" + "/" + p)), '/') == [e1] + ([e2] + (["assets"] + Split(p, '/')))
  {
    var t5 := "assets" + "/" + p;
    var t4 := e2 + "/" + t5;
    SplitCons(e1, '/', t4);
    SplitCons(e2, '/', t5);
    SplitCons("assets", '/', p);
  }

  lemma NestedList(e1: string, e2: string, t: seq<string>)
    ensures [""] + (["api"] + (["repos"] + ([e1] + ([e2] + (["assets"] + t)))))
         == ["", "api", "repos", e1, e2, "assets"] + t
  {
  }

  /** Index of the first attribute with that name (markdown-it's `attrIndex`). */
  function AttrIndex(attrs: seq<(string, string)>, name: string): (r: Option<nat>)
    ensures r.None? <==> forall i :: 0 <= i < |attrs| ==> attrs[i].0 != name
    ensures r.Some? ==> r.value < |attrs| && attrs[r.value].0 == name
                        && forall j :: 0 <= j < r.value ==> attrs[j].0 != name
  {
    if |attrs| == 0 then None
    else if attrs[0].0 == name then Some(0)
    else
      match AttrIndex(attrs[1..], name)
      case None => None
      case Some(k) => Some(k + 1)
  }

  /** An image token; its attribute list is updated in place by the image rule. */
  class ImageToken {
    var attrs: seq<(string, string)>

    constructor(attrs: seq<(string, string)>)
      ensures this.attrs == attrs
    {
      this.attrs := attrs;
    }

    /**
     * The image rule: the value of the first `src` attribute is rewritten;
     * a token without one is not modified.
     */
    method RewriteImage(env: RenderEnv)
      modifies this
      ensures AttrIndex(old(attrs), "src").None? ==> attrs == old(attrs)
      ensures AttrIndex(old(attrs), "src").Some? ==>
                var i := AttrIndex(old(attrs), "src").value;
                attrs == old(attrs)[i := ("src", RewriteSrc(old(attrs)[i].1, env))]
    {
      var srcIndex := AttrIndex(attrs, "src");
      if srcIndex.Some? {
        var i := srcIndex.value;
        attrs := attrs[i := ("src", RewriteSrc(attrs[i].1, env))];
      }
    }
  }

  /**
   * After the image rule, only the first `src` can have changed, and it
   * holds the source itself or an assets URL ending in the resolved path.
   */
  lemma RewriteOnlySrc(attrs: seq<(string, string)>, env: RenderEnv, i: nat)
    requires AttrIndex(attrs, "src").Some? && i == AttrIndex(attrs, "src").value
    ensures var src := attrs[i].1;
            var r := RewriteSrc(src, env);
            r == src || (StartsWith(r, "/api/repos/") && EndsWith(r, ResolvedPath(env.filePath, src)))
  {
    var src := attrs[i].1;
    if !IsExternal(src) && Truthy(env.repoName) && Truthy(env.branch) {
      AssetUrlEnds(env.repoName.value, env.branch.value, ResolvedPath(env.filePath, src));
    }
  }

  lemma AssetUrlEnds(repoName: string, branch: string, p: string)
    ensures StartsWith(AssetUrl(repoName, branch, p), "/api/repos/") && EndsWith(AssetUrl(repoName, branch, p), p)
  {
    var a := "/api/repos/";
    var x1 := a + Uri.EncodeURIComponent(repoName);
    var x2 := x1 + "/";
    var x3 := x2 + Uri.EncodeURIComponent(branch);
    var x4 := x3 + "/assets/";
    ConcatEnds(a, Uri.EncodeURIComponent(repoName));
    StartsWithExtend(x1, "/", a);
    StartsWithExtend(x2, Uri.EncodeURIComponent(branch), a);
    StartsWithExtend(x3, "/assets/", a);
    StartsWithExtend(x4, p, a);
    ConcatEnds(x4, p);
  }

  const MermaidOpen := "<div class=\"mermaid-raw\" data-diagram=\""
  const MermaidClose := "\"></div>"
  const PreOpen := "<pre class=\"shiki\"><code>"
  const PreClose := "</code></pre>"

  /**
   * The `highlight` hook. `loaded` is the highlighter's loaded languages and
   * `shiki` what its `codeToHtml` returned for this block, `None` when it threw.
   * markdown-it's `escapeHtml` does not escape the apostrophe.
   */
  function Highlight(code: string, lang: string, loaded: set<string>, shiki: Option<string>): string {
    if lang == "mermaid" then MermaidOpen + Uri.EncodeURIComponent(code) + MermaidClose
    else if lang != "" && lang in loaded && shiki.Some? then shiki.value
    else PreOpen + Html.Escape(code, false) + PreClose
  }

  /** What the viewer reads back from a placeholder: the `data-diagram` value, decoded. */
  function DiagramOf(html: string): Option<string> {
    if StartsWith(html, MermaidOpen) && |html| >= |MermaidOpen| + |MermaidClose| && EndsWith(html, MermaidClose) then
      Uri.DecodeURIComponent(html[|MermaidOpen|..|html| - |MermaidClose|])
    else None
  }

  /**
   * A "mermaid" block becomes a placeholder whose attribute value cannot
   * close the attribute (it holds no '"') and decodes back to the diagram.
   */
  lemma MermaidRoundTrip(code: string, loaded: set<string>, shiki: Option<string>)
    ensures DiagramOf(Highlight(code, "mermaid", loaded, shiki)) == Some(code)
    ensures '"' !in Uri.EncodeURIComponent(code)
  {
    var enc := Uri.EncodeURIComponent(code);
    PlaceholderValue(enc);
    Uri.EncodeDecodeRoundTrip(code);
    Uri.EncodeChars(code);
    assert !Uri.EncodedChar('"');
  }

  /** The attribute value sits between the placeholder's fixed opening and closing. */
  lemma PlaceholderValue(enc: string)
    ensures var h := MermaidOpen + enc + MermaidClose;
            StartsWith(h, MermaidOpen) && |h| >= |MermaidOpen| + |MermaidClose| && EndsWith(h, MermaidClose)
            && h[|MermaidOpen|..|h| - |MermaidClose|] == enc
  {
    var h := MermaidOpen + enc + MermaidClose;
    ConcatEnds(MermaidOpen + enc, MermaidClose);
    StartsWithExtend(MermaidOpen + enc, MermaidClose, MermaidOpen) by {
      ConcatEnds(MermaidOpen, enc);
    }
    assert h[|MermaidOpen|..|h| - |MermaidClose|] == enc;
  }

  /**
   * Any other block that the highlighter does not render (no language, a
   * language not loaded, or a highlighter error) becomes a plain block whose
   * code is escaped: it opens no tag, and unescapes to the code.
   */
  lemma FallbackEscaped(code: string, lang: string, loaded: set<string>, shiki: Option<string>)
    requires lang != "mermaid" && (lang == "" || lang !in loaded || shiki.None?)
    ensures Highlight(code, lang, loaded, shiki) == PreOpen + Html.Escape(code, false) + PreClose
    ensures '<' !in Html.Escape(code, false)
    ensures Html.Unescape(Html.Escape(code, false)) == code
  {
    Html.EscapeNoRaw(code, false);
    Html.UnescapeEscape(code, false);
  }
}
