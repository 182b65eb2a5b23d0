/**
 * The review annotations of the Markdown viewer: escaping of comment text,
 * the choice of comments shown under each rendered block, the "+" button
 * that opens and closes the add-comment form, where that form is placed
 * among the rendered blocks, and what submitting it sends.
 */
module MarkdownViewer {
  import opened Wrappers
  import opened Strings
  import opened ReviewTypes
  import Html

  /** `escapeHtml`: five global replacements, "&" first. */
  function EscapeHtml(s: string): string {
    var amp := Html.ReplaceAll(s, '&', "&amp;");
    var lt := Html.ReplaceAll(amp, '<', "&lt;");
    var gt := Html.ReplaceAll(lt, '>', "&gt;");
    var quot := Html.ReplaceAll(gt, '"', "&quot;");
    Html.ReplaceAll(quot, '\'', "&#039;")
  }

  lemma EscapeHtmlConcat(a: string, b: string)
    ensures EscapeHtml(a + b) == EscapeHtml(a) + EscapeHtml(b)
  {
    var amp := Html.ReplaceAll(a + b, '&', "&amp;");
    Html.ReplaceAllConcat(a, b, '&', "&amp;");
    var a1, b1 := Html.ReplaceAll(a, '&', "&amp;"), Html.ReplaceAll(b, '&', "&amp;");
    Html.ReplaceAllConcat(a1, b1, '<', "&lt;");
    var a2, b2 := Html.ReplaceAll(a1, '<', "&lt;"), Html.ReplaceAll(b1, '<', "&lt;");
    Html.ReplaceAllConcat(a2, b2, '>', "&gt;");
    var a3, b3 := Html.ReplaceAll(a2, '>', "&gt;"), Html.ReplaceAll(b2, '>', "&gt;");
    Html.ReplaceAllConcat(a3, b3, '"', "&quot;");
    var a4, b4 := Html.ReplaceAll(a3, '"', "&quot;"), Html.ReplaceAll(b3, '"', "&quot;");
    Html.ReplaceAllConcat(a4, b4, '\'', "&#039;");
  }

  /** The replacements after the first, which leave text without "<", ">", '"' and "'" alone. */
  function Later(t: string): string {
    var lt := Html.ReplaceAll(t, '<', "&lt;");
    var gt := Html.ReplaceAll(lt, '>', "&gt;");
    var quot := Html.ReplaceAll(gt, '"', "&quot;");
    Html.ReplaceAll(quot, '\'', "&#039;")
  }

  lemma EscapeHtmlIsLater(s: string)
    ensures EscapeHtml(s) == Later(Html.ReplaceAll(s, '&', "&amp;"))
  {
  }

  lemma LaterPlain(t: string)
    requires '<' !in t && '>' !in t && '"' !in t && '\'' !in t
    ensures Later(t) == t
  {
    Html.ReplaceAllAbsent(t, '<', "&lt;");
    Html.ReplaceAllAbsent(t, '>', "&gt;");
    Html.ReplaceAllAbsent(t, '"', "&quot;");
    Html.ReplaceAllAbsent(t, '\'', "&#039;");
  }

  /**
   * On one character the chain gives that character's reference: the
   * references written by earlier replacements hold none of the characters
   * the later ones look for.
   */
  lemma EscapeHtmlChar(c: char)
    ensures EscapeHtml([c]) == Html.Entity(c, true)
  {
    if c == '&' {
      EscapeHtmlAmp(c);
    } else {
      EscapeHtmlOther(c);
    }
  }

  lemma EscapeHtmlAmp(c: char)
    requires c == '&'
    ensures EscapeHtml([c]) == "&amp;"
  {
    EscapeHtmlIsLater([c]);
    Html.ReplaceAllSingle(c, '&', "&amp;");
    LaterAmp();
  }

  lemma LaterAmp()
    ensures Later("&amp;") == "&amp;"
  {
    LaterPlain("&amp;");
  }

  lemma EscapeHtmlOther(c: char)
    requires c != '&'
    ensures EscapeHtml([c]) == Html.Entity(c, true)
  {
    EscapeHtmlIsLater([c]);
    Html.ReplaceAllAbsent([c], '&', "&amp;");
    LaterChar(c);
  }

  lemma LaterChar(c: char)
    requires c != '&'
    ensures Later([c]) == Html.Entity(c, true)
  {
    if c == '<' {
      LaterLt();
    } else if c == '>' {
      LaterGt();
    } else if c == '"' {
      LaterQuot();
    } else if c == '\'' {
      LaterApos();
    } else {
      LaterPlain([c]);
    }
  }

  lemma LaterLt()
    ensures Later("<") == "&lt;"
  {
    Html.ReplaceAllSingle('<', '<', "&lt;");
    LaterPlain("&lt;");
    LaterFirst("<", "&lt;");
  }

  lemma LaterGt()
    ensures Later(">") == "&gt;"
  {
    Html.ReplaceAllAbsent(">", '<', "&lt;");
    Html.ReplaceAllSingle('>', '>', "&gt;");
    Html.ReplaceAllAbsent("&gt;", '"', "&quot;");
    Html.ReplaceAllAbsent("&gt;", '\'', "&#039;");
  }

  lemma LaterQuot()
    ensures Later("\"") == "&quot;"
  {
    Html.ReplaceAllAbsent("\"", '<', "&lt;");
    Html.ReplaceAllAbsent("\"", '>', "&gt;");
    Html.ReplaceAllSingle('"', '"', "&quot;");
    Html.ReplaceAllAbsent("&quot;", '\'', "&#039;");
  }

  lemma LaterApos()
    ensures Later("'") == "&#039;"
  {
    Html.ReplaceAllAbsent("'", '<', "&lt;");
    Html.ReplaceAllAbsent("'", '>', "&gt;");
    Html.ReplaceAllAbsent("'", '"', "&quot;");
    Html.ReplaceAllSingle('\'', '\'', "&#039;");
  }

  /** When the first replacement turns `t` into text without the other characters, the rest leave it alone. */
  lemma LaterFirst(t: string, u: string)
    requires Html.ReplaceAll(t, '<', "&lt;") == u
    requires '>' !in u && '"' !in u && '\'' !in u
    ensures Later(t) == u
  {
    Html.ReplaceAllAbsent(u, '>', "&gt;");
    Html.ReplaceAllAbsent(u, '"', "&quot;");
    Html.ReplaceAllAbsent(u, '\'', "&#039;");
  }

  /** Because "&" goes first, the chain acts character by character: it is the per-character escape. */
  lemma {:induction false} EscapeHtmlPerChar(s: string)
    ensures EscapeHtml(s) == Html.Escape(s, true)
    decreases |s|
  {
    if |s| > 0 {
      assert s == [s[0]] + s[1..];
      EscapeHtmlConcat([s[0]], s[1..]);
      EscapeHtmlChar(s[0]);
      EscapeHtmlPerChar(s[1..]);
    } else {
      assert EscapeHtml(s) == "";
    }
  }

  /**
   * Escaped text holds no raw "<", ">", '"' or "'", reads back to the
   * original, and text without the five characters comes back unchanged.
   */
  lemma EscapeHtmlSpec(s: string)
    ensures forall i :: 0 <= i < |EscapeHtml(s)| ==>
              EscapeHtml(s)[i] != '<' && EscapeHtml(s)[i] != '>' && EscapeHtml(s)[i] != '"' && EscapeHtml(s)[i] != '\''
    ensures Html.Unescape(EscapeHtml(s)) == s
    ensures (forall i :: 0 <= i < |s| ==> !Html.Special(s[i], true)) ==> EscapeHtml(s) == s
  {
    EscapeHtmlPerChar(s);
    Html.EscapeNoRaw(s, true);
    Html.UnescapeEscape(s, true);
    if forall i :: 0 <= i < |s| ==> !Html.Special(s[i], true) {
      Html.EscapePlain(s, true);
    }
  }

  /** The comments on the viewed file (`c.path === filePath`). */
  function FileComments(comments: seq<ReviewComment>, filePath: string): (r: seq<ReviewComment>)
    ensures forall c :: multiset(r)[c] == if c.path == Some(filePath) then multiset(comments)[c] else 0
  {
    if |comments| == 0 then []
    else
      var rest := FileComments(comments[1..], filePath);
      assert comments == [comments[0]] + comments[1..];
      if comments[0].path == Some(filePath) then [comments[0]] + rest else rest
  }

  /**
   * `c.line !== undefined && c.line >= lineStart && c.line <= lineEnd`: a
   * `null` line passes the first test and compares as 0.
   */
  predicate ShownUnder(c: ReviewComment, lineStart: int, lineEnd: int) {
    match c.line
    case Absent => false
    case Null => lineStart <= 0 <= lineEnd
    case At(n) => lineStart <= n <= lineEnd
  }

  /** The comments shown under a block covering `lineStart..lineEnd`. */
  function BlockComments(fileComments: seq<ReviewComment>, lineStart: int, lineEnd: int): (r: seq<ReviewComment>)
    ensures forall c :: multiset(r)[c] == if ShownUnder(c, lineStart, lineEnd) then multiset(fileComments)[c] else 0
  {
    if |fileComments| == 0 then []
    else
      var rest := BlockComments(fileComments[1..], lineStart, lineEnd);
      assert fileComments == [fileComments[0]] + fileComments[1..];
      if ShownUnder(fileComments[0], lineStart, lineEnd) then [fileComments[0]] + rest else rest
  }

  /**
   * A comment of the viewed file is shown under a block exactly when its
   * line is a number within the block's range, or `null` and the range
   * covers 0; comments without a line are never shown under a block.
   */
  lemma BlockCommentsSpec(comments: seq<ReviewComment>, filePath: string, lineStart: int, lineEnd: int, c: ReviewComment)
    ensures c in BlockComments(FileComments(comments, filePath), lineStart, lineEnd) <==>
              && c in comments && c.path == Some(filePath)
              && (c.line.At? ==> lineStart <= c.line.n <= lineEnd)
              && (c.line.Null? ==> lineStart <= 0 <= lineEnd)
              && !c.line.Absent?
  {
    var fc := FileComments(comments, filePath);
    var bc := BlockComments(fc, lineStart, lineEnd);
    assert c in bc <==> multiset(bc)[c] > 0;
    assert c in fc <==> multiset(fc)[c] > 0;
    assert c in comments <==> multiset(comments)[c] > 0;
  }

  /** The updater the "+" button passes to `setAddingAtLine`. */
  function Toggle(prev: Option<int>, lineStart: int): (r: Option<int>)
    ensures r.None? <==> prev == Some(lineStart)
    ensures r.Some? ==> r == Some(lineStart)
  {
    if prev == Some(lineStart) then None else Some(lineStart)
  }

  /**
   * Clicking the same "+" twice closes a form opened by the first click and
   * reopens one it closed; after clicking two different buttons the form is
   * at the second.
   */
  lemma ToggleTwice(prev: Option<int>, l1: int, l2: int)
    ensures l1 == l2 ==> Toggle(Toggle(prev, l1), l2) == (if prev == Some(l1) then prev else None)
    ensures l1 != l2 ==> Toggle(Toggle(prev, l1), l2) == Some(l2)
  {
  }

  /** The viewer's `addingAtLine` state: the start line of the block whose form is open. */
  class CommentFormState {
    var addingAtLine: Option<int>

    constructor()
      ensures addingAtLine == None
    {
      addingAtLine := None;
    }

    /** A click on the "+" of the block starting at `lineStart`. */
    method PlusClicked(lineStart: int)
      modifies this
      ensures addingAtLine == Toggle(old(addingAtLine), lineStart)
    {
      addingAtLine := Toggle(addingAtLine, lineStart);
    }

    /** Another file is shown, or the form is closed: no form is open. */
    method Reset()
      modifies this
      ensures addingAtLine == None
    {
      addingAtLine := None;
    }
  }

  /** One child of the rendered Markdown body: its parsed `data-source-line-start`, if any, and its classes. */
  datatype Element = Element(lineStart: Option<int>, classes: set<string>)

  predicate IsCommentsGroup(e: Element) {
    "inline-comments-group" in e.classes
  }

  /**
   * Where the add-comment form goes: the first block (in document order)
   * whose start line is the open line, and the element after which the form
   * is inserted — the last of the comment groups directly following that
   * block, or the block itself. `None` when no form is open or no block
   * starts at that line.
   */
  method FormAnchor(children: seq<Element>, addingAtLine: Option<int>) returns (r: Option<(nat, nat)>)
    ensures r.None? <==> addingAtLine.None? || forall i :: 0 <= i < |children| ==> children[i].lineStart != addingAtLine
    ensures r.Some? ==>
              var (block, after) := r.value;
              && block <= after < |children|
              && children[block].lineStart == addingAtLine
              && (forall i :: 0 <= i < block ==> children[i].lineStart != addingAtLine)
              && (forall i :: block < i <= after ==> IsCommentsGroup(children[i]))
              && (after + 1 == |children| || !IsCommentsGroup(children[after + 1]))
  {
    if addingAtLine.None? {
      return None;
    }
    var b := 0;
    while b < |children|
      invariant 0 <= b <= |children|
      invariant forall i :: 0 <= i < b ==> children[i].lineStart != addingAtLine
    {
      if children[b].lineStart == addingAtLine {
        var after := b;
        while after + 1 < |children| && IsCommentsGroup(children[after + 1])
          invariant b <= after < |children|
          invariant forall i :: b < i <= after ==> IsCommentsGroup(children[i])
        {
          after := after + 1;
        }
        return Some((b, after));
      }
      b := b + 1;
    }
    return None;
  }

  /**
   * `handleSubmit`: nothing is sent for a blank body or without a review in
   * progress; otherwise the trimmed body is sent as an inline comment on the
   * form's file and line.
   */
  function Submit(reviewActive: bool, filePath: string, line: int, body: string): (r: Option<DraftComment>)
    ensures r.None? <==> !reviewActive || AllWhitespace(body)
    ensures r.Some? ==> r.value.path == filePath && r.value.line == line
    ensures r.Some? ==> r.value.body != "" && !IsWhitespace(r.value.body[0]) && !IsWhitespace(r.value.body[|r.value.body| - 1])
    ensures r.Some? ==> exists i, j :: 0 <= i <= j <= |body| && r.value.body == body[i..j]
                                       && AllWhitespace(body[..i]) && AllWhitespace(body[j..])
  {
    TrimSpec(body);
    if Trim(body) == "" || !reviewActive then None
    else Some(DraftComment(filePath, line, Trim(body)))
  }
}
