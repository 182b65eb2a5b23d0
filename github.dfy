/**
 * The GitHub review adapter (REST API v3 plus one GraphQL mutation). Every
 * operation is a function from the adapter's fields, its arguments and the
 * responses GitHub gives to the requests it sends and what it returns.
 */
module GitHub {
  import opened Wrappers
  import opened Strings
  import opened Uri
  import Sorting
  import opened ReviewTypes

  const Platform := "GitHub"
  const DefaultBaseUrl := "https://api.github.com"

  /** `new GitHubReviewProvider(token, baseUrl, userName)`; an omitted base URL takes the default. */
  function New(token: string, baseUrl: Option<string>, userName: Option<string>): (a: Adapter)
    ensures a.token == token && a.userName == userName
    ensures a.baseUrl == if baseUrl.Some? then baseUrl.value else DefaultBaseUrl
  {
    Adapter(token, baseUrl.GetOr(DefaultBaseUrl), userName)
  }

  /** A pull request as the REST API returns it. */
  datatype RawPull = RawPull(id: int, number: int, title: string, state: string,
                             headRef: string, baseRef: string, htmlUrl: string)

  /** An issue or review comment; `login` is `user?.login`. */
  datatype RawComment = RawComment(id: int, login: Option<string>, body: string, createdAt: int,
                                   path: Option<string>, line: Line, originalLine: Line)

  /** The first comment node of a thread created through GraphQL. */
  datatype RawNode = RawNode(databaseId: int, login: Option<string>, body: string, createdAt: int,
                             path: Option<string>, line: Line)

  /** A GraphQL reply: its `errors` messages and the thread's first comment node, if any. */
  datatype GraphqlReply = GraphqlReply(errors: seq<string>, node: Option<RawNode>)

  function ToPullRequest(pr: RawPull): (r: PullRequest)
    ensures r.id == pr.id && r.number == pr.number && r.title == pr.title && r.state == pr.state
    ensures r.head == pr.headRef && r.base == pr.baseRef && r.url == pr.htmlUrl
  {
    PullRequest(pr.id, pr.number, pr.title, pr.state, pr.headRef, pr.baseRef, pr.htmlUrl)
  }

  /** The owner part of "owner/name": the text before the first "/". */
  function Owner(repo: string): string {
    Split(repo, '/')[0]
  }

  lemma OwnerSpec(repo: string)
    ensures '/' !in Owner(repo)
    ensures repo == Owner(repo) || StartsWith(repo, Owner(repo) + "/")
  {
    SplitParts(repo, '/');
    match IndexOf(repo, '/')
    case None =>
    case Some(k) =>
      assert Owner(repo) == repo[..k];
      assert repo[..k + 1] == repo[..k] + "/";
  }

  /** The `head` query value: `encodeURIComponent(owner + ":" + branch)`. */
  function HeadFilter(repo: string, head: string): string {
    EncodeURIComponent(Owner(repo) + ":" + head)
  }

  /** The filter is one query value that decodes to "owner:branch". */
  lemma HeadFilterSpec(repo: string, head: string)
    ensures DecodeURIComponent(HeadFilter(repo, head)) == Some(Owner(repo) + ":" + head)
    ensures '&' !in HeadFilter(repo, head) && '/' !in HeadFilter(repo, head)
  {
    EncodeDecodeRoundTrip(Owner(repo) + ":" + head);
    EncodeChars(Owner(repo) + ":" + head);
  }

  /** `findPR`: the first open pull request whose head is "owner:branch", or null. */
  function FindPR(a: Adapter, repo: string, head: string, resp: Response<seq<RawPull>>)
    : (x: Exchange<Option<PullRequest>>)
    ensures x.sent == [Request(Get, a.baseUrl + ("/repos/" + repo + "/pulls?state=open&head="
                               + HeadFilter(repo, head) + "&per_page=5"), a.token, None)]
    ensures x.result.Success? <==> resp.Ok?
    ensures resp.Ok? ==> (x.result.value.None? <==> |resp.value| == 0)
    ensures resp.Ok? && |resp.value| > 0 ==> x.result.value == Some(ToPullRequest(resp.value[0]))
  {
    var path := "/repos/" + repo + "/pulls?state=open&head=" + HeadFilter(repo, head) + "&per_page=5";
    var c := Call(a, Platform, Get, path, None, resp);
    match c.result
    case Failure(e) => Exchange(c.sent, Failure(e))
    case Success(prs) =>
      Exchange(c.sent, Success(if |prs| == 0 then None else Some(ToPullRequest(prs[0]))))
  }

  /** `toComment(c, inline)`. */
  function ToComment(a: Adapter, c: RawComment, inline: bool): (r: ReviewComment)
    ensures r.id == c.id && r.body == c.body && r.createdAt == c.createdAt
    ensures r.author == c.login.GetOr("unknown")
    ensures !inline ==> r.path.None? && r.line.Absent?
    ensures inline ==> r.path == c.path && r.line == c.line.OrElse(c.originalLine)
    ensures r.isOwn <==> Owns(a.userName, c.login)
  {
    ReviewComment(c.id, c.login.GetOr("unknown"), c.body, c.createdAt,
                  if inline then c.path else None,
                  if inline then c.line.OrElse(c.originalLine) else Absent,
                  Owns(a.userName, c.login))
  }

  function ToComments(a: Adapter, cs: seq<RawComment>, inline: bool): seq<ReviewComment> {
    Sorting.Map((c: RawComment) => ToComment(a, c, inline), cs)
  }

  function IssueCommentsPath(repo: string, pr: int): string {
    "/repos/" + repo + "/issues/" + IntToString(pr) + "/comments"
  }

  function PullPath(repo: string, pr: int): string {
    "/repos/" + repo + "/pulls/" + IntToString(pr)
  }

  /**
   * `listComments`: both listings are requested together; the issue
   * comments followed by the review comments, sorted by creation time. If a
   * listing fails the call fails (with the issue listing's error when both do).
   */
  function ListComments(a: Adapter, repo: string, pr: int,
                        issues: Response<seq<RawComment>>, reviews: Response<seq<RawComment>>)
    : (x: Exchange<seq<ReviewComment>>)
    ensures x.sent == [Request(Get, a.baseUrl + (IssueCommentsPath(repo, pr) + "?per_page=100"), a.token, None),
                       Request(Get, a.baseUrl + (PullPath(repo, pr) + "/comments?per_page=100"), a.token, None)]
    ensures x.result.Success? <==> issues.Ok? && reviews.Ok?
    ensures issues.Failed? ==> x.result.error == ApiError(Platform, issues.status, issues.text)
    ensures issues.Ok? && reviews.Failed? ==> x.result.error == ApiError(Platform, reviews.status, reviews.text)
    ensures x.result.Success? ==>
              x.result.value == SortByCreatedAt(ToComments(a, issues.value, false) + ToComments(a, reviews.value, true))
  {
    var i := Call(a, Platform, Get, IssueCommentsPath(repo, pr) + "?per_page=100", None, issues);
    var r := Call(a, Platform, Get, PullPath(repo, pr) + "/comments?per_page=100", None, reviews);
    var sent := i.sent + r.sent;
    if i.result.Failure? then Exchange(sent, Failure(i.result.error))
    else if r.result.Failure? then Exchange(sent, Failure(r.result.error))
    else Exchange(sent, Success(SortByCreatedAt(ToComments(a, i.result.value, false)
                                                + ToComments(a, r.result.value, true))))
  }

  /**
   * What `listComments` returns: exactly the mapped issue and review
   * comments, oldest first, equal timestamps in input order (issue comments
   * before review comments); issue comments carry no path or line; a comment
   * is the user's own iff a user name is set and equals its author's login.
   */
  lemma ListCommentsSpec(a: Adapter, repo: string, pr: int, issues: seq<RawComment>, reviews: seq<RawComment>)
    ensures var r := ListComments(a, repo, pr, Ok(issues), Ok(reviews)).result.value;
            var merged := ToComments(a, issues, false) + ToComments(a, reviews, true);
            && multiset(r) == multiset(ToComments(a, issues, false)) + multiset(ToComments(a, reviews, true))
            && |r| == |issues| + |reviews|
            && (forall i, j :: 0 <= i < j < |r| ==> r[i].createdAt <= r[j].createdAt)
            && (forall e :: Sorting.Class(r, CreatedAtLe, e) == Sorting.Class(merged, CreatedAtLe, e))
            && (forall k :: 0 <= k < |r| ==> (r[k].isOwn ==> Truthy(a.userName) && r[k].author == a.userName.value))
  {
    var merged := ToComments(a, issues, false) + ToComments(a, reviews, true);
    var r := SortByCreatedAt(merged);
    SortByCreatedAtSpec(merged);
    assert |r| == |multiset(r)| == |multiset(merged)| == |merged|;
    MergedOwnership(a, issues, reviews);
    forall k | 0 <= k < |r| ensures r[k].isOwn ==> Truthy(a.userName) && r[k].author == a.userName.value {
      assert r[k] in multiset(merged);
    }
  }

  lemma MergedOwnership(a: Adapter, issues: seq<RawComment>, reviews: seq<RawComment>)
    ensures forall c :: c in ToComments(a, issues, false) + ToComments(a, reviews, true) ==>
              (c.isOwn ==> Truthy(a.userName) && c.author == a.userName.value)
  {
    var merged := ToComments(a, issues, false) + ToComments(a, reviews, true);
    forall m | 0 <= m < |merged| ensures merged[m].isOwn ==> Truthy(a.userName) && merged[m].author == a.userName.value {
      if m < |issues| {
        assert merged[m] == ToComment(a, issues[m], false);
      } else {
        assert merged[m] == ToComment(a, reviews[m - |issues|], true);
      }
    }
  }

  /** Issue comments listed carry no path or line; review comments fall back to `original_line`. */
  lemma ListedLocations(a: Adapter, c: RawComment)
    ensures ToComment(a, c, false).path.None? && ToComment(a, c, false).line == Absent
    ensures c.line.At? ==> ToComment(a, c, true).line == c.line
    ensures !c.line.At? ==> ToComment(a, c, true).line == c.originalLine
  {
  }

  /** A created comment: fields from the response, `isOwn` always true, no path or line. */
  function Created(c: RawComment): (r: ReviewComment)
    ensures r.isOwn && r.path.None? && r.line.Absent?
    ensures r.id == c.id && r.body == c.body && r.createdAt == c.createdAt && r.author == c.login.GetOr("unknown")
  {
    ReviewComment(c.id, c.login.GetOr("unknown"), c.body, c.createdAt, None, Absent, true)
  }

  /** `addComment`: posts the (tagged) body as an issue comment. */
  function AddComment(a: Adapter, repo: string, pr: int, body: string, resp: Response<RawComment>)
    : (x: Exchange<ReviewComment>)
    ensures x.sent == [Request(Post, a.baseUrl + IssueCommentsPath(repo, pr), a.token,
                               Some(JObj([("body", JStr(DisplayBody(a.userName, body)))])))]
    ensures x.result.Success? <==> resp.Ok?
    ensures x.result.Success? ==> x.result.value == Created(resp.value) && x.result.value.isOwn
  {
    var c := Call(a, Platform, Post, IssueCommentsPath(repo, pr),
                  Some(JObj([("body", JStr(DisplayBody(a.userName, body)))])), resp);
    match c.result
    case Failure(e) => Exchange(c.sent, Failure(e))
    case Success(raw) => Exchange(c.sent, Success(Created(raw)))
  }

  /**
   * The GraphQL endpoint for a REST base URL: a base ending in "/api/v3"
   * (optionally with "/") gets "/api/graphql" in its place; the public API
   * base "https://api.github.com" (optionally with "/") gets "/graphql".
   */
  function GraphqlUrl(base: string): string {
    var s := if EndsWith(base, "/api/v3") then base[..|base| - 7] + "/api/graphql"
             else if EndsWith(base, "/api/v3/") then base[..|base| - 8] + "/api/graphql"
             else base;
    if s == "https://api.github.com" || s == "https://api.github.com/" then "https://api.github.com/graphql"
    else s
  }

  /**
   * The public API base, with or without a trailing "/", maps to the public
   * GraphQL endpoint; an Enterprise base ".../api/v3", with or without "/",
   * maps to ".../api/graphql" on the same host.
   */
  lemma GraphqlUrlSpec(host: string)
    ensures GraphqlUrl(DefaultBaseUrl) == "https://api.github.com/graphql"
    ensures GraphqlUrl(DefaultBaseUrl + "/") == "https://api.github.com/graphql"
    ensures GraphqlUrl(host + "/api/v3") == host + "/api/graphql"
    ensures GraphqlUrl(host + "/api/v3/") == host + "/api/graphql"
  {
    GraphqlPublic();
    GraphqlEnterprise(host);
    GraphqlEnterpriseSlash(host);
  }

  lemma GraphqlPublic()
    ensures GraphqlUrl(DefaultBaseUrl) == "https://api.github.com/graphql"
    ensures GraphqlUrl(DefaultBaseUrl + "/") == "https://api.github.com/graphql"
  {
    assert !EndsWith(DefaultBaseUrl, "/api/v3") && !EndsWith(DefaultBaseUrl, "/api/v3/");
    var d := DefaultBaseUrl + "/";
    assert d[|d| - 1] == '/' && d[|d| - 2] == 'm';
    assert !EndsWith(d, "/api/v3") && !EndsWith(d, "/api/v3/");
  }

  lemma GraphqlEnterprise(host: string)
    ensures GraphqlUrl(host + "/api/v3") == host + "/api/graphql"
  {
    var b := host + "/api/v3";
    assert EndsWith(b, "/api/v3");
    assert b[..|b| - 7] == host;
    NotPublic(host + "/api/graphql");
  }

  lemma GraphqlEnterpriseSlash(host: string)
    ensures GraphqlUrl(host + "/api/v3/") == host + "/api/graphql"
  {
    var b := host + "/api/v3/";
    assert EndsWith(b, "/api/v3/");
    assert b[|b| - 1] == '/';
    assert !EndsWith(b, "/api/v3");
    assert b[..|b| - 8] == host;
    NotPublic(host + "/api/graphql");
  }

  /** A GraphQL URL is not the public REST base itself. */
  lemma NotPublic(g: string)
    requires EndsWith(g, "/api/graphql")
    ensures g != DefaultBaseUrl && g != DefaultBaseUrl + "/"
  {
    assert g[|g| - 1] == 'l';
  }

  /** A base URL the two rewrites do not match is used as it is. */
  lemma GraphqlUrlOther(base: string)
    requires !EndsWith(base, "/api/v3") && !EndsWith(base, "/api/v3/")
    requires base != DefaultBaseUrl && base != DefaultBaseUrl + "/"
    ensures GraphqlUrl(base) == base
  {
  }

  /** The mutation input for a thread on one line of the new version of the file. */
  function LineThreadInput(nodeId: string, body: string, filePath: string, line: int): Json {
    JObj([("pullRequestId", JStr(nodeId)), ("body", JStr(body)), ("path", JStr(filePath)),
          ("line", JNum(line)), ("side", JStr("RIGHT")), ("subjectType", JStr("LINE"))])
  }

  /** What a file-level thread appends to the body to name the intended line (characters as the source spells them). */
  function FileThreadSuffix(filePath: string, line: int): string {
    "\n\n> \U{F0}\U{178}\U{201C}\U{201E} `" + filePath + "` \U{E2}\U{20AC}\U{201D} ligne " + IntToString(line)
  }

  /** The mutation input for a thread on the whole file. */
  function FileThreadInput(nodeId: string, body: string, filePath: string, line: int): Json {
    JObj([("pullRequestId", JStr(nodeId)), ("body", JStr(body + FileThreadSuffix(filePath, line))),
          ("path", JStr(filePath)), ("subjectType", JStr("FILE"))])
  }

  function NotInDiffError(filePath: string, line: int): Error {
    Error("Impossible de commenter sur " + filePath + ":" + IntToString(line)
          + " \U{E2}\U{20AC}\U{201D} le fichier n'est probablement pas dans le diff de la PR.")
  }

  /** The comment returned for a created thread; path and line fall back to the arguments. */
  function CreatedInline(n: RawNode, filePath: string, line: int): (r: ReviewComment)
    ensures r.isOwn && r.path == Some(n.path.GetOr(filePath)) && r.line == n.line.OrElse(At(line))
    ensures r.id == n.databaseId && r.body == n.body && r.createdAt == n.createdAt
    ensures r.author == n.login.GetOr("unknown")
  {
    ReviewComment(n.databaseId, n.login.GetOr("unknown"), n.body, n.createdAt,
                  Some(n.path.GetOr(filePath)), n.line.OrElse(At(line)), true)
  }

  /** `graphqlCreateThread`: errors are thrown joined by "; ", otherwise the first node or null. */
  function ThreadResult(reply: GraphqlReply): (r: Result<Option<RawNode>, Error>)
    ensures r.Success? <==> reply.errors == []
    ensures r.Success? ==> r.value == reply.node
    ensures r.Failure? ==> r.error == Error(JoinWith(reply.errors, "; "))
  {
    if |reply.errors| > 0 then Failure(Error(JoinWith(reply.errors, "; "))) else Success(reply.node)
  }

  /**
   * `addInlineComment`: fetches the PR's node id, tries a LINE thread, then
   * only if GitHub returned no thread a FILE thread, and throws if that too
   * returned none. `commitSha` is accepted and not used.
   */
  function AddInlineComment(a: Adapter, repo: string, pr: int, filePath: string, line: int, body: string,
                            commitSha: Option<string>, prResp: Response<string>,
                            lineReply: GraphqlReply, fileReply: GraphqlReply)
    : (x: Exchange<ReviewComment>)
    ensures |x.sent| >= 1 && x.sent[0] == Request(Get, a.baseUrl + PullPath(repo, pr), a.token, None)
    ensures prResp.Failed? ==> |x.sent| == 1 && x.result == Failure(ApiError(Platform, prResp.status, prResp.text))
    ensures prResp.Ok? ==>
              (|x.sent| >= 2 && x.sent[1] == LineThreadRequest(a, prResp.value, DisplayBody(a.userName, body), filePath, line))
    ensures |x.sent| == 3 <==> prResp.Ok? && lineReply.errors == [] && lineReply.node.None?
    ensures |x.sent| == 3 ==>
              x.sent[2] == FileThreadRequest(a, prResp.value, DisplayBody(a.userName, body), filePath, line)
    ensures prResp.Ok? && lineReply.errors == [] && lineReply.node.Some? ==>
              x.result == Success(CreatedInline(lineReply.node.value, filePath, line))
    ensures |x.sent| == 3 && fileReply.errors == [] ==>
              x.result == if fileReply.node.Some? then Success(CreatedInline(fileReply.node.value, filePath, line))
                          else Failure(NotInDiffError(filePath, line))
    ensures x.result.Success? ==> x.result.value.isOwn
  {
    var get := Call(a, Platform, Get, PullPath(repo, pr), None, prResp);
    match get.result
    case Failure(e) => Exchange(get.sent, Failure(e))
    case Success(nodeId) =>
      var t := CreateThread(a, nodeId, DisplayBody(a.userName, body), filePath, line, lineReply, fileReply);
      Exchange(get.sent + t.sent, t.result)
  }

  function LineThreadRequest(a: Adapter, nodeId: string, display: string, filePath: string, line: int): Request {
    Request(Post, GraphqlUrl(a.baseUrl), a.token, Some(LineThreadInput(nodeId, display, filePath, line)))
  }

  function FileThreadRequest(a: Adapter, nodeId: string, display: string, filePath: string, line: int): Request {
    Request(Post, GraphqlUrl(a.baseUrl), a.token, Some(FileThreadInput(nodeId, display, filePath, line)))
  }

  /** The GraphQL part of `addInlineComment`, once the PR's node id is known. */
  function CreateThread(a: Adapter, nodeId: string, display: string, filePath: string, line: int,
                        lineReply: GraphqlReply, fileReply: GraphqlReply)
    : (x: Exchange<ReviewComment>)
    ensures 1 <= |x.sent| <= 2
    ensures x.sent[0] == LineThreadRequest(a, nodeId, display, filePath, line)
    ensures |x.sent| == 2 <==> lineReply.errors == [] && lineReply.node.None?
    ensures |x.sent| == 2 ==> x.sent[1] == FileThreadRequest(a, nodeId, display, filePath, line)
    ensures lineReply.errors == [] && lineReply.node.Some? ==>
              x.result == Success(CreatedInline(lineReply.node.value, filePath, line))
    ensures |x.sent| == 2 && fileReply.errors == [] ==>
              x.result == if fileReply.node.Some? then Success(CreatedInline(fileReply.node.value, filePath, line))
                          else Failure(NotInDiffError(filePath, line))
    ensures x.result.Success? ==> x.result.value.isOwn
  {
    var lineReq := LineThreadRequest(a, nodeId, display, filePath, line);
    match ThreadResult(lineReply)
    case Failure(e) => Exchange([lineReq], Failure(e))
    case Success(Some(n)) => Exchange([lineReq], Success(CreatedInline(n, filePath, line)))
    case Success(None) =>
      var fileReq := FileThreadRequest(a, nodeId, display, filePath, line);
      match ThreadResult(fileReply)
      case Failure(e) => Exchange([lineReq, fileReq], Failure(e))
      case Success(Some(n)) => Exchange([lineReq, fileReq], Success(CreatedInline(n, filePath, line)))
      case Success(None) => Exchange([lineReq, fileReq], Failure(NotInDiffError(filePath, line)))
  }

  /**
   * The fallback chain when GraphQL reports no errors: the comment is
   * created iff one of the two threads was, and the LINE thread wins.
   */
  lemma InlineFallback(a: Adapter, repo: string, pr: int, filePath: string, line: int, body: string,
                       commitSha: Option<string>, nodeId: string, lineReply: GraphqlReply, fileReply: GraphqlReply)
    requires lineReply.errors == [] && fileReply.errors == []
    ensures var x := AddInlineComment(a, repo, pr, filePath, line, body, commitSha, Ok(nodeId), lineReply, fileReply);
            && (x.result.Failure? <==> lineReply.node.None? && fileReply.node.None?)
            && (x.result.Failure? ==> x.result.error == NotInDiffError(filePath, line))
            && (lineReply.node.Some? ==> |x.sent| == 2 && x.result.value.id == lineReply.node.value.databaseId)
            && (lineReply.node.None? && fileReply.node.Some? ==> x.result.value.id == fileReply.node.value.databaseId)
  {
  }

  /** The review event GitHub expects for each action. */
  function EventName(action: ReviewAction): string {
    match action
    case Approve => "APPROVE"
    case RequestChanges => "REQUEST_CHANGES"
    case Comment => "COMMENT"
  }

  function ActionOfEvent(event: string): Option<ReviewAction> {
    if event == "APPROVE" then Some(Approve)
    else if event == "REQUEST_CHANGES" then Some(RequestChanges)
    else if event == "COMMENT" then Some(Comment)
    else None
  }

  /** Distinct actions map to distinct events, and each event names its action. */
  lemma EventNameRoundTrip(action: ReviewAction)
    ensures ActionOfEvent(EventName(action)) == Some(action)
  {
  }

  function DraftJson(c: DraftComment): Json {
    JObj([("path", JStr(c.path)), ("line", JNum(c.line)), ("body", JStr(c.body)), ("side", JStr("RIGHT"))])
  }

  function DraftsJson(cs: seq<DraftComment>): (r: seq<Json>)
    ensures |r| == |cs|
    ensures forall i :: 0 <= i < |cs| ==> r[i] == DraftJson(cs[i])
  {
    if |cs| == 0 then [] else [DraftJson(cs[0])] + DraftsJson(cs[1..])
  }

  /** The review body: text (default ""), event, and the draft comments when given. */
  function ReviewJson(p: SubmitReviewPayload): Json {
    JObj([("body", JStr(p.body.GetOr(""))), ("event", JStr(EventName(p.action)))]
         + (if p.comments.Some? then [("comments", JArr(DraftsJson(p.comments.value)))] else []))
  }

  /** `submitReview`: one POST to the reviews endpoint, whatever the action. */
  function SubmitReview(a: Adapter, repo: string, pr: int, p: SubmitReviewPayload, resp: Response<()>)
    : (x: Exchange<()>)
    ensures x.sent == [Request(Post, a.baseUrl + (PullPath(repo, pr) + "/reviews"), a.token, Some(ReviewJson(p)))]
    ensures x.result.Success? <==> resp.Ok?
  {
    Call(a, Platform, Post, PullPath(repo, pr) + "/reviews", Some(ReviewJson(p)), resp)
  }

  /** The review GitHub receives carries the action's event and the body, "" when none was given. */
  lemma ReviewJsonSpec(p: SubmitReviewPayload)
    ensures ReviewJson(p).fields[0] == ("body", JStr(if p.body.Some? then p.body.value else ""))
    ensures ReviewJson(p).fields[1].1.JStr? && ActionOfEvent(ReviewJson(p).fields[1].1.str) == Some(p.action)
    ensures p.comments.None? <==> |ReviewJson(p).fields| == 2
  {
  }

  function DefaultTitle(head: string): string {
    "Documentation review: " + head
  }

  /** `createPR`: title defaults to "Documentation review: <head>". */
  function CreatePR(a: Adapter, repo: string, head: string, base: string, title: Option<string>,
                    resp: Response<RawPull>): (x: Exchange<PullRequest>)
    ensures x.sent == [Request(Post, a.baseUrl + ("/repos/" + repo + "/pulls"), a.token,
                               Some(JObj([("title", JStr(title.GetOr(DefaultTitle(head)))),
                                          ("head", JStr(head)), ("base", JStr(base))])))]
    ensures title.None? ==> x.sent[0].body.value.fields[0].1 == JStr("Documentation review: " + head)
    ensures x.result.Success? <==> resp.Ok?
    ensures x.result.Success? ==> x.result.value == ToPullRequest(resp.value)
  {
    var c := Call(a, Platform, Post, "/repos/" + repo + "/pulls",
                  Some(JObj([("title", JStr(title.GetOr(DefaultTitle(head)))),
                             ("head", JStr(head)), ("base", JStr(base))])), resp);
    match c.result
    case Failure(e) => Exchange(c.sent, Failure(e))
    case Success(raw) => Exchange(c.sent, Success(ToPullRequest(raw)))
  }
}
