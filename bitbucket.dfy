/**
 * The Bitbucket Cloud review adapter (API 2.0). Every operation is a
 * function from the adapter's fields, its arguments and Bitbucket's
 * responses to the requests it sends and what it returns.
 */
module Bitbucket {
  import opened Wrappers
  import opened Strings
  import Sorting
  import opened ReviewTypes

  const Platform := "Bitbucket"
  const DefaultBaseUrl := "https://api.bitbucket.org/2.0"

  /** `new BitbucketReviewProvider(token, baseUrl, userName)`; an omitted base URL takes the default. */
  function New(token: string, baseUrl: Option<string>, userName: Option<string>): (a: Adapter)
    ensures a.token == token && a.userName == userName
    ensures a.baseUrl == if baseUrl.Some? then baseUrl.value else DefaultBaseUrl
  {
    Adapter(token, baseUrl.GetOr(DefaultBaseUrl), userName)
  }

  /** A pull request as the API returns it. */
  datatype RawPull = RawPull(id: int, title: string, state: string, sourceBranch: string,
                             destinationBranch: string, htmlHref: string)

  /** A paginated listing; `values` may be missing. */
  datatype Page<T> = Page(values: Option<seq<T>>)

  datatype RawInline = RawInline(path: Option<string>, to: Line)

  /** A comment: `user?.nickname`, `user?.display_name`, `content?.raw`, `content?.markup`. */
  datatype RawComment = RawComment(id: int, nickname: Option<string>, displayName: Option<string>,
                                   raw: Option<string>, markup: Option<string>, createdAt: int,
                                   inline: Option<RawInline>)

  /** "OPEN" is reported as "open"; any other state in lower case. */
  function MapState(state: string): (r: string)
    ensures state == "OPEN" ==> r == "open"
    ensures state != "OPEN" ==> r == ToLowerAscii(state)
    ensures |r| == |state| && forall i :: 0 <= i < |r| ==> !('A' <= r[i] <= 'Z')
  {
    if state == "OPEN" then "open" else ToLowerAscii(state)
  }

  /** The closed states "MERGED" and "DECLINED" are reported as "merged" and "declined". */
  lemma MapStateClosed()
    ensures MapState("MERGED") == "merged" && MapState("DECLINED") == "declined"
  {
    LowerMerged();
    LowerDeclined();
  }

  lemma LowerMerged()
    ensures ToLowerAscii("MERGED") == "merged"
  {
    LowerWord("MERGED", "merged");
  }

  lemma LowerDeclined()
    ensures ToLowerAscii("DECLINED") == "declined"
  {
    LowerWord("DECLINED", "declined");
  }

  /** A word of upper-case letters lowers to the word 32 code points up. */
  lemma LowerWord(upper: string, lower: string)
    requires |upper| == |lower|
    requires forall i :: 0 <= i < |upper| ==> 'A' <= upper[i] <= 'Z' && lower[i] as int == upper[i] as int + 32
    ensures ToLowerAscii(upper) == lower
  {
  }

  function ToPullRequest(pr: RawPull): (r: PullRequest)
    ensures r.id == pr.id && r.number == pr.id && r.title == pr.title && r.state == MapState(pr.state)
    ensures r.head == pr.sourceBranch && r.base == pr.destinationBranch && r.url == pr.htmlHref
  {
    PullRequest(pr.id, pr.id, pr.title, MapState(pr.state), pr.sourceBranch, pr.destinationBranch, pr.htmlHref)
  }

  function PullRequestsPath(repo: string): string {
    "/repositories/" + repo + "/pullrequests"
  }

  function PullRequestPath(repo: string, pr: int): string {
    PullRequestsPath(repo) + "/" + IntToString(pr)
  }

  /** `findPR`: the first open pull request from the branch; a missing `values` counts as none. */
  function FindPR(a: Adapter, repo: string, head: string, resp: Response<Page<RawPull>>)
    : (x: Exchange<Option<PullRequest>>)
    ensures x.sent == [Request(Get, a.baseUrl + (PullRequestsPath(repo) + "?q=source.branch.name=\"" + head
                                                 + "\" AND state=\"OPEN\"&pagelen=5"), a.token, None)]
    ensures x.result.Success? <==> resp.Ok?
    ensures resp.Ok? ==> (x.result.value.None? <==> resp.value.values.GetOr([]) == [])
    ensures resp.Ok? && resp.value.values.GetOr([]) != [] ==>
              x.result.value == Some(ToPullRequest(resp.value.values.value[0]))
  {
    var c := Call(a, Platform, Get, PullRequestsPath(repo) + "?q=source.branch.name=\"" + head
                                    + "\" AND state=\"OPEN\"&pagelen=5", None, resp);
    match c.result
    case Failure(e) => Exchange(c.sent, Failure(e))
    case Success(page) =>
      var prs := page.values.GetOr([]);
      Exchange(c.sent, Success(if |prs| == 0 then None else Some(ToPullRequest(prs[0]))))
  }

  /** The name a comment's user goes by: nickname, else display name. */
  function UserName(c: RawComment): Option<string> {
    if c.nickname.Some? then c.nickname else c.displayName
  }

  function ToComment(a: Adapter, c: RawComment): (r: ReviewComment)
    ensures r.id == c.id && r.createdAt == c.createdAt
    ensures r.author == c.nickname.GetOr(c.displayName.GetOr("unknown"))
    ensures r.body == c.raw.GetOr(c.markup.GetOr(""))
    ensures r.path == (if c.inline.Some? then c.inline.value.path else None)
    ensures r.line == (if c.inline.Some? then c.inline.value.to else Absent)
    ensures r.isOwn <==> Owns(a.userName, UserName(c))
  {
    ReviewComment(c.id, c.nickname.GetOr(c.displayName.GetOr("unknown")), c.raw.GetOr(c.markup.GetOr("")),
                  c.createdAt,
                  if c.inline.Some? then c.inline.value.path else None,
                  if c.inline.Some? then c.inline.value.to else Absent,
                  Owns(a.userName, UserName(c)))
  }

  /**
   * A listed comment is the user's own exactly when a user name is set, the
   * comment names a user, and the author shown is that user name; global
   * comments carry neither path nor line.
   */
  lemma ToCommentSpec(a: Adapter, c: RawComment)
    ensures ToComment(a, c).isOwn <==>
              Truthy(a.userName) && UserName(c).Some? && ToComment(a, c).author == a.userName.value
    ensures c.inline.None? ==> ToComment(a, c).path.None? && ToComment(a, c).line.Absent?
  {
  }

  function ToComments(a: Adapter, cs: seq<RawComment>): seq<ReviewComment> {
    Sorting.Map((c: RawComment) => ToComment(a, c), cs)
  }

  function CommentsPath(repo: string, pr: int): string {
    PullRequestPath(repo, pr) + "/comments"
  }

  /** `listComments`: all comments (a missing `values` counts as none), sorted by creation time. */
  function ListComments(a: Adapter, repo: string, pr: int, resp: Response<Page<RawComment>>)
    : (x: Exchange<seq<ReviewComment>>)
    ensures x.sent == [Request(Get, a.baseUrl + (CommentsPath(repo, pr) + "?pagelen=100"), a.token, None)]
    ensures x.result.Success? <==> resp.Ok?
    ensures x.result.Success? ==> x.result.value == SortByCreatedAt(ToComments(a, resp.value.values.GetOr([])))
  {
    var c := Call(a, Platform, Get, CommentsPath(repo, pr) + "?pagelen=100", None, resp);
    match c.result
    case Failure(e) => Exchange(c.sent, Failure(e))
    case Success(page) => Exchange(c.sent, Success(SortByCreatedAt(ToComments(a, page.values.GetOr([])))))
  }

  /** What `listComments` returns: one comment per listed one, oldest first, ties in listing order. */
  lemma ListCommentsSpec(a: Adapter, repo: string, pr: int, page: Page<RawComment>)
    ensures var r := ListComments(a, repo, pr, Ok(page)).result.value;
            && multiset(r) == multiset(ToComments(a, page.values.GetOr([])))
            && |r| == |page.values.GetOr([])|
            && (page.values.None? ==> r == [])
            && (forall i, j :: 0 <= i < j < |r| ==> r[i].createdAt <= r[j].createdAt)
            && (forall e :: Sorting.Class(r, CreatedAtLe, e) == Sorting.Class(ToComments(a, page.values.GetOr([])), CreatedAtLe, e))
  {
    var mapped := ToComments(a, page.values.GetOr([]));
    var r := SortByCreatedAt(mapped);
    SortByCreatedAtSpec(mapped);
    assert |r| == |multiset(r)| == |multiset(mapped)| == |mapped|;
  }

  /** A comment this adapter created: `isOwn` always true; author is the nickname only. */
  function Created(c: RawComment, path: Option<string>, line: Line): (r: ReviewComment)
    ensures r.isOwn && r.path == path && r.line == line
    ensures r.id == c.id && r.createdAt == c.createdAt
    ensures r.author == c.nickname.GetOr("unknown") && r.body == c.raw.GetOr("")
  {
    ReviewComment(c.id, c.nickname.GetOr("unknown"), c.raw.GetOr(""), c.createdAt, path, line, true)
  }

  function ContentJson(raw: string): Json {
    JObj([("raw", JStr(raw))])
  }

  /** `addComment`: posts the (tagged) body as a global comment. */
  function AddComment(a: Adapter, repo: string, pr: int, body: string, resp: Response<RawComment>)
    : (x: Exchange<ReviewComment>)
    ensures x.sent == [Request(Post, a.baseUrl + CommentsPath(repo, pr), a.token,
                               Some(JObj([("content", ContentJson(DisplayBody(a.userName, body)))])))]
    ensures x.result.Success? <==> resp.Ok?
    ensures x.result.Success? ==> x.result.value == Created(resp.value, None, Absent)
  {
    var c := Call(a, Platform, Post, CommentsPath(repo, pr),
                  Some(JObj([("content", ContentJson(DisplayBody(a.userName, body)))])), resp);
    match c.result
    case Failure(e) => Exchange(c.sent, Failure(e))
    case Success(raw) => Exchange(c.sent, Success(Created(raw, None, Absent)))
  }

  /** `addInlineComment`: posts the (tagged) body anchored at the file and line; echoes them back. */
  function AddInlineComment(a: Adapter, repo: string, pr: int, filePath: string, line: int, body: string,
                            resp: Response<RawComment>): (x: Exchange<ReviewComment>)
    ensures x.sent == [Request(Post, a.baseUrl + CommentsPath(repo, pr), a.token,
                               Some(JObj([("content", ContentJson(DisplayBody(a.userName, body))),
                                          ("inline", JObj([("path", JStr(filePath)), ("to", JNum(line))]))])))]
    ensures x.result.Success? <==> resp.Ok?
    ensures x.result.Success? ==> x.result.value == Created(resp.value, Some(filePath), At(line))
  {
    var c := Call(a, Platform, Post, CommentsPath(repo, pr),
                  Some(JObj([("content", ContentJson(DisplayBody(a.userName, body))),
                             ("inline", JObj([("path", JStr(filePath)), ("to", JNum(line))]))])), resp);
    match c.result
    case Failure(e) => Exchange(c.sent, Failure(e))
    case Success(raw) => Exchange(c.sent, Success(Created(raw, Some(filePath), At(line))))
  }

  /**
   * `submitReview`: approve and request changes call their endpoints (the
   * latter with the untagged body, "" when none); comment posts its body
   * through `addComment` only when there is one, and otherwise sends nothing.
   */
  function SubmitReview(a: Adapter, repo: string, pr: int, p: SubmitReviewPayload,
                        actionResp: Response<()>, commentResp: Response<RawComment>): (x: Exchange<()>)
  {
    if p.action == Approve then
      Call(a, Platform, Post, PullRequestPath(repo, pr) + "/approve", None, actionResp)
    else if p.action == RequestChanges then
      Call(a, Platform, Post, PullRequestPath(repo, pr) + "/request-changes",
           Some(JObj([("content", ContentJson(p.body.GetOr("")))])), actionResp)
    else if Truthy(p.body) then
      var c := AddComment(a, repo, pr, p.body.value, commentResp);
      Exchange(c.sent, if c.result.Success? then Success(()) else Failure(c.result.error))
    else Exchange([], Success(()))
  }

  /** Which request each action sends. */
  lemma SubmitReviewDispatch(a: Adapter, repo: string, pr: int, p: SubmitReviewPayload,
                             actionResp: Response<()>, commentResp: Response<RawComment>)
    ensures var x := SubmitReview(a, repo, pr, p, actionResp, commentResp);
            && (p.action == Approve ==>
                  x.sent == [Request(Post, a.baseUrl + (PullRequestPath(repo, pr) + "/approve"), a.token, None)])
            && (p.action == RequestChanges ==>
                  x.sent == [Request(Post, a.baseUrl + (PullRequestPath(repo, pr) + "/request-changes"), a.token,
                                     Some(JObj([("content", JObj([("raw", JStr(if p.body.Some? then p.body.value else ""))]))])))])
            && (p.action != Comment ==> (x.result.Success? <==> actionResp.Ok?))
            && (p.action == Comment && Truthy(p.body) ==>
                  x.sent == AddComment(a, repo, pr, p.body.value, commentResp).sent
                  && (x.result.Success? <==> commentResp.Ok?))
            && (p.action == Comment && !Truthy(p.body) ==> x == Exchange([], Success(())))
  {
  }
}
