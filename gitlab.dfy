/**
 * The GitLab review adapter (REST API v4): merge requests stand for pull
 * requests and notes for comments. Every operation is a function from the
 * adapter's fields, its arguments and GitLab's responses to the requests it
 * sends and what it returns.
 */
module GitLab {
  import opened Wrappers
  import opened Strings
  import opened Uri
  import Sorting
  import opened ReviewTypes

  const Platform := "GitLab"
  const DefaultBaseUrl := "https://gitlab.com/api/v4"

  /** `new GitLabReviewProvider(token, baseUrl, userName)`; an omitted base URL takes the default. */
  function New(token: string, baseUrl: Option<string>, userName: Option<string>): (a: Adapter)
    ensures a.token == token && a.userName == userName
    ensures a.baseUrl == if baseUrl.Some? then baseUrl.value else DefaultBaseUrl
  {
    Adapter(token, baseUrl.GetOr(DefaultBaseUrl), userName)
  }

  /** A merge request as the API returns it. */
  datatype RawMergeRequest = RawMergeRequest(id: int, iid: int, title: string, state: string,
                                             sourceBranch: string, targetBranch: string, webUrl: string)

  /** The parts of a single merge request that an inline comment needs: `sha` and `diff_refs?.base_sha`. */
  datatype RawMergeRequestRefs = RawMergeRequestRefs(sha: Option<string>, baseSha: Option<string>)

  datatype RawPosition = RawPosition(newPath: Option<string>, newLine: Line)

  /** A note; `username` is `author?.username`. */
  datatype RawNote = RawNote(id: int, username: Option<string>, body: string, createdAt: int,
                             system: bool, position: Option<RawPosition>)

  /** A created discussion: its `notes`, and the discussion object itself read as a note. */
  datatype RawDiscussion = RawDiscussion(notes: seq<RawNote>, asNote: RawNote)

  /** `encodeRepo`: the whole "group/project" path as one URL segment. */
  function EncodeRepo(repo: string): string {
    EncodeURIComponent(repo)
  }

  /** The encoded repo has no "/" left and decodes back to the repo path. */
  lemma EncodeRepoSpec(repo: string)
    ensures '/' !in EncodeRepo(repo)
    ensures DecodeURIComponent(EncodeRepo(repo)) == Some(repo)
  {
    EncodeChars(repo);
    EncodeDecodeRoundTrip(repo);
  }

  /** "group/project" is sent as "group%2Fproject". */
  lemma EncodeRepoSlash(group: string, project: string)
    requires forall i :: 0 <= i < |group| ==> Unreserved(group[i])
    requires forall i :: 0 <= i < |project| ==> Unreserved(project[i])
    ensures EncodeRepo(group + "/" + project) == group + "%2F" + project
  {
    EncodeSlash(group, project);
  }

  /** GitLab's "opened" is reported as "open"; every other state as it is. */
  function MapState(state: string): (r: string)
    ensures state == "opened" ==> r == "open"
    ensures state != "opened" ==> r == state
  {
    if state == "opened" then "open" else state
  }

  function ToPullRequest(mr: RawMergeRequest): (r: PullRequest)
    ensures r.id == mr.id && r.number == mr.iid && r.title == mr.title && r.state == MapState(mr.state)
    ensures r.head == mr.sourceBranch && r.base == mr.targetBranch && r.url == mr.webUrl
  {
    PullRequest(mr.id, mr.iid, mr.title, MapState(mr.state), mr.sourceBranch, mr.targetBranch, mr.webUrl)
  }

  function MergeRequestsPath(repo: string): string {
    "/projects/" + EncodeRepo(repo) + "/merge_requests"
  }

  function MergeRequestPath(repo: string, pr: int): string {
    MergeRequestsPath(repo) + "/" + IntToString(pr)
  }

  /** `findPR`: the first open merge request from the branch (sent unencoded), or null. */
  function FindPR(a: Adapter, repo: string, head: string, resp: Response<seq<RawMergeRequest>>)
    : (x: Exchange<Option<PullRequest>>)
    ensures x.sent == [Request(Get, a.baseUrl + (MergeRequestsPath(repo) + "?state=opened&source_branch="
                                                 + head + "&per_page=5"), a.token, None)]
    ensures x.result.Success? <==> resp.Ok?
    ensures resp.Ok? ==> (x.result.value.None? <==> |resp.value| == 0)
    ensures resp.Ok? && |resp.value| > 0 ==> x.result.value == Some(ToPullRequest(resp.value[0]))
  {
    var c := Call(a, Platform, Get, MergeRequestsPath(repo) + "?state=opened&source_branch=" + head + "&per_page=5",
                  None, resp);
    match c.result
    case Failure(e) => Exchange(c.sent, Failure(e))
    case Success(mrs) => Exchange(c.sent, Success(if |mrs| == 0 then None else Some(ToPullRequest(mrs[0]))))
  }

  /** The notes a reader sees: every note without the `system` flag, in order. */
  function UserNotes(notes: seq<RawNote>): (r: seq<RawNote>)
    ensures forall n :: multiset(r)[n] == if n.system then 0 else multiset(notes)[n]
    ensures |r| <= |notes|
  {
    if |notes| == 0 then []
    else
      var rest := UserNotes(notes[1..]);
      assert notes == [notes[0]] + notes[1..];
      if notes[0].system then rest else [notes[0]] + rest
  }

  function ToComment(a: Adapter, n: RawNote): (r: ReviewComment)
    ensures r.id == n.id && r.body == n.body && r.createdAt == n.createdAt
    ensures r.author == n.username.GetOr("unknown")
    ensures r.path == (if n.position.Some? then n.position.value.newPath else None)
    ensures r.line == (if n.position.Some? then n.position.value.newLine else Absent)
    ensures r.isOwn <==> Owns(a.userName, n.username)
  {
    ReviewComment(n.id, n.username.GetOr("unknown"), n.body, n.createdAt,
                  if n.position.Some? then n.position.value.newPath else None,
                  if n.position.Some? then n.position.value.newLine else Absent,
                  Owns(a.userName, n.username))
  }

  function ToComments(a: Adapter, ns: seq<RawNote>): seq<ReviewComment> {
    Sorting.Map((n: RawNote) => ToComment(a, n), ns)
  }

  function NotesPath(repo: string, pr: int): string {
    MergeRequestPath(repo, pr) + "/notes"
  }

  /** `listComments`: the non-system notes as comments, sorted by creation time. */
  function ListComments(a: Adapter, repo: string, pr: int, resp: Response<seq<RawNote>>)
    : (x: Exchange<seq<ReviewComment>>)
    ensures x.sent == [Request(Get, a.baseUrl + (NotesPath(repo, pr) + "?per_page=100"), a.token, None)]
    ensures x.result.Success? <==> resp.Ok?
    ensures x.result.Success? ==> x.result.value == SortByCreatedAt(ToComments(a, UserNotes(resp.value)))
  {
    var c := Call(a, Platform, Get, NotesPath(repo, pr) + "?per_page=100", None, resp);
    match c.result
    case Failure(e) => Exchange(c.sent, Failure(e))
    case Success(notes) => Exchange(c.sent, Success(SortByCreatedAt(ToComments(a, UserNotes(notes)))))
  }

  /**
   * What `listComments` returns: one comment per non-system note and none
   * for system notes, oldest first, equal timestamps in note order.
   */
  lemma ListCommentsSpec(a: Adapter, repo: string, pr: int, notes: seq<RawNote>)
    ensures var r := ListComments(a, repo, pr, Ok(notes)).result.value;
            && multiset(r) == multiset(ToComments(a, UserNotes(notes)))
            && (forall n :: n in notes && !n.system ==> ToComment(a, n) in r)
            && (forall c :: c in r ==> exists n :: n in notes && !n.system && c == ToComment(a, n))
            && (forall i, j :: 0 <= i < j < |r| ==> r[i].createdAt <= r[j].createdAt)
            && (forall e :: Sorting.Class(r, CreatedAtLe, e) == Sorting.Class(ToComments(a, UserNotes(notes)), CreatedAtLe, e))
  {
    var kept := UserNotes(notes);
    var mapped := ToComments(a, kept);
    var r := SortByCreatedAt(mapped);
    SortByCreatedAtSpec(mapped);
    KeptNotes(a, notes);
    forall c | c in r ensures c in mapped {
      assert c in multiset(r);
    }
    forall c | c in mapped ensures c in r {
      assert c in multiset(mapped);
    }
  }

  lemma KeptNotes(a: Adapter, notes: seq<RawNote>)
    ensures forall n :: n in notes && !n.system ==> ToComment(a, n) in ToComments(a, UserNotes(notes))
    ensures forall c :: c in ToComments(a, UserNotes(notes)) ==>
              exists n :: n in notes && !n.system && c == ToComment(a, n)
  {
    var kept := UserNotes(notes);
    var mapped := ToComments(a, kept);
    forall n | n in notes && !n.system ensures ToComment(a, n) in mapped {
      assert multiset(kept)[n] == multiset(notes)[n] > 0;
      var i :| 0 <= i < |kept| && kept[i] == n;
      assert mapped[i] == ToComment(a, n);
    }
    forall c | c in mapped ensures exists n :: n in notes && !n.system && c == ToComment(a, n) {
      var i :| 0 <= i < |mapped| && mapped[i] == c;
      assert kept[i] in multiset(kept);
      assert !kept[i].system && multiset(notes)[kept[i]] > 0;
    }
  }

  /** A note created by this adapter: `isOwn` always true, no path or line. */
  function Created(n: RawNote): (r: ReviewComment)
    ensures r.isOwn && r.path.None? && r.line.Absent?
    ensures r.id == n.id && r.body == n.body && r.createdAt == n.createdAt && r.author == n.username.GetOr("unknown")
  {
    ReviewComment(n.id, n.username.GetOr("unknown"), n.body, n.createdAt, None, Absent, true)
  }

  /** `addComment`: posts the (tagged) body as a note. */
  function AddComment(a: Adapter, repo: string, pr: int, body: string, resp: Response<RawNote>)
    : (x: Exchange<ReviewComment>)
    ensures x.sent == [Request(Post, a.baseUrl + NotesPath(repo, pr), a.token,
                               Some(JObj([("body", JStr(DisplayBody(a.userName, body)))])))]
    ensures x.result.Success? <==> resp.Ok?
    ensures x.result.Success? ==> x.result.value == Created(resp.value)
  {
    var c := Call(a, Platform, Post, NotesPath(repo, pr), Some(JObj([("body", JStr(DisplayBody(a.userName, body)))])), resp);
    match c.result
    case Failure(e) => Exchange(c.sent, Failure(e))
    case Success(n) => Exchange(c.sent, Success(Created(n)))
  }

  /** A JSON field that `JSON.stringify` leaves out when its value is `undefined`. */
  function OptionalField(key: string, value: Option<string>): seq<(string, Json)> {
    if value.Some? then [(key, JStr(value.value))] else []
  }

  /** The diff position of an inline note: base and start SHA are both the diff's base. */
  function PositionJson(baseSha: Option<string>, headSha: Option<string>, filePath: string, line: int): Json {
    JObj([("position_type", JStr("text"))] + OptionalField("base_sha", baseSha) + OptionalField("head_sha", headSha)
         + OptionalField("start_sha", baseSha) + [("new_path", JStr(filePath)), ("new_line", JNum(line))])
  }

  /** The head SHA of an inline note: the caller's commit when given, else the merge request's. */
  function HeadSha(commitSha: Option<string>, refs: RawMergeRequestRefs): (r: Option<string>)
    ensures commitSha.Some? ==> r == commitSha
    ensures commitSha.None? ==> r == refs.sha
  {
    if commitSha.Some? then commitSha else refs.sha
  }

  /** `n.notes?.[0] ?? n`. */
  function FirstNote(d: RawDiscussion): RawNote {
    if |d.notes| > 0 then d.notes[0] else d.asNote
  }

  /** The returned comment echoes the arguments' path and line. */
  function CreatedInline(n: RawNote, filePath: string, line: int): (r: ReviewComment)
    ensures r.isOwn && r.path == Some(filePath) && r.line == At(line)
    ensures r.id == n.id && r.body == n.body && r.createdAt == n.createdAt && r.author == n.username.GetOr("unknown")
  {
    ReviewComment(n.id, n.username.GetOr("unknown"), n.body, n.createdAt, Some(filePath), At(line), true)
  }

  /** `addInlineComment`: reads the merge request's SHAs, then opens a discussion at the position. */
  function AddInlineComment(a: Adapter, repo: string, pr: int, filePath: string, line: int, body: string,
                            commitSha: Option<string>, mrResp: Response<RawMergeRequestRefs>,
                            resp: Response<RawDiscussion>)
    : (x: Exchange<ReviewComment>)
    ensures |x.sent| >= 1 && x.sent[0] == Request(Get, a.baseUrl + MergeRequestPath(repo, pr), a.token, None)
    ensures mrResp.Failed? ==> |x.sent| == 1 && x.result == Failure(ApiError(Platform, mrResp.status, mrResp.text))
    ensures mrResp.Ok? ==> (|x.sent| == 2 && x.sent[1] ==
              Request(Post, a.baseUrl + (MergeRequestPath(repo, pr) + "/discussions"), a.token,
                      Some(JObj([("body", JStr(DisplayBody(a.userName, body))),
                                 ("position", PositionJson(mrResp.value.baseSha, HeadSha(commitSha, mrResp.value),
                                                           filePath, line))]))))
    ensures x.result.Success? <==> mrResp.Ok? && resp.Ok?
    ensures x.result.Success? ==> x.result.value == CreatedInline(FirstNote(resp.value), filePath, line)
  {
    var get := Call(a, Platform, Get, MergeRequestPath(repo, pr), None, mrResp);
    match get.result
    case Failure(e) => Exchange(get.sent, Failure(e))
    case Success(refs) =>
      var payload := JObj([("body", JStr(DisplayBody(a.userName, body))),
                           ("position", PositionJson(refs.baseSha, HeadSha(commitSha, refs), filePath, line))]);
      var post := Call(a, Platform, Post, MergeRequestPath(repo, pr) + "/discussions", Some(payload), resp);
      match post.result
      case Failure(e) => Exchange(get.sent + post.sent, Failure(e))
      case Success(d) => Exchange(get.sent + post.sent, Success(CreatedInline(FirstNote(d), filePath, line)))
  }

  /** The position names the file and line, with base and start SHA equal. */
  lemma PositionSpec(baseSha: string, headSha: string, filePath: string, line: int)
    ensures PositionJson(Some(baseSha), Some(headSha), filePath, line).fields ==
            [("position_type", JStr("text")), ("base_sha", JStr(baseSha)), ("head_sha", JStr(headSha)),
             ("start_sha", JStr(baseSha)), ("new_path", JStr(filePath)), ("new_line", JNum(line))]
  {
  }

  /** The note that stands for "request changes", which has no endpoint of its own. */
  function RequestChangesBody(body: Option<string>): string {
    if Truthy(body) then "\U{1F504} **Request Changes:** " + body.value else "\U{1F504} Changes requested."
  }

  /**
   * `submitReview`: approve calls the approve endpoint; request changes posts
   * a note through `addComment`; comment posts its body through `addComment`
   * only when there is one, and otherwise sends nothing.
   */
  function SubmitReview(a: Adapter, repo: string, pr: int, p: SubmitReviewPayload,
                        approveResp: Response<()>, noteResp: Response<RawNote>): (x: Exchange<()>)
  {
    if p.action == Approve then
      Call(a, Platform, Post, MergeRequestPath(repo, pr) + "/approve", None, approveResp)
    else if p.action == RequestChanges then
      var c := AddComment(a, repo, pr, RequestChangesBody(p.body), noteResp);
      Exchange(c.sent, if c.result.Success? then Success(()) else Failure(c.result.error))
    else if Truthy(p.body) then
      var c := AddComment(a, repo, pr, p.body.value, noteResp);
      Exchange(c.sent, if c.result.Success? then Success(()) else Failure(c.result.error))
    else Exchange([], Success(()))
  }

  /** Which request each action sends. */
  lemma SubmitReviewDispatch(a: Adapter, repo: string, pr: int, p: SubmitReviewPayload,
                             approveResp: Response<()>, noteResp: Response<RawNote>)
    ensures var x := SubmitReview(a, repo, pr, p, approveResp, noteResp);
            && (p.action == Approve ==>
                  x.sent == [Request(Post, a.baseUrl + (MergeRequestPath(repo, pr) + "/approve"), a.token, None)]
                  && (x.result.Success? <==> approveResp.Ok?))
            && (p.action == RequestChanges ==>
                  x.sent == AddComment(a, repo, pr, RequestChangesBody(p.body), noteResp).sent
                  && x.sent[0].url == a.baseUrl + NotesPath(repo, pr)
                  && (x.result.Success? <==> noteResp.Ok?))
            && (p.action == Comment && Truthy(p.body) ==>
                  x.sent == AddComment(a, repo, pr, p.body.value, noteResp).sent)
            && (p.action == Comment && !Truthy(p.body) ==> x == Exchange([], Success(())))
  {
  }

  /** Request changes never approves, and its note carries the author tag like any comment. */
  lemma RequestChangesNote(a: Adapter, repo: string, pr: int, body: Option<string>,
                           approveResp: Response<()>, noteResp: Response<RawNote>)
    ensures var x := SubmitReview(a, repo, pr, SubmitReviewPayload(RequestChanges, body, None), approveResp, noteResp);
            && |x.sent| == 1
            && !EndsWith(x.sent[0].url, "/approve")
            && x.sent[0].body == Some(JObj([("body", JStr(DisplayBody(a.userName, RequestChangesBody(body))))]))
            && (Truthy(a.userName) ==> StartsWith(x.sent[0].body.value.fields[0].1.str, AuthorTag(a.userName.value)))
  {
    var x := SubmitReview(a, repo, pr, SubmitReviewPayload(RequestChanges, body, None), approveResp, noteResp);
    var url := x.sent[0].url;
    assert url == a.baseUrl + NotesPath(repo, pr);
    assert url[|url| - 1] == 's';
    var t := DisplayBody(a.userName, RequestChangesBody(body));
    if Truthy(a.userName) {
      assert t[..|AuthorTag(a.userName.value)|] == AuthorTag(a.userName.value);
    }
  }

  /** `createPR`: opens a merge request; title defaults to "Documentation review: <head>". */
  function CreatePR(a: Adapter, repo: string, head: string, base: string, title: Option<string>,
                    resp: Response<RawMergeRequest>): (x: Exchange<PullRequest>)
    ensures x.sent == [Request(Post, a.baseUrl + MergeRequestsPath(repo), a.token,
                               Some(JObj([("title", JStr(title.GetOr("Documentation review: " + head))),
                                          ("source_branch", JStr(head)), ("target_branch", JStr(base))])))]
    ensures x.result.Success? <==> resp.Ok?
    ensures x.result.Success? ==> x.result.value == ToPullRequest(resp.value)
  {
    var c := Call(a, Platform, Post, MergeRequestsPath(repo),
                  Some(JObj([("title", JStr(title.GetOr("Documentation review: " + head))),
                             ("source_branch", JStr(head)), ("target_branch", JStr(base))])), resp);
    match c.result
    case Failure(e) => Exchange(c.sent, Failure(e))
    case Success(mr) => Exchange(c.sent, Success(ToPullRequest(mr)))
  }
}
