/**
 * The platform-independent review vocabulary shared by the three adapters:
 * comments, pull requests, review payloads, the requests an adapter sends
 * and the responses it is given, plus the helpers every adapter applies
 * (the author tag, ownership of a comment, ordering by creation time).
 */
module ReviewTypes {
  import opened Wrappers
  import opened Strings
  import Sorting

  /** A comment's line number: `undefined`, `null`, or a number. */
  datatype Line = Absent | Null | At(n: int) {
    /** `this ?? other`: both `undefined` and `null` fall through. */
    function OrElse(other: Line): (r: Line)
      ensures At? ==> r == this
      ensures !At? ==> r == other
    {
      if At? then this else other
    }
  }

  /** `createdAt` is the creation time as a timestamp. */
  datatype ReviewComment = ReviewComment(
    id: int,
    author: string,
    body: string,
    createdAt: int,
    path: Option<string>,
    line: Line,
    isOwn: bool)

  datatype PullRequest = PullRequest(
    id: int,
    number: int,
    title: string,
    state: string,
    head: string,
    base: string,
    url: string)

  datatype ReviewAction = Approve | RequestChanges | Comment

  datatype DraftComment = DraftComment(path: string, line: int, body: string)

  datatype SubmitReviewPayload = SubmitReviewPayload(
    action: ReviewAction,
    body: Option<string>,
    comments: Option<seq<DraftComment>>)

  /** The JSON a request carries; a field set to `undefined` is left out of the object. */
  datatype Json = JStr(str: string) | JNum(num: int) | JArr(items: seq<Json>) | JObj(fields: seq<(string, Json)>)

  datatype Verb = Get | Post

  /** One HTTP request: method, absolute URL, bearer token and JSON body. */
  datatype Request = Request(verb: Verb, url: string, token: string, body: Option<Json>)

  /** What the platform answered: a decoded body, or a non-OK status with its text. */
  datatype Response<T> = Ok(value: T) | Failed(status: int, text: string)

  /** The requests an operation sent, in order, and what it returned or threw. */
  datatype Exchange<T> = Exchange(sent: seq<Request>, result: Result<T, Error>)

  /** The three fields every adapter is constructed with. */
  datatype Adapter = Adapter(token: string, baseUrl: string, userName: Option<string>)

  /** The tag that names the acting user in front of a comment body. */
  function AuthorTag(user: string): string {
    "**[" + user + "]:** "
  }

  /** The body actually posted: tagged when a user name is set, unchanged otherwise. */
  function DisplayBody(userName: Option<string>, body: string): (r: string)
    ensures Truthy(userName) ==> r == AuthorTag(userName.value) + body
    ensures !Truthy(userName) ==> r == body
  {
    if Truthy(userName) then AuthorTag(userName.value) + body else body
  }

  /** Reads the tag back: the user name up to the first "]" and the body after it. */
  function ParseAuthorTag(text: string): Option<(string, string)> {
    if !StartsWith(text, "**[") then None
    else
      var k :- IndexOf(text[3..], ']');
      var after := text[3 + k..];
      if StartsWith(after, "]:** ") then Some((text[3..3 + k], after[5..])) else None
  }

  /** A tagged body names its user and keeps the original text after the tag. */
  lemma AuthorTagRoundTrip(user: string, body: string)
    requires user != "" && ']' !in user
    ensures ParseAuthorTag(DisplayBody(Some(user), body)) == Some((user, body))
  {
    var text := DisplayBody(Some(user), body);
    var after := "]:** " + body;
    TaggedShape(user, body, text);
    IndexOfFirst(user, ']', after[1..]);
    assert user + [']'] + after[1..] == user + after;
    ParseTagged(text, |user|, user, body);
  }

  lemma TaggedShape(user: string, body: string, text: string)
    requires text == AuthorTag(user) + body
    ensures |text| >= 3 + |user| && text[..3] == "**[" && text[3..] == user + ("]:** " + body)
    ensures text[3..3 + |user|] == user && text[3 + |user|..] == "]:** " + body
  {
    assert text == "**[" + (user + ("]:** " + body));
  }

  lemma ParseTagged(text: string, k: nat, user: string, body: string)
    requires |text| >= 3 + k && text[..3] == "**[" && IndexOf(text[3..], ']') == Some(k)
    requires text[3..3 + k] == user && text[3 + k..] == "]:** " + body
    ensures ParseAuthorTag(text) == Some((user, body))
  {
    var after := text[3 + k..];
    assert after[..5] == "]:** " && after[5..] == body;
  }

  /** Two users sharing one token stay distinguishable: different tags give different posts. */
  lemma AuthorTagDistinguishes(u1: string, b1: string, u2: string, b2: string)
    requires u1 != "" && ']' !in u1 && u2 != "" && ']' !in u2
    requires DisplayBody(Some(u1), b1) == DisplayBody(Some(u2), b2)
    ensures u1 == u2 && b1 == b2
  {
    AuthorTagRoundTrip(u1, b1);
    AuthorTagRoundTrip(u2, b2);
  }

  /** `userName ? author === userName : false`. */
  predicate Owns(userName: Option<string>, author: Option<string>) {
    Truthy(userName) && author == Some(userName.value)
  }

  /** The comparator `(a, b) => a.createdAt - b.createdAt`, read as "a may precede b". */
  function CreatedAtLe(a: ReviewComment, b: ReviewComment): bool {
    a.createdAt <= b.createdAt
  }

  lemma CreatedAtLeTotal()
    ensures Sorting.TotalPreorder(CreatedAtLe)
  {
  }

  /** `comments.sort(byCreatedAt)`. */
  function SortByCreatedAt(comments: seq<ReviewComment>): seq<ReviewComment> {
    Sorting.Sort(comments, CreatedAtLe)
  }

  /**
   * Sorting by creation time returns the same comments, oldest first, with
   * comments created at the same time in their original order.
   */
  lemma SortByCreatedAtSpec(comments: seq<ReviewComment>)
    ensures multiset(SortByCreatedAt(comments)) == multiset(comments)
    ensures forall i, j :: 0 <= i < j < |SortByCreatedAt(comments)| ==>
              SortByCreatedAt(comments)[i].createdAt <= SortByCreatedAt(comments)[j].createdAt
    ensures forall e :: Sorting.Class(SortByCreatedAt(comments), CreatedAtLe, e) ==
                        Sorting.Class(comments, CreatedAtLe, e)
  {
    CreatedAtLeTotal();
    Sorting.SortSpec(comments, CreatedAtLe);
    var r := SortByCreatedAt(comments);
    assert forall i, j :: 0 <= i < j < |r| ==> CreatedAtLe(r[i], r[j]);
  }

  /** The error an adapter's `request` throws for a non-OK response. */
  function ApiError(platform: string, status: int, text: string): Error {
    Error(platform + " API error " + IntToString(status) + ": " + text)
  }

  /** One call of an adapter's `request`: the request sent and the decoded body or the error. */
  function Call<T>(a: Adapter, platform: string, verb: Verb, path: string, body: Option<Json>,
                   resp: Response<T>): (x: Exchange<T>)
    ensures x.sent == [Request(verb, a.baseUrl + path, a.token, body)]
    ensures x.result.Success? <==> resp.Ok?
    ensures resp.Ok? ==> x.result.value == resp.value
    ensures resp.Failed? ==> x.result.error == ApiError(platform, resp.status, resp.text)
  {
    Exchange([Request(verb, a.baseUrl + path, a.token, body)],
             match resp
             case Ok(v) => Success(v)
             case Failed(status, text) => Failure(ApiError(platform, status, text)))
  }
}
