# docsHub review and documentation core, in Dafny

docsHub serves a repository's Markdown documentation, branch by branch, and
lets readers review it through the pull (merge) requests of the hosting
platform. This project models the parts of it that compute:

- the review-provider adapters for GitHub, GitLab and Bitbucket Cloud
  (`findPR`, `listComments`, `addComment`, `addInlineComment`,
  `submitReview`, `createPR`), each a function from the adapter's fields,
  the call's arguments and the platform's responses to the requests the
  adapter sends (in order) and what it returns or throws;
- `createReviewProvider`, which picks the token and acting user and builds
  one adapter;
- the configuration: `normalizeRepo`, `getRepoConfig`, the defaults of
  `getConfig` over the parsed file, and its one-slot cache;
- `GitService`: the `listBranches` clean-up loop, `buildTree` with its outer
  loop, `sortTree`, and the empty-listing rule of `getTreeAtPath`;
- the Markdown renderer's image `src` rewrite (a class whose method updates
  the token's attributes) and its `highlight` hook (mermaid placeholder,
  escaped fallback);
- the viewer's `escapeHtml`, the choice of comments shown under each block,
  the "+" toggle (a class holding `addingAtLine`), where the add-comment form
  is inserted (a loop over the body's children with the inner sibling walk),
  and what submitting the form sends;
- the sidebar's `isAncestorOf`, a node's initial `open` state and its toggle,
  and a file's link.

Shared pieces sit in their own modules: `Wrappers` (Option, Result),
`Strings` (split, join, trim, integer printing, a code-point order),
`Uri` (`encodeURIComponent` with UTF-8, `decodeURIComponent`, URL origin),
`Html` (per-character escaping and its inverse), `Sorting` (the stable sort
JavaScript's `Array.prototype.sort` performs) and `ReviewTypes` (the shapes
of `src/lib/review/types.ts`, requests, responses, the author tag).

Behaviour of the code worth knowing:

- Comment bodies get the `**[user]:** ` tag only when the adapter has a user
  name, and the factory passes one only on the OAuth path. So the
  service-token path posts untagged bodies (`ReviewFactory.ServiceTokenUntagged`).
- OAuth is used when the OAuth provider string is present. It is never
  compared with the repository's platform (`ReviewFactory.ProviderNameIgnored`).
- Bitbucket is Cloud only. There is no Server variant and no `createPR`, and
  the factory's fourth constructor argument is ignored.
- A Bitbucket adapter built from a repository URL uses that URL's origin as
  its API base. That drops the default's `/2.0` path and the `api.` host
  (`ReviewFactory.BitbucketCloneUrlBase`).
- `findPR` returns the head branch the platform reports. It does not check
  that it equals the branch asked for.
- GitHub inline comments use the GraphQL strategy: a LINE thread first, then
  a FILE thread, and an error only when neither was created.

## Model

| member | source | states |
|---|---|---|
| ReviewTypes.Line.OrElse | src/lib/review/github-provider.ts:68 | `??` falls through for both `undefined` and `null` and keeps a number |
| ReviewTypes.DisplayBody | src/lib/review/github-provider.ts:86 | the posted body is `**[user]:** ` + body when a non-empty user name is set, and the body unchanged otherwise |
| ReviewTypes.AuthorTagRoundTrip | src/lib/review/github-provider.ts:108 | a tagged body reads back as its user name and its original text (for a name without "]") |
| ReviewTypes.AuthorTagDistinguishes | src/lib/review/gitlab-provider.ts:89 | two users sharing one token produce equal posts only when user and body are both equal |
| ReviewTypes.SortByCreatedAtSpec | src/lib/review/github-provider.ts:75-78 | sorting comments by creation time is a permutation, ascending by `createdAt`, and keeps the input order of equal timestamps |
| ReviewTypes.Call | src/lib/review/github-provider.ts:19-36 | one request to base URL + path with the bearer token; the body on OK, else the error "<Platform> API error <status>: <text>" |
| GitHub.New | src/lib/review/github-provider.ts:13-17 | fields as given; an omitted base URL is "https://api.github.com" |
| GitHub.OwnerSpec | src/lib/review/github-provider.ts:39 | the owner holds no "/" and is the whole repo or the part before its first "/" |
| GitHub.HeadFilterSpec | src/lib/review/github-provider.ts:41 | the `head` query value decodes to "owner:branch" and cannot break the query (no "&" or "/") |
| GitHub.ToPullRequest | src/lib/review/github-provider.ts:45-53 | each field comes from its REST counterpart (`head.ref`, `base.ref`, `html_url`) |
| GitHub.FindPR | src/lib/review/github-provider.ts:38-54 | one GET of open PRs filtered by `head`; null iff the list is empty, else the first PR mapped; a non-OK status fails |
| GitHub.ToComment | src/lib/review/github-provider.ts:62-70 | author falls back to "unknown"; only inline comments carry path, and line falling back to `original_line`; `isOwn` iff a user name is set and equals the login |
| GitHub.ListComments | src/lib/review/github-provider.ts:56-79 | both listings are requested; it fails iff one fails (the issue listing's error first); else the issue then review comments, sorted by time |
| GitHub.ListCommentsSpec | src/lib/review/github-provider.ts:72-78 | the result is a permutation of all mapped comments, ascending by time, stable, and only the user's own comments have `isOwn` |
| GitHub.MergedOwnership | src/lib/review/github-provider.ts:69 | every merged comment with `isOwn` was written by the set user name |
| GitHub.ListedLocations | src/lib/review/github-provider.ts:67-68 | issue comments have no path or line; a review comment's null line falls back to `original_line` |
| GitHub.Created | src/lib/review/github-provider.ts:91-97 | a created comment is own and has no path or line |
| GitHub.AddComment | src/lib/review/github-provider.ts:81-98 | one POST of the tagged body to the issue comments; the created comment is own |
| GitHub.GraphqlUrlSpec | src/lib/review/github-provider.ts:113-114 | ".../api/v3" (with or without "/") becomes ".../api/graphql"; the public base (with or without "/") becomes "https://api.github.com/graphql" |
| GitHub.GraphqlUrlOther | src/lib/review/github-provider.ts:113-114 | any other base URL is used unchanged |
| GitHub.CreatedInline | src/lib/review/github-provider.ts:138-146 | the returned comment is own; path and line fall back to the arguments |
| GitHub.ThreadResult | src/lib/review/github-provider.ts:192-198 | GraphQL errors are thrown joined by "; "; otherwise the first node or null |
| GitHub.CreateThread | src/lib/review/github-provider.ts:120-136 | a LINE thread is tried first; the FILE thread (body with the file/line suffix) is sent iff the first gave no errors and no node; the "not in the diff" error iff neither gave a node |
| GitHub.AddInlineComment | src/lib/review/github-provider.ts:100-147 | fetches the PR node id first (a failure stops there), then the thread requests as above; a created comment is own |
| GitHub.InlineFallback | src/lib/review/github-provider.ts:120-136 | without GraphQL errors the call fails iff both threads came back empty, and the LINE thread wins when it exists |
| GitHub.EventNameRoundTrip | src/lib/review/github-provider.ts:206-210 | approve, request_changes and comment map to APPROVE, REQUEST_CHANGES and COMMENT, one event per action |
| GitHub.DraftsJson | src/lib/review/github-provider.ts:217-222 | one JSON comment per draft comment, in order |
| GitHub.SubmitReview | src/lib/review/github-provider.ts:201-225 | exactly one POST to the reviews endpoint whatever the action; it fails iff that does |
| GitHub.ReviewJsonSpec | src/lib/review/github-provider.ts:212-223 | the review carries the body (default "") and the action's event; the comments field is present iff drafts were given |
| GitHub.CreatePR | src/lib/review/github-provider.ts:227-250 | one POST; the title defaults to "Documentation review: <head>"; the response is mapped |
| GitLab.New | src/lib/review/gitlab-provider.ts:13-21 | fields as given; an omitted base URL is "https://gitlab.com/api/v4" |
| GitLab.EncodeRepoSpec | src/lib/review/gitlab-provider.ts:41-43 | the project identifier is one path segment (no "/") that decodes back to the repo |
| GitLab.EncodeRepoSlash | src/lib/review/gitlab-provider.ts:41-43 | "group/project" of unreserved characters becomes "group%2Fproject" |
| GitLab.MapState | src/lib/review/gitlab-provider.ts:55 | "opened" becomes "open"; any other state passes unchanged |
| GitLab.ToPullRequest | src/lib/review/gitlab-provider.ts:51-59 | the number is the MR `iid`; the state is mapped; the branches come from source and target |
| GitLab.FindPR | src/lib/review/gitlab-provider.ts:45-60 | one GET filtered by source branch; null iff the list is empty, else the first MR mapped |
| GitLab.UserNotes | src/lib/review/gitlab-provider.ts:68 | keeps every non-system note as often as it occurs and drops every system note |
| GitLab.ToComment | src/lib/review/gitlab-provider.ts:69-77 | path and line come from the position and are absent without one; `isOwn` iff a user name is set and equals the username |
| GitLab.ListComments | src/lib/review/gitlab-provider.ts:62-82 | one GET of the notes; the result is the user notes mapped and sorted by time |
| GitLab.ListCommentsSpec | src/lib/review/gitlab-provider.ts:67-81 | every non-system note is listed, nothing else is, and the list ascends by time stably |
| GitLab.KeptNotes | src/lib/review/gitlab-provider.ts:67-77 | the mapped comments are exactly those of the non-system notes |
| GitLab.Created | src/lib/review/gitlab-provider.ts:94-100 | a created note is own and has no path or line |
| GitLab.AddComment | src/lib/review/gitlab-provider.ts:84-101 | one POST of the tagged body to the notes |
| GitLab.HeadSha | src/lib/review/gitlab-provider.ts:117 | the caller's commit SHA when given, else the MR's `sha` |
| GitLab.PositionSpec | src/lib/review/gitlab-provider.ts:126-133 | the position is a text position whose base and start SHA are both the diff's base SHA, at the new path and line |
| GitLab.CreatedInline | src/lib/review/gitlab-provider.ts:137-146 | the returned note is own and echoes the argument path and line |
| GitLab.AddInlineComment | src/lib/review/gitlab-provider.ts:103-147 | reads the MR, then POSTs one discussion with the tagged body and the position; it fails iff either call fails |
| GitLab.SubmitReviewDispatch | src/lib/review/gitlab-provider.ts:154-167 | approve calls only the approve endpoint; request changes posts a note; comment posts only a non-empty body, else sends nothing |
| GitLab.RequestChangesNote | src/lib/review/gitlab-provider.ts:159-164 | request changes sends one request, never to approve: a note with the marker text, tagged like any comment |
| GitLab.CreatePR | src/lib/review/gitlab-provider.ts:170-196 | one POST of the MR; the title defaults to "Documentation review: <head>" |
| Bitbucket.New | src/lib/review/bitbucket-provider.ts:13-21 | fields as given; an omitted base URL is "https://api.bitbucket.org/2.0" |
| Bitbucket.MapState | src/lib/review/bitbucket-provider.ts:52 | "OPEN" becomes "open"; other states are lower-cased; the length is kept and no upper-case letter remains |
| Bitbucket.MapStateClosed | src/lib/review/bitbucket-provider.ts:52 | "MERGED" and "DECLINED" become "merged" and "declined" |
| Bitbucket.ToPullRequest | src/lib/review/bitbucket-provider.ts:48-56 | the number is the PR id; the state is mapped; the branches come from source and destination |
| Bitbucket.FindPR | src/lib/review/bitbucket-provider.ts:41-57 | a missing `values` counts as empty; null iff there is no PR, else the first mapped |
| Bitbucket.ToComment | src/lib/review/bitbucket-provider.ts:66-76 | the author is nickname, else display name, else "unknown"; the body is raw, else markup, else ""; path and line come from `inline` |
| Bitbucket.ToCommentSpec | src/lib/review/bitbucket-provider.ts:71-75 | `isOwn` iff a user name is set, the comment names a user, and the author shown is that name; global comments have no path or line |
| Bitbucket.ListComments | src/lib/review/bitbucket-provider.ts:59-81 | one GET; the result is the comments mapped and sorted by time |
| Bitbucket.ListCommentsSpec | src/lib/review/bitbucket-provider.ts:63-80 | a permutation of the mapped comments, ascending and stable; a missing `values` gives [] |
| Bitbucket.Created | src/lib/review/bitbucket-provider.ts:96-102 | a created comment is own; the author is the nickname or "unknown", the body is raw or "" |
| Bitbucket.AddComment | src/lib/review/bitbucket-provider.ts:83-103 | one POST of the tagged body as `content.raw` |
| Bitbucket.AddInlineComment | src/lib/review/bitbucket-provider.ts:105-132 | one POST with the tagged body and `inline` path and line; the result echoes them |
| Bitbucket.SubmitReviewDispatch | src/lib/review/bitbucket-provider.ts:139-151 | approve goes to /approve; request changes goes to /request-changes with the untagged body or ""; comment posts only a non-empty body |
| ReviewFactory.BitbucketBase | src/lib/review/index.ts:30 | no URL gives the adapter default; a URL gives its origin, and an error when it does not parse |
| ReviewFactory.CreateReviewProvider | src/lib/review/index.ts:7-37 | null without a token or for an unsupported type; else the adapter of the repo's type with the active token and acting user |
| ReviewFactory.OAuthActsAsUser | src/lib/review/index.ts:16-18 | in oauth mode, with an OAuth token and provider, the adapter uses the OAuth token and user |
| ReviewFactory.ServiceTokenUntagged | src/lib/review/index.ts:16-20 | otherwise the service token is used with no user name, and no token gives null |
| ReviewFactory.ProviderNameIgnored | src/lib/review/index.ts:16 | any two non-empty OAuth provider names give the same result |
| ReviewFactory.BitbucketCloneUrlBase | src/lib/review/index.ts:27-33 | an https repository URL gives the adapter that URL's scheme and host, which is not the default API base |
| ReviewFactory.OriginOfHttpsUrl | src/lib/review/index.ts:30 | the origin of "https://host/path" is "https://host" |
| Config.NormalizeRepo | src/lib/config.ts:37-51 | fails without a name, then without a type; otherwise copies name, type, url, path and token and defaults docsDir, defaultBranch and authMode |
| Config.NormalizeIdempotent | src/lib/config.ts:37-51 | a normalized entry normalizes to itself |
| Config.NormalizeDefaults | src/lib/config.ts:46-49 | the defaults are "docs", "main" and "token"; supplied values are kept |
| Config.NormalizeAll | src/lib/config.ts:25 | succeeds iff every entry does, one result per entry; else the first failing entry's error |
| Config.Load | src/lib/config.ts:11-30 | a missing file gives no repos and ".docshub-cache"; a missing repo list is empty; a missing cacheDir gets the default |
| Config.LoadComplete | src/lib/config.ts:24-27 | a loaded configuration has a cache directory, and every repo has its defaults, a name and a type |
| Config.FindRepo | src/lib/config.ts:54 | the index of the first repo with that name, or none iff no repo has it |
| Config.GetRepoConfig | src/lib/config.ts:53-57 | the first repo with that name; the "not found" error iff there is none |
| Config.ConfigCache.constructor | src/lib/config.ts:9 | the cache starts empty |
| Config.ConfigCache.GetConfig | src/lib/config.ts:11-30 | a cached value is returned unchanged; otherwise the file is loaded and cached on success |
| Config.ConfigCache.Reset | src/lib/config.ts:33-35 | empties the cache |
| Config.CacheHit | src/lib/config.ts:12 | after a successful load, a second call returns it whatever the file now holds |
| Config.ResetReloads | src/lib/config.ts:33-35 | after a reset, the next call loads the file again |
| GitService.StripRemoteSpec | src/lib/git-service.ts:56-59 | "remotes/<remote>/<branch>" becomes "<branch>"; other names are unchanged |
| GitService.ListBranches | src/lib/git-service.ts:48-72 | the loop computes the branch list of the table, entry by entry |
| GitService.BranchesDistinct | src/lib/git-service.ts:62-68 | no two listed branches share a name |
| GitService.StepExtends | src/lib/git-service.ts:52-69 | each step keeps the list so far as a prefix and adds at most the entry's clean name |
| GitService.BranchesComplete | src/lib/git-service.ts:54-68 | every entry that is not a HEAD reference is listed under its clean name |
| GitService.BranchesFirstWins | src/lib/git-service.ts:62-68 | each listed branch comes from the first non-HEAD entry with that clean name |
| GitService.FindByName | src/lib/git-service.ts:167 | the index of a node with that name, or none iff the level has none |
| GitService.WithDirectory | src/lib/git-service.ts:167-182 | after the lookup-or-create, the level has a node with that segment's name |
| GitService.PlaceBuilds | src/lib/git-service.ts:162-187 | placing a listed file keeps a level well formed and within the listing, and reaches the file by its segments |
| GitService.PlaceLast | src/lib/git-service.ts:165-182 | the last segment adds the file node, or finds it already there |
| GitService.PlaceInner | src/lib/git-service.ts:162-187 | a segment with more to follow descends into its directory node, created if missing |
| GitService.DirectoryReady | src/lib/git-service.ts:167-186 | the node descended into is a directory with a children list |
| GitService.ReplaceChildren | src/lib/git-service.ts:184-186 | writing a directory's new children back keeps the level well formed |
| GitService.PlaceKeeps | src/lib/git-service.ts:167-182 | placing a file keeps every file already reachable |
| GitService.AddFileBuilds | src/lib/git-service.ts:153-187 | one outer iteration places the file and keeps the tree well formed |
| GitService.GrowBuilds | src/lib/git-service.ts:153-188 | the outer loop over a prefix-free listing under the base does not throw and keeps the tree well formed |
| GitService.GrowHasAll | src/lib/git-service.ts:153-188 | after the outer loop every listed file has its node |
| GitService.NodeLeTotal | src/lib/git-service.ts:195-199 | the comparator (directories first, then names) is a total preorder |
| GitService.SortNode | src/lib/git-service.ts:200-203 | sorting below a node keeps its name, path and kind, and whether it has children |
| GitService.SortNodeChildren | src/lib/git-service.ts:202 | a directory's children are the sorted tree of its children |
| GitService.SortTreeAsWritten | src/lib/git-service.ts:193-203 | sorting each node below first and then the level gives what the source's sort-then-map gives |
| GitService.SortTreeMembers | src/lib/git-service.ts:193-203 | a sorted level holds the same nodes, each sorted below, and no others |
| GitService.SortTreeSpec | src/lib/git-service.ts:193-203 | at every level directories precede files and names ascend within a kind; only order changes |
| GitService.SortTreeSorted | src/lib/git-service.ts:193-203 | every level of the sorted tree is ordered |
| GitService.SortTreeOk | src/lib/git-service.ts:193-203 | sorting keeps the tree well formed and within the listing |
| GitService.SortTreeDistinct | src/lib/git-service.ts:193-203 | sorting keeps names distinct on a level |
| GitService.SortTreeHasFile | src/lib/git-service.ts:193-203 | a file reachable before sorting is reachable after it |
| GitService.SortNodeOk | src/lib/git-service.ts:200-203 | sorting below a well-formed node keeps it well formed |
| GitService.SortNodeWithin | src/lib/git-service.ts:200-203 | sorting below a node keeps it within the listing |
| GitService.SortNodeSorted | src/lib/git-service.ts:200-203 | every level below a sorted node is ordered |
| GitService.BuildTree | src/lib/git-service.ts:149-191 | the loop computes the tree of the listing: files added in order, then sorted; a throw ends it |
| GitService.TreeOfSpec | src/lib/git-service.ts:149-191 | a prefix-free listing under the base builds without a throw into a well-formed tree; each file is reached along its segments; every level is sorted |
| GitService.TreeOfFiles | src/lib/git-service.ts:149-191 | the file nodes of the built tree carry exactly the listed paths, each exactly once |
| GitService.LevelPathsUnique | src/lib/git-service.ts:162-187 | in a well-formed level no two file nodes carry the same path, and each lies under one of the level's nodes |
| GitService.HasFileUnique | src/lib/git-service.ts:167-181 | the node a file is reached through is the only node with that name on its level |
| GitService.GetTreeAtPath | src/lib/git-service.ts:80-100 | a failed or blank listing gives the empty tree; otherwise the trimmed lines are built |
| Markdown.RewriteSrc | src/lib/markdown.ts:80-91 | http(s) and root-relative sources are kept; without both repo and branch nothing changes; otherwise the assets URL |
| Markdown.ResolvedPathSpec | src/lib/markdown.ts:88-89 | a source resolves against the file's directory segments, "." and ".." kept; at the root, or without a file, it stays as it is |
| Markdown.AssetUrlSegments | src/lib/markdown.ts:90 | the URL splits into the route, the encoded repo and branch (which decode back) and the unencoded path's segments |
| Markdown.AssetUrlEnds | src/lib/markdown.ts:90 | the URL starts with "/api/repos/" and ends with the resolved path |
| Markdown.AttrIndex | src/lib/markdown.ts:76 | the index of the first attribute with that name, or none iff there is none |
| Markdown.ImageToken.RewriteImage | src/lib/markdown.ts:74-97 | only the first `src` value is rewritten; a token without one is unchanged |
| Markdown.RewriteOnlySrc | src/lib/markdown.ts:77-91 | the new `src` is the old one or an assets URL ending in the resolved path |
| Markdown.MermaidRoundTrip | src/lib/markdown.ts:52-54 | a mermaid block becomes a placeholder whose attribute value holds no '"' and decodes back to the code |
| Markdown.PlaceholderValue | src/lib/markdown.ts:53 | the attribute value is what lies between the placeholder's fixed ends |
| Markdown.FallbackEscaped | src/lib/markdown.ts:56-68 | an unhighlighted block is a plain pre block whose escaped code opens no tag and unescapes to the code |
| MarkdownViewer.EscapeHtmlConcat | src/components/docs/MarkdownViewer.tsx:23-30 | escaping distributes over concatenation |
| MarkdownViewer.EscapeHtmlChar | src/components/docs/MarkdownViewer.tsx:25-29 | one character becomes its reference (& < > " ') or stays itself |
| MarkdownViewer.EscapeHtmlPerChar | src/components/docs/MarkdownViewer.tsx:23-30 | because "&" goes first, the replace chain equals per-character escaping |
| MarkdownViewer.EscapeHtmlSpec | src/components/docs/MarkdownViewer.tsx:23-30 | the output has no raw < > " '; it unescapes to the input; text without the five characters is unchanged |
| MarkdownViewer.FileComments | src/components/docs/MarkdownViewer.tsx:186 | keeps exactly the comments on the viewed file, with their multiplicity |
| MarkdownViewer.BlockComments | src/components/docs/MarkdownViewer.tsx:221-224 | keeps exactly the comments shown under the block, with their multiplicity |
| MarkdownViewer.BlockCommentsSpec | src/components/docs/MarkdownViewer.tsx:221-224 | a comment shows under a block iff it is on the file and its line is a number in range (a null line counts as 0); never without a line |
| MarkdownViewer.Toggle | src/components/docs/MarkdownViewer.tsx:215 | closes the form iff it is open at that line; otherwise opens it there |
| MarkdownViewer.ToggleTwice | src/components/docs/MarkdownViewer.tsx:215 | the same "+" twice restores the open/closed state; two different buttons leave it at the second |
| MarkdownViewer.CommentFormState.constructor | src/components/docs/MarkdownViewer.tsx:69 | no form is open initially |
| MarkdownViewer.CommentFormState.PlusClicked | src/components/docs/MarkdownViewer.tsx:212-216 | a click applies the toggle to the open line |
| MarkdownViewer.CommentFormState.Reset | src/components/docs/MarkdownViewer.tsx:75-77 | showing another file closes the form |
| MarkdownViewer.FormAnchor | src/components/docs/MarkdownViewer.tsx:266-291 | the form goes after the first block starting at the open line and after every comment group directly after it; none iff no such block |
| MarkdownViewer.Submit | src/components/docs/MarkdownViewer.tsx:373-380 | nothing is sent for a blank body or without a review; else the trimmed body (an infix with only whitespace around it) at the form's file and line |
| DocsSidebar.IsAncestorOf | src/components/layout/DocsSidebar.tsx:153-161 | an ancestor has a children list and a path that prefixes the active path character by character |
| DocsSidebar.AncestorIsBelow | src/components/layout/DocsSidebar.tsx:153-161 | in any tree, a node that is an ancestor has the active path somewhere below it |
| DocsSidebar.BelowExtends | src/components/layout/DocsSidebar.tsx:154 | in a built tree every path below a node extends the node's path and "/" |
| DocsSidebar.BelowIsAncestor | src/components/layout/DocsSidebar.tsx:154-158 | in a built tree the prefix test never prunes a path that lies below |
| DocsSidebar.AncestorIffBelow | src/components/layout/DocsSidebar.tsx:153-161 | in a built tree a node is an ancestor iff some node below it has the path |
| DocsSidebar.NotOwnAncestor | src/components/layout/DocsSidebar.tsx:153-161 | a node's own path does not make it an ancestor |
| DocsSidebar.InitiallyOpen | src/components/layout/DocsSidebar.tsx:84-87 | with an active path, open iff an ancestor of it; without one, open iff at depth 0 |
| DocsSidebar.TreeNodeView.constructor | src/components/layout/DocsSidebar.tsx:84-87 | the node starts in its initial open state |
| DocsSidebar.TreeNodeView.Toggle | src/components/layout/DocsSidebar.tsx:95 | a click flips `open` |
| DocsSidebar.FileHrefRoundTrip | src/components/layout/DocsSidebar.tsx:133-134 | the link splits into the route, the encoded repo and branch and one encoded segment per path segment; each decodes back and they join to the path |
| Uri.EncodeDecodeRoundTrip | src/components/docs/MarkdownViewer.tsx:134-135 | decoding an encoded string gives it back |
| Uri.Utf8RoundTrip | src/components/docs/MarkdownViewer.tsx:135 | each character's UTF-8 bytes decode back to it, with the length its lead byte announces |
| Uri.EncodeChars | src/lib/review/gitlab-provider.ts:41-43 | encoded text holds only unreserved characters and "%", so no "/" |
| Uri.EncodeUnreserved | src/lib/review/gitlab-provider.ts:41-43 | text of unreserved characters is left as it is |
| Uri.EncodeConcat | src/lib/review/gitlab-provider.ts:41-43 | encoding distributes over concatenation |
| Uri.EncodeSlash | src/lib/review/gitlab-provider.ts:41-43 | "/" is encoded as "%2F" |
| Uri.DecodeEncodedSegments | src/components/layout/DocsSidebar.tsx:134 | encoded segments decode back to the segments |
| Uri.Origin | src/lib/review/index.ts:30 | an origin, when computed, is an http(s) scheme followed by a non-empty host without "/" or "@" |
| Uri.OriginOf | src/lib/review/index.ts:30 | the origin of an http(s) URL is the scheme plus the host and port of its authority (up to the first "/", "?" or "#"), and none when that is empty |
| Uri.HostPortAfterAt | src/lib/review/index.ts:30 | user info is dropped through the last "@" of the authority |
| Uri.OriginWithUserInfo | src/lib/review/index.ts:30 | "scheme://user@host/path" has the origin "scheme://host" |
| Uri.OriginWithoutUserInfo | src/lib/review/index.ts:30 | "scheme://host/path" has the origin "scheme://host" |
| Strings.SplitJoin | src/components/layout/DocsSidebar.tsx:133-134 | joining separator-free parts and splitting again gives the parts |
| Strings.JoinSplit | src/components/layout/DocsSidebar.tsx:133-134 | splitting and joining again gives the string |
| Strings.TrimSpec | src/lib/git-service.ts:93 | the trimmed text is an infix with only whitespace around it; it is empty iff the text is all whitespace |
| Strings.IntToStringRoundTrip | src/lib/review/github-provider.ts:58 | the printed PR number parses back to the number |
| Strings.LexLeTotal | src/lib/git-service.ts:198 | the name order is total |
| Strings.LexLeTransitive | src/lib/git-service.ts:198 | the name order is transitive |
| Strings.LexLeAntisymmetric | src/lib/git-service.ts:198 | names that order both ways are equal |
| Strings.ToLowerAscii | src/lib/review/bitbucket-provider.ts:52 | each character is lower-cased in place, and the length is kept |
| Html.UnescapeEscape | src/lib/markdown.ts:68 | escaped code unescapes to the code |
| Html.EscapeNoRaw | src/lib/markdown.ts:68 | escaped code holds no raw "<", ">" or '"' |
| Sorting.SortSpec | src/lib/review/github-provider.ts:75-78 | the sort is a permutation, ordered, and stable (each class of equal keys keeps its order) |
| Sorting.SortStable | src/lib/review/gitlab-provider.ts:78-81 | elements the comparator ranks equal keep their relative order |
| Sorting.SortMap | src/lib/git-service.ts:200-203 | mapping before or after sorting gives the same result when the map keeps the order |

## Left out

- HTTP, `fetch`, JSON decoding, git, simple-git, the filesystem, YAML parsing and `child_process` are I/O. Each response, branch table, listing or parsed configuration is a parameter; a non-OK status is the `Failed` response.
- `sync`, `readFile`, `readFileBuffer`, `isAvailable` and `getDocsTree`'s `docsDir` default are git plumbing with no computation of their own.
- `Promise.all` in GitHub `listComments` is modelled as two given responses. Timing and cancellation are not modelled. So when both listings fail, GitHub.ListComments always reports the issue listing's error, where the source rejects with whichever error arrives first.
- `new Date(...).getTime()` is not modelled: `createdAt` is an integer timestamp.
- GitService.NodeLeTotal: `localeCompare` is replaced by the code-point order `Strings.LexLe`, because locale collation is library behaviour.
- ReviewFactory.BitbucketBase: the base is `Uri.Origin` of the repository URL, not the origin `new URL` gives, with the differences listed under Uri.Origin. So a URL that `new URL` rejects (a port that is not a number or is above 65535, a space or other forbidden character in the host) still gives a Bitbucket adapter here, where the source throws "Invalid URL". A URL the model refuses (any scheme but a lower-case "http://" or "https://", such as "HTTPS://", or "https:///host") gives the "Invalid URL" error, where `new URL` would give an origin.
- Uri.Origin: the host and port of the authority are taken as written. They are neither checked nor normalised, so the origin differs from the URL standard's in these ways. Only a lower-case "http://" or "https://" prefix is accepted: an upper-case scheme, "\\" in place of "/", and extra slashes as in "https:///host" are refused. Surrounding whitespace and tabs or newlines inside the URL are not removed. A port that is not a number or is out of range is kept instead of rejected. An empty port keeps its ":", and a port with leading zeros or a default port is not rewritten. A host holding a space or another forbidden character is kept instead of rejected. Hosts are not lower-cased, percent-decoded or converted to punycode (IDNA), and IPv4 and IPv6 addresses are not normalised.
- GitLab.PositionSpec: a SHA that is `null` in the merge request (`sha` or `diff_refs.base_sha`) is `None` here, and the position then omits that field, where `JSON.stringify` sends it as `null`.
- Uri.EncodeURIComponent: a Dafny `char` is a Unicode scalar value, so a lone UTF-16 surrogate cannot occur, and the URIError `encodeURIComponent` throws for one is not modelled.
- Bitbucket.MapState: `toLowerCase` is modelled for ASCII letters only.
- The Bitbucket constructor's ignored fourth argument is not modelled, since it has no effect.
- GitService.BuildTree: the descent into the tree is modelled on values, not on shared arrays. A node's children are found by name in the current level; in a tree built from a listing, that equals the source's map keyed by accumulated path. An input with an empty segment or a path repeated under another prefix is handled by name, not by the source's map.
- GitService.SortTreeAsWritten: the in-place sort of a level is modelled as a sort of values. The mutated input array is discarded by `buildTree`, so the mutation is not visible to callers.
- The `null` an absent attribute list gives in markdown-it is modelled as an empty attribute list.
- markdown-it's own rendering, shiki's highlighting (its output is a parameter) and the renderer cache in `getMarkdown` are foreign libraries or memoization.
- Mermaid rendering, the fullscreen overlay, the annotations' DOM building and the CSS class toggles of the viewer are DOM work.
- MarkdownViewer.FormAnchor: `parseInt` of a block's line attribute is taken as already parsed. A block without a parsable line never matches.
- MarkdownViewer.BlockComments: the block's line range is taken as already parsed. A `NaN` range, which shows no comment, is not modelled.
- The sidebar's tree fetch, the `key` props and the router push are React and network glue.
- GitHub's file-thread suffix and error text contain double-encoded characters in the source file. They are modelled with the code points as written.
