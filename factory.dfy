/**
 * `createReviewProvider`: picks the token a repository's reviews are made
 * with (the signed-in user's OAuth token, or the repository's service
 * token) and builds the adapter for the repository's platform.
 */
module ReviewFactory {
  import opened Wrappers
  import opened ReviewTypes
  import Config
  import GitHub
  import GitLab
  import Bitbucket
  import Uri
  import Strings

  /** The adapter built for a repository, one alternative per platform. */
  datatype Provider =
    | GitHubProvider(adapter: Adapter)
    | GitLabProvider(adapter: Adapter)
    | BitbucketProvider(adapter: Adapter)

  /** The repository's `type` that selects this adapter. */
  function PlatformOf(p: Provider): string {
    match p
    case GitHubProvider(_) => "github"
    case GitLabProvider(_) => "gitlab"
    case BitbucketProvider(_) => "bitbucket"
  }

  /** The OAuth token is used only in "oauth" mode and only when both a token and a provider are present. */
  predicate UseOAuth(cfg: Config.RepoConfig, oauthToken: Option<string>, oauthProvider: Option<string>) {
    cfg.authMode == Some("oauth") && Truthy(oauthToken) && Truthy(oauthProvider)
  }

  function ActiveToken(cfg: Config.RepoConfig, oauthToken: Option<string>, oauthProvider: Option<string>): Option<string> {
    if UseOAuth(cfg, oauthToken, oauthProvider) then oauthToken else cfg.token
  }

  /** The user whose name tags the comments: only an OAuth user; a service token acts untagged. */
  function ActingUser(cfg: Config.RepoConfig, oauthToken: Option<string>, oauthProvider: Option<string>,
                      oauthUserName: Option<string>): Option<string> {
    if UseOAuth(cfg, oauthToken, oauthProvider) then oauthUserName else None
  }

  /** The Bitbucket base URL: the origin of the repository URL when one is set, the adapter's default otherwise. */
  function BitbucketBase(url: Option<string>): (r: Result<Option<string>, Error>)
    ensures !Truthy(url) ==> r == Success(None)
    ensures Truthy(url) ==> (r.Success? <==> Uri.Origin(url.value).Some?)
    ensures Truthy(url) && r.Success? ==> r.value == Uri.Origin(url.value)
  {
    if !Truthy(url) then Success(None)
    else
      match Uri.Origin(url.value)
      case None => Failure(Error("Invalid URL"))
      case Some(o) => Success(Some(o))
  }

  /**
   * `createReviewProvider`: `None` (the source's `null`) when no token is
   * available or the platform has no review support; an error only when a
   * Bitbucket repository's URL does not parse.
   */
  function CreateReviewProvider(cfg: Config.RepoConfig, oauthToken: Option<string>, oauthProvider: Option<string>,
                                oauthUserName: Option<string>): (r: Result<Option<Provider>, Error>)
    ensures !Truthy(ActiveToken(cfg, oauthToken, oauthProvider)) ==> r == Success(None)
    ensures cfg.platform !in {"github", "gitlab", "bitbucket"} ==> r == Success(None)
    ensures r.Failure? <==> Truthy(ActiveToken(cfg, oauthToken, oauthProvider)) && cfg.platform == "bitbucket"
                            && Truthy(cfg.url) && Uri.Origin(cfg.url.value).None?
    ensures r.Success? && r.value.Some? ==>
              && PlatformOf(r.value.value) == cfg.platform
              && r.value.value.adapter.token == ActiveToken(cfg, oauthToken, oauthProvider).value
              && r.value.value.adapter.userName == ActingUser(cfg, oauthToken, oauthProvider, oauthUserName)
    ensures r.Success? && r.value.Some? && cfg.platform == "github" ==> r.value.value.adapter.baseUrl == GitHub.DefaultBaseUrl
    ensures r.Success? && r.value.Some? && cfg.platform == "gitlab" ==> r.value.value.adapter.baseUrl == GitLab.DefaultBaseUrl
    ensures r.Success? && r.value.Some? && cfg.platform == "bitbucket" ==>
              r.value.value.adapter.baseUrl == if Truthy(cfg.url) then Uri.Origin(cfg.url.value).value else Bitbucket.DefaultBaseUrl
  {
    var token := ActiveToken(cfg, oauthToken, oauthProvider);
    var user := ActingUser(cfg, oauthToken, oauthProvider, oauthUserName);
    if !Truthy(token) then Success(None)
    else if cfg.platform == "github" then Success(Some(GitHubProvider(GitHub.New(token.value, None, user))))
    else if cfg.platform == "gitlab" then Success(Some(GitLabProvider(GitLab.New(token.value, None, user))))
    else if cfg.platform == "bitbucket" then
      var base :- BitbucketBase(cfg.url);
      Success(Some(BitbucketProvider(Bitbucket.New(token.value, base, user))))
    else Success(None)
  }

  /** In "oauth" mode with an OAuth token and provider, the adapter acts as the OAuth user, whatever the service token is. */
  lemma OAuthActsAsUser(cfg: Config.RepoConfig, oauthToken: string, oauthProvider: string, oauthUserName: Option<string>)
    requires cfg.authMode == Some("oauth") && oauthToken != "" && oauthProvider != ""
    requires cfg.platform in {"github", "gitlab"}
    ensures var r := CreateReviewProvider(cfg, Some(oauthToken), Some(oauthProvider), oauthUserName);
            r.Success? && r.value.Some? && r.value.value.adapter == Adapter(oauthToken, r.value.value.adapter.baseUrl, oauthUserName)
  {
  }

  /**
   * Outside "oauth" mode, or without both OAuth values, the service token is
   * used and comments go out untagged; no service token means no provider.
   */
  lemma ServiceTokenUntagged(cfg: Config.RepoConfig, oauthToken: Option<string>, oauthProvider: Option<string>,
                             oauthUserName: Option<string>)
    requires !UseOAuth(cfg, oauthToken, oauthProvider)
    ensures var r := CreateReviewProvider(cfg, oauthToken, oauthProvider, oauthUserName);
            && (!Truthy(cfg.token) ==> r == Success(None))
            && (r.Success? && r.value.Some? ==> r.value.value.adapter.token == cfg.token.value
                                                && r.value.value.adapter.userName == None)
  {
  }

  /** The OAuth provider's name is only tested for presence: any two non-empty names give the same adapter. */
  lemma ProviderNameIgnored(cfg: Config.RepoConfig, oauthToken: Option<string>, p1: string, p2: string,
                            oauthUserName: Option<string>)
    requires p1 != "" && p2 != ""
    ensures CreateReviewProvider(cfg, oauthToken, Some(p1), oauthUserName)
         == CreateReviewProvider(cfg, oauthToken, Some(p2), oauthUserName)
  {
  }

  /**
   * A Bitbucket repository configured with its https clone URL gets that
   * URL's scheme and host as the adapter's base URL: the web host, not the
   * adapter's default API base with its version path.
   */
  lemma BitbucketCloneUrlBase(cfg: Config.RepoConfig, host: string, path: string)
    requires cfg.platform == "bitbucket" && cfg.authMode != Some("oauth") && Truthy(cfg.token)
    requires host != "" && '/' !in host && '?' !in host && '#' !in host && '@' !in host
    requires |path| > 0 && path[0] == '/'
    requires cfg.url == Some("https://" + host + path)
    ensures CreateReviewProvider(cfg, None, None, None)
            == Success(Some(BitbucketProvider(Adapter(cfg.token.value, "https://" + host, None))))
    ensures "https://" + host != Bitbucket.DefaultBaseUrl
  {
    OriginOfHttpsUrl(host, path);
    var d := Bitbucket.DefaultBaseUrl;
    var b := "https://" + host;
    if |b| == |d| {
      assert d[25] == '/';
      assert b[25] == host[17] != '/';
    }
  }

  /** An https URL whose host has no user info and is followed by a path has that scheme and host as its origin. */
  lemma OriginOfHttpsUrl(host: string, path: string)
    requires host != "" && '/' !in host && '?' !in host && '#' !in host && '@' !in host
    requires |path| > 0 && path[0] == '/'
    ensures Uri.Origin("https://" + host + path) == Some("https://" + host)
  {
    Uri.OriginWithoutUserInfo("https://", host, path);
  }
}
