/**
 * The configuration read from `.docshub.yml`: per-repo validation and
 * defaults, lookup by name, and the one-slot cache in front of loading.
 * Reading and parsing the file are not modelled: the loader is given whether
 * the file exists and what the YAML parser returned.
 */
module Config {
  import opened Wrappers

  const DefaultCacheDir := ".docshub-cache"
  const DefaultDocsDir := "docs"
  const DefaultBranch := "main"
  const DefaultAuthMode := "token"

  /** One repository entry; `platform` is the entry's `type` field. */
  datatype RepoConfig = RepoConfig(
    name: string,
    platform: string,
    url: Option<string>,
    path: Option<string>,
    docsDir: Option<string>,
    defaultBranch: Option<string>,
    token: Option<string>,
    authMode: Option<string>)

  datatype DocsHubConfig = DocsHubConfig(repos: seq<RepoConfig>, cacheDir: Option<string>)

  /** A repo entry as parsed, every field possibly missing. */
  datatype RawRepo = RawRepo(
    name: Option<string>,
    platform: Option<string>,
    url: Option<string>,
    path: Option<string>,
    docsDir: Option<string>,
    defaultBranch: Option<string>,
    token: Option<string>,
    authMode: Option<string>)

  datatype RawConfig = RawConfig(repos: Option<seq<RawRepo>>, cacheDir: Option<string>)

  /** The configuration file: missing, or present with what the parser returned (`null` for an empty document). */
  datatype ConfigFile = Missing | Present(parsed: Option<RawConfig>)

  function MissingNameError(): Error {
    Error("Each repo must have a `name` field")
  }

  function MissingTypeError(name: string): Error {
    Error("Repo \"" + name + "\" must have a `type` field")
  }

  /** `normalizeRepo`: name and type are required (name checked first); three fields get defaults. */
  function NormalizeRepo(raw: RawRepo): (r: Result<RepoConfig, Error>)
    ensures !Truthy(raw.name) ==> r == Failure(MissingNameError())
    ensures Truthy(raw.name) && !Truthy(raw.platform) ==> r == Failure(MissingTypeError(raw.name.value))
    ensures r.Success? <==> Truthy(raw.name) && Truthy(raw.platform)
    ensures r.Success? ==>
              && r.value.name == raw.name.value && r.value.platform == raw.platform.value
              && r.value.url == raw.url && r.value.path == raw.path && r.value.token == raw.token
              && r.value.docsDir == Some(raw.docsDir.GetOr(DefaultDocsDir))
              && r.value.defaultBranch == Some(raw.defaultBranch.GetOr(DefaultBranch))
              && r.value.authMode == Some(raw.authMode.GetOr(DefaultAuthMode))
  {
    if !Truthy(raw.name) then Failure(MissingNameError())
    else if !Truthy(raw.platform) then Failure(MissingTypeError(raw.name.value))
    else Success(RepoConfig(raw.name.value, raw.platform.value, raw.url, raw.path,
                            Some(raw.docsDir.GetOr(DefaultDocsDir)),
                            Some(raw.defaultBranch.GetOr(DefaultBranch)),
                            raw.token,
                            Some(raw.authMode.GetOr(DefaultAuthMode))))
  }

  /** A normalized entry seen again as raw input. */
  function AsRaw(c: RepoConfig): RawRepo {
    RawRepo(Some(c.name), Some(c.platform), c.url, c.path, c.docsDir, c.defaultBranch, c.token, c.authMode)
  }

  /** Normalizing is idempotent: a normalized entry normalizes to itself. */
  lemma NormalizeIdempotent(raw: RawRepo)
    requires NormalizeRepo(raw).Success?
    ensures NormalizeRepo(AsRaw(NormalizeRepo(raw).value)) == NormalizeRepo(raw)
  {
  }

  /** Supplied optional fields are kept as they are; missing ones take their defaults. */
  lemma NormalizeDefaults(raw: RawRepo)
    requires NormalizeRepo(raw).Success?
    ensures raw.docsDir.Some? ==> NormalizeRepo(raw).value.docsDir == raw.docsDir
    ensures raw.docsDir.None? ==> NormalizeRepo(raw).value.docsDir == Some("docs")
    ensures raw.defaultBranch.None? ==> NormalizeRepo(raw).value.defaultBranch == Some("main")
    ensures raw.authMode.None? ==> NormalizeRepo(raw).value.authMode == Some("token")
    ensures raw.authMode.Some? ==> NormalizeRepo(raw).value.authMode == raw.authMode
  {
  }

  /** `repos.map(normalizeRepo)`: the first entry that fails decides the error. */
  function NormalizeAll(raws: seq<RawRepo>): (r: Result<seq<RepoConfig>, Error>)
    ensures r.Success? <==> forall i :: 0 <= i < |raws| ==> NormalizeRepo(raws[i]).Success?
    ensures r.Success? ==> |r.value| == |raws|
    ensures r.Success? ==> forall i :: 0 <= i < |raws| ==> NormalizeRepo(raws[i]) == Success(r.value[i])
    ensures r.Failure? ==> exists i :: 0 <= i < |raws| && NormalizeRepo(raws[i]) == Failure(r.error)
                                       && forall j :: 0 <= j < i ==> NormalizeRepo(raws[j]).Success?
  {
    if |raws| == 0 then Success([])
    else
      match NormalizeRepo(raws[0])
      case Failure(e) => Failure(e)
      case Success(first) =>
        match NormalizeAll(raws[1..])
        case Failure(e) =>
          var k :| 0 <= k < |raws[1..]| && NormalizeRepo(raws[1..][k]) == Failure(e)
                   && forall j :: 0 <= j < k ==> NormalizeRepo(raws[1..][j]).Success?;
          assert NormalizeRepo(raws[k + 1]) == Failure(e);
          Failure(e)
        case Success(rest) => Success([first] + rest)
  }

  /** `getConfig` past its cache: defaults for a missing file, a missing repo list and a missing cache directory. */
  function Load(file: ConfigFile): (r: Result<DocsHubConfig, Error>)
    ensures file.Missing? ==> r == Success(DocsHubConfig([], Some(DefaultCacheDir)))
    ensures file.Present? && file.parsed.None? ==> r.Failure?
    ensures file.Present? && file.parsed.Some? ==>
              var p := file.parsed.value;
              && (r.Success? <==> NormalizeAll(p.repos.GetOr([])).Success?)
              && (r.Success? ==> r.value.repos == NormalizeAll(p.repos.GetOr([])).value
                                 && r.value.cacheDir == Some(p.cacheDir.GetOr(DefaultCacheDir)))
  {
    match file
    case Missing => Success(DocsHubConfig([], Some(DefaultCacheDir)))
    case Present(None) => Failure(Error("Cannot read properties of null (reading 'repos')"))
    case Present(Some(p)) =>
      var repos :- NormalizeAll(p.repos.GetOr([]));
      Success(DocsHubConfig(repos, Some(p.cacheDir.GetOr(DefaultCacheDir))))
  }

  /** Every loaded configuration names its cache directory, and every repo has its defaults filled in. */
  lemma LoadComplete(file: ConfigFile)
    requires Load(file).Success?
    ensures Load(file).value.cacheDir.Some?
    ensures forall c :: c in Load(file).value.repos ==>
              c.docsDir.Some? && c.defaultBranch.Some? && c.authMode.Some? && c.name != "" && c.platform != ""
  {
    if file.Present? {
      var raws := file.parsed.value.repos.GetOr([]);
      var repos := NormalizeAll(raws).value;
      forall c | c in repos
        ensures c.docsDir.Some? && c.defaultBranch.Some? && c.authMode.Some? && c.name != "" && c.platform != ""
      {
        var i :| 0 <= i < |repos| && repos[i] == c;
        assert NormalizeRepo(raws[i]) == Success(c);
      }
    }
  }

  /** Index of the first repo with the given name (`Array.prototype.find`). */
  function FindRepo(repos: seq<RepoConfig>, name: string): (r: Option<nat>)
    ensures r.None? <==> forall i :: 0 <= i < |repos| ==> repos[i].name != name
    ensures r.Some? ==> r.value < |repos| && repos[r.value].name == name
                        && forall j :: 0 <= j < r.value ==> repos[j].name != name
  {
    if |repos| == 0 then None
    else if repos[0].name == name then Some(0)
    else
      match FindRepo(repos[1..], name)
      case None => None
      case Some(k) => Some(k + 1)
  }

  function NotFoundError(name: string): Error {
    Error("Repo \"" + name + "\" not found in configuration")
  }

  /** `getRepoConfig`: the first repo with that name; throws when there is none. */
  function GetRepoConfig(name: string, config: DocsHubConfig): (r: Result<RepoConfig, Error>)
    ensures r.Failure? <==> forall i :: 0 <= i < |config.repos| ==> config.repos[i].name != name
    ensures r.Failure? ==> r.error == NotFoundError(name)
    ensures r.Success? ==> exists i :: 0 <= i < |config.repos| && config.repos[i] == r.value
                                       && r.value.name == name
                                       && forall j :: 0 <= j < i ==> config.repos[j].name != name
  {
    match FindRepo(config.repos, name)
    case None => Failure(NotFoundError(name))
    case Some(i) => Success(config.repos[i])
  }

  /** The module-level `cachedConfig` and the two functions that read and clear it. */
  class ConfigCache {
    var cached: Option<DocsHubConfig>

    constructor()
      ensures cached == None
    {
      cached := None;
    }

    /**
     * `getConfig`: a cached configuration is returned unchanged; otherwise
     * the file is loaded and, if that succeeds, cached. A load that throws
     * leaves the cache empty.
     */
    method GetConfig(file: ConfigFile) returns (r: Result<DocsHubConfig, Error>)
      modifies this
      ensures old(cached).Some? ==> r == Success(old(cached).value) && cached == old(cached)
      ensures old(cached).None? ==> r == Load(file)
      ensures old(cached).None? ==> cached == if r.Success? then Some(r.value) else None
    {
      if cached.Some? {
        return Success(cached.value);
      }
      r := Load(file);
      if r.Success? {
        cached := Some(r.value);
      }
    }

    /** `resetConfigCache`: the next `getConfig` loads again. */
    method Reset()
      modifies this
      ensures cached == None
    {
      cached := None;
    }
  }

  /** Once a configuration is cached, a later call returns it whatever the file now says. */
  method CacheHit(file1: ConfigFile, file2: ConfigFile) returns (first: Result<DocsHubConfig, Error>, second: Result<DocsHubConfig, Error>)
    ensures first == Load(file1)
    ensures first.Success? ==> second == first
    ensures first.Failure? ==> second == Load(file2)
  {
    var cache := new ConfigCache();
    first := cache.GetConfig(file1);
    second := cache.GetConfig(file2);
  }

  /** After a reset, the next call loads the file again. */
  method ResetReloads(file1: ConfigFile, file2: ConfigFile) returns (first: Result<DocsHubConfig, Error>, second: Result<DocsHubConfig, Error>)
    ensures first == Load(file1)
    ensures second == Load(file2)
  {
    var cache := new ConfigCache();
    first := cache.GetConfig(file1);
    cache.Reset();
    second := cache.GetConfig(file2);
  }
}
