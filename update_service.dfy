/**
 * The update check against the release feed: a cached answer that is
 * still fresh is returned as it is; otherwise the latest release is asked
 * for and turned into update information, or into nothing on any failure.
 */
module UpdateService {
  import opened Wrappers
  import opened Text
  import opened Versions

  /** The repository asked about and how long a cached answer stays valid. */
  datatype UpdateConfig = UpdateConfig(repoOwner: string, repoName: string, cacheDurationSeconds: real)

  /** The service's defaults: this repository, and six hours of cache. */
  const DEFAULT_CONFIG := UpdateConfig("jony-zhou", "overtime-assistant", 6.0 * 3600.0)

  /** One release asset; a missing key is `None`. */
  datatype Asset = Asset(name: Option<string>, downloadUrl: Option<string>)

  /** The fields of the latest-release answer that are read; a missing key is `None`. */
  datatype Release = Release(
    tagName: Option<string>,
    body: Option<string>,
    htmlUrl: Option<string>,
    publishedAt: Option<string>,
    assets: seq<Asset>)

  /** The update information returned and cached; `cachedAt` is missing only in a foreign cache file. */
  datatype UpdateInfo = UpdateInfo(
    hasUpdate: bool,
    latestVersion: string,
    currentVersion: string,
    releaseNotes: string,
    downloadUrl: string,
    publishedAt: string,
    cachedAt: Option<string>)

  /**
   * What the request gave: an exception, or a status code with the body as
   * a release (`None` when the body is not one).
   */
  datatype Response = Timeout | ConnectionError | RequestError | OtherError | Status(code: int, release: Option<Release>)

  function ReleasesUrl(config: UpdateConfig): string
  {
    "https://github.com/" + config.repoOwner + "/" + config.repoName + "/releases"
  }

  /** The asset name lower-cased ends with ".exe". */
  predicate IsExe(a: Asset)
  {
    EndsWith(Lower(a.name.GetOr("")), ".exe")
  }

  /** The position of the first executable asset. */
  function FirstExe(assets: seq<Asset>): (k: Option<nat>)
    ensures k.None? <==> forall j :: 0 <= j < |assets| ==> !IsExe(assets[j])
    ensures k.Some? ==> k.value < |assets| && IsExe(assets[k.value]) &&
                        forall j :: 0 <= j < k.value ==> !IsExe(assets[j])
  {
    if assets == [] then None
    else if IsExe(assets[0]) then Some(0)
    else
      var rest := assets[1..];
      var k := FirstExe(rest);
      assert forall j :: 1 <= j < |assets| ==> assets[j] == rest[j - 1];
      if k.None? then None else Some(k.value + 1)
  }

  /** `_get_windows_exe_url` */
  function GetWindowsExeUrl(config: UpdateConfig, release: Release): (url: string)
  {
    var k := FirstExe(release.assets);
    if k.Some? then release.assets[k.value].downloadUrl.GetOr("")
    else release.htmlUrl.GetOr(ReleasesUrl(config))
  }

  /**
   * The link is the first executable's download link; without an
   * executable it is the release page, or the repository's releases page.
   */
  lemma WindowsExeUrlChoice(config: UpdateConfig, release: Release)
    ensures forall k :: 0 <= k < |release.assets| && IsExe(release.assets[k]) &&
                        (forall j :: 0 <= j < k ==> !IsExe(release.assets[j])) ==>
              GetWindowsExeUrl(config, release) == release.assets[k].downloadUrl.GetOr("")
    ensures (forall j :: 0 <= j < |release.assets| ==> !IsExe(release.assets[j])) ==>
              GetWindowsExeUrl(config, release) == release.htmlUrl.GetOr(ReleasesUrl(config))
  {
    forall k | 0 <= k < |release.assets| && IsExe(release.assets[k]) &&
               (forall j :: 0 <= j < k ==> !IsExe(release.assets[j]))
      ensures GetWindowsExeUrl(config, release) == release.assets[k].downloadUrl.GetOr("")
    {
      FirstExeIsFirst(release.assets, k);
    }
  }

  /** The first executable is found at its own position. */
  lemma FirstExeIsFirst(assets: seq<Asset>, k: nat)
    requires k < |assets| && IsExe(assets[k])
    requires forall j :: 0 <= j < k ==> !IsExe(assets[j])
    ensures FirstExe(assets) == Some(k)
  {
    var first := FirstExe(assets);
    assert first.Some?;
    assert !(first.value < k) && !(k < first.value);
  }

  /**
   * `_is_cache_valid`: a missing or empty `cachedAt`, or one that does not
   * parse as a timestamp, is stale; otherwise the age must be strictly
   * under the cache duration.
   */
  predicate IsCacheValid(config: UpdateConfig, info: UpdateInfo, now: real, parseTimestamp: string -> Option<real>)
  {
    info.cachedAt.Some? && info.cachedAt.value != "" &&
    parseTimestamp(info.cachedAt.value).Some? &&
    now - parseTimestamp(info.cachedAt.value).value < config.cacheDurationSeconds
  }

  /** The cache is valid from its timestamp until just before the duration has passed. */
  lemma CacheWindow(config: UpdateConfig, info: UpdateInfo, at: real, parseTimestamp: string -> Option<real>)
    requires info.cachedAt.Some? && info.cachedAt.value != "" && parseTimestamp(info.cachedAt.value) == Some(at)
    ensures forall now :: IsCacheValid(config, info, now, parseTimestamp) <==> now < at + config.cacheDurationSeconds
    ensures !IsCacheValid(config, info, at + config.cacheDurationSeconds, parseTimestamp)
  {
  }

  lemma MissingTimestampIsStale(config: UpdateConfig, info: UpdateInfo, now: real, parseTimestamp: string -> Option<real>)
    requires info.cachedAt.None? || info.cachedAt == Some("") || parseTimestamp(info.cachedAt.value).None?
    ensures !IsCacheValid(config, info, now, parseTimestamp)
  {
  }

  /** The update information made from a release answer, or `None` when its tag is empty. */
  function InfoOf(config: UpdateConfig, release: Release, nowText: string): (r: Option<UpdateInfo>)
  {
    var latest := LStripChar(release.tagName.GetOr(""), 'v');
    if latest == "" then None
    else Some(UpdateInfo(
      IsNewerVersion(VERSION, latest), latest, VERSION,
      release.body.GetOr(""), GetWindowsExeUrl(config, release),
      release.publishedAt.GetOr(""), Some(nowText)))
  }

  /**
   * `check_for_updates`: the loaded cache if still valid, else the answer
   * to the request; 404, an error status, a body that is not a release, an
   * empty tag and every exception give `None`.
   */
  function CheckForUpdates(config: UpdateConfig, cache: Option<UpdateInfo>, now: real, nowText: string,
                           parseTimestamp: string -> Option<real>, response: Response): (r: Option<UpdateInfo>)
  {
    if cache.Some? && IsCacheValid(config, cache.value, now, parseTimestamp) then cache
    else
      match response
      case Status(code, release) =>
        if code == 404 || (400 <= code < 600) || release.None? then None
        else InfoOf(config, release.value, nowText)
      case _ => None
  }

  /** A valid cache is returned unchanged, whatever the request would have given. */
  lemma CacheServedFirst(config: UpdateConfig, cache: Option<UpdateInfo>, now: real, nowText: string,
                         parseTimestamp: string -> Option<real>, response: Response, other: Response)
    requires cache.Some? && IsCacheValid(config, cache.value, now, parseTimestamp)
    ensures CheckForUpdates(config, cache, now, nowText, parseTimestamp, response) == cache
    ensures CheckForUpdates(config, cache, now, nowText, parseTimestamp, response)
         == CheckForUpdates(config, cache, now, nowText, parseTimestamp, other)
  {
  }

  /** Without a valid cache, failures give `None`. */
  lemma FailuresGiveNothing(config: UpdateConfig, cache: Option<UpdateInfo>, now: real, nowText: string,
                            parseTimestamp: string -> Option<real>, response: Response)
    requires cache.None? || !IsCacheValid(config, cache.value, now, parseTimestamp)
    requires !response.Status? || response.code == 404 || 400 <= response.code < 600 || response.release.None? ||
             LStripChar(response.release.value.tagName.GetOr(""), 'v') == ""
    ensures CheckForUpdates(config, cache, now, nowText, parseTimestamp, response) == None
  {
  }

  /**
   * Without a valid cache, a release answer gives fresh information: the
   * tag without its leading `v`s, whether it is newer than this version,
   * the download link and the time of the check.
   */
  lemma FreshInformation(config: UpdateConfig, cache: Option<UpdateInfo>, now: real, nowText: string,
                         parseTimestamp: string -> Option<real>, release: Release)
    requires cache.None? || !IsCacheValid(config, cache.value, now, parseTimestamp)
    requires LStripChar(release.tagName.GetOr(""), 'v') != ""
    ensures forall code :: code != 404 && !(400 <= code < 600) ==>
              var r := CheckForUpdates(config, cache, now, nowText, parseTimestamp, Status(code, Some(release)));
              var latest := LStripChar(release.tagName.GetOr(""), 'v');
              r.Some? &&
              r.value.latestVersion == latest && latest[0] != 'v' &&
              r.value.hasUpdate == IsNewerVersion(VERSION, latest) &&
              r.value.currentVersion == VERSION &&
              r.value.downloadUrl == GetWindowsExeUrl(config, release) &&
              r.value.cachedAt == Some(nowText)
  {
  }

  /** A tag "v" + a version above the current one reports an update. */
  lemma NewerTagHasUpdate(config: UpdateConfig, release: Release, nowText: string, v: Version)
    requires Less(GetCurrentVersion(), v)
    requires release.tagName == Some("v" + ToString(v))
    ensures InfoOf(config, release, nowText).Some?
    ensures InfoOf(config, release, nowText).value.hasUpdate
    ensures InfoOf(config, release, nowText).value.latestVersion == ToString(v)
  {
    LStripVs("v", ToString(v));
    IsNewerVersionOf(GetCurrentVersion(), v);
  }

  /** A tag naming the current version reports no update. */
  lemma SameTagNoUpdate(config: UpdateConfig, release: Release, nowText: string)
    requires release.tagName == Some("v" + VERSION)
    ensures InfoOf(config, release, nowText).Some?
    ensures !InfoOf(config, release, nowText).value.hasUpdate
  {
    LStripVs("v", ToString(GetCurrentVersion()));
    IsNewerVersionOf(GetCurrentVersion(), GetCurrentVersion());
  }
}
