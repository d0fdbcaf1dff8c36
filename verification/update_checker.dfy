/** `UpdateChecker`: one check of the releases feed as a single state
    transition of the checker's published state and the update preferences,
    plus dismissing an offered update and the launch-time check. */
module UpdateChecker {
  import opened Wrappers
  import Versions
  import opened Releases
  import opened Fetch
  import opened Changelog
  import opened AppSettings

  /** The checker's published properties, and the last value sent on each of
      its two subjects: `availablePublished` for `updateAvailablePublisher`,
      `versionPublished` for `updateVersionPublisher`. */
  datatype CheckerState = CheckerState(
    isChecking: bool,
    latestRelease: Option<GitHubRelease>,
    updateAvailable: bool,
    changelog: Option<string>,
    lastError: Option<CheckError>,
    availablePublished: bool,
    versionPublished: Option<string>)

  /** The checker as the shared instance starts: nothing known, both
      subjects at their initial values. */
  function InitialCheckerState(): CheckerState
  {
    CheckerState(false, None, false, None, None, false, None)
  }

  /** The checker together with the preferences it reads and writes. */
  datatype Session = Session(checker: CheckerState, prefs: UpdatePreferences)

  /** Everything a check takes from outside: whether the feed URL builds, the
      feed response, the bundle's version string, the current time in
      seconds, the preferred languages, the changelog downloads, and the
      localized comparison of prerelease strings. */
  datatype Host = Host(
    urlBuilds: bool,
    feed: FeedResponse,
    appVersion: Option<string>,
    now: int,
    preferredLanguages: seq<string>,
    download: Asset -> Option<string>,
    prereleaseLess: (string, string) -> bool)

  /** A release the current preference allows to be offered. */
  predicate Eligible(r: GitHubRelease, includePrerelease: bool)
  {
    includePrerelease || !IsPrerelease(r)
  }

  /** `releases.filter { !$0.isPrerelease }`: the stable releases, in feed
      order. */
  function StableReleases(releases: seq<GitHubRelease>): (stable: seq<GitHubRelease>)
    ensures forall k :: 0 <= k < |stable| ==> !IsPrerelease(stable[k])
    ensures forall k :: 0 <= k < |releases| && !IsPrerelease(releases[k]) ==> releases[k] in stable
    ensures forall k :: 0 <= k < |stable| ==> stable[k] in releases
    ensures |stable| <= |releases|
  {
    if |releases| == 0 then []
    else
      var rest := StableReleases(releases[1..]);
      assert forall k :: 0 <= k < |releases| - 1 ==> releases[1..][k] == releases[k + 1];
      if IsPrerelease(releases[0]) then rest else [releases[0]] + rest
  }

  /** The filter keeps the feed order and repeats: filtering a feed is
      filtering its parts and putting them back together. */
  lemma {:induction false} StableReleasesAppend(a: seq<GitHubRelease>, b: seq<GitHubRelease>)
    ensures StableReleases(a + b) == StableReleases(a) + StableReleases(b)
  {
    if |a| == 0 {
      assert a + b == b;
    } else {
      assert (a + b)[1..] == a[1..] + b;
      StableReleasesAppend(a[1..], b);
    }
  }

  /** The releases that may be offered, in feed order, never re-sorted. */
  function EligibleReleases(releases: seq<GitHubRelease>, includePrerelease: bool): (eligible: seq<GitHubRelease>)
    ensures includePrerelease ==> eligible == releases
    ensures forall k :: 0 <= k < |eligible| ==> eligible[k] in releases && Eligible(eligible[k], includePrerelease)
    ensures forall k :: 0 <= k < |releases| && Eligible(releases[k], includePrerelease) ==> releases[k] in eligible
  {
    if includePrerelease then releases else StableReleases(releases)
  }

  /** `eligibleReleases.first`. */
  function SelectRelease(releases: seq<GitHubRelease>, includePrerelease: bool): (r: Option<GitHubRelease>)
    ensures r.Some? ==> r.value in releases && Eligible(r.value, includePrerelease)
    ensures r.None? <==> forall k :: 0 <= k < |releases| ==> !Eligible(releases[k], includePrerelease)
  {
    var eligible := EligibleReleases(releases, includePrerelease);
    if |eligible| == 0 then None else Some(eligible[0])
  }

  /** The chosen release is the first eligible one in feed order. */
  lemma {:induction false} SelectReleaseIsFirstEligible(releases: seq<GitHubRelease>, includePrerelease: bool, i: int)
    requires 0 <= i < |releases| && Eligible(releases[i], includePrerelease)
    requires forall j :: 0 <= j < i ==> !Eligible(releases[j], includePrerelease)
    ensures SelectRelease(releases, includePrerelease) == Some(releases[i])
  {
    if !includePrerelease && i > 0 {
      assert IsPrerelease(releases[0]);
      assert forall j :: 0 <= j < i - 1 ==> releases[1..][j] == releases[j + 1];
      SelectReleaseIsFirstEligible(releases[1..], includePrerelease, i - 1);
    }
  }

  /** What the feed decides: no candidate, or the chosen release and whether
      it is offered as an update. */
  datatype Decision = NoCandidate | Candidate(release: GitHubRelease, hasUpdate: bool)

  /** The guard and the `hasUpdate` computation of `checkForUpdates`: a
      candidate needs an eligible release whose tag parses and a parseable
      installed version; it is an update when it is newer than the
      installed version and its tag is not the dismissed one. */
  function Decide(releases: seq<GitHubRelease>, includePrerelease: bool, appVersion: Option<string>,
                  dismissed: Option<string>, prereleaseLess: (string, string) -> bool): (d: Decision)
    ensures d.Candidate? ==> SelectRelease(releases, includePrerelease) == Some(d.release)
    ensures d.NoCandidate? <==>
      || SelectRelease(releases, includePrerelease).None?
      || Version(SelectRelease(releases, includePrerelease).value).None?
      || Versions.InstalledVersion(appVersion).None?
    ensures d.Candidate? ==>
      (d.hasUpdate <==>
        && Versions.Greater(Version(d.release).value, Versions.InstalledVersion(appVersion).value, prereleaseLess)
        && dismissed != Some(d.release.tagName))
  {
    match SelectRelease(releases, includePrerelease)
    case None => NoCandidate
    case Some(latest) =>
      match (Version(latest), Versions.InstalledVersion(appVersion))
      case (Some(latestVersion), Some(currentVersion)) =>
        Candidate(latest, Versions.Greater(latestVersion, currentVersion, prereleaseLess) && dismissed != Some(latest.tagName))
      case _ => NoCandidate
  }

  /** The result of one check: the new session and whether it threw. */
  datatype CheckResult = CheckResult(session: Session, outcome: Outcome<CheckError>)

  /** `checkForUpdates()` as one transition. A fetch error is stored and
      rethrown with nothing else changed; a feed without a usable candidate
      clears `latestRelease` and `updateAvailable` only; otherwise the
      candidate is recorded, both subjects are sent, the check time is
      stored and, for an update, the changelog is replaced. `isChecking` is
      false on every exit. */
  function CheckForUpdates(s: Session, host: Host): (r: CheckResult)
    ensures !r.session.checker.isChecking
    ensures r.outcome.Fail? <==> FetchReleases(host.urlBuilds, host.feed).Failure?
    ensures r.outcome.Fail? ==>
      && r.outcome.error == FetchReleases(host.urlBuilds, host.feed).error
      && r.session == Session(s.checker.(isChecking := false, lastError := Some(r.outcome.error)), s.prefs)
    ensures r.outcome.Pass? ==> r.session.checker.lastError.None?
    ensures r.session.prefs == s.prefs.(lastCheckTimestamp := r.session.prefs.lastCheckTimestamp)
    ensures r.outcome.Pass? && r.session.checker.updateAvailable ==>
      && r.session.checker.latestRelease.Some?
      && r.session.checker.availablePublished
      && r.session.checker.versionPublished == Some(r.session.checker.latestRelease.value.tagName)
      && s.prefs.dismissedVersion != Some(r.session.checker.latestRelease.value.tagName)
    ensures r.session.checker.changelog != s.checker.changelog ==> r.session.checker.updateAvailable
    ensures r.session.prefs.lastCheckTimestamp != s.prefs.lastCheckTimestamp ==>
      r.session.prefs.lastCheckTimestamp == Some(host.now) && r.session.checker.latestRelease.Some?
  {
    match FetchReleases(host.urlBuilds, host.feed)
    case Failure(e) =>
      CheckResult(Session(s.checker.(isChecking := false, lastError := Some(e)), s.prefs), Fail(e))
    case Success(releases) =>
      match Decide(releases, s.prefs.includePrerelease, host.appVersion, s.prefs.dismissedVersion, host.prereleaseLess)
      case NoCandidate =>
        var checker := s.checker.(isChecking := false, lastError := None, updateAvailable := false, latestRelease := None);
        CheckResult(Session(checker, s.prefs), Pass)
      case Candidate(latest, hasUpdate) =>
        var changelog :=
          if hasUpdate then FetchLocalizedChangelog(latest, host.preferredLanguages, host.download)
          else s.checker.changelog;
        var checker := CheckerState(
          isChecking := false,
          latestRelease := Some(latest),
          updateAvailable := hasUpdate,
          changelog := changelog,
          lastError := None,
          availablePublished := hasUpdate,
          versionPublished := if hasUpdate then Some(latest.tagName) else None);
        CheckResult(Session(checker, s.prefs.(lastCheckTimestamp := Some(host.now))), Pass)
  }

  /** `dismissCurrentUpdate()`: remember the known release's tag as
      dismissed and withdraw the offer; nothing happens when no release is
      known. */
  function DismissCurrentUpdate(s: Session): (r: Session)
    ensures s.checker.latestRelease.None? ==> r == s
    ensures s.checker.latestRelease.Some? ==>
      && r.prefs == s.prefs.(dismissedVersion := Some(s.checker.latestRelease.value.tagName))
      && r.checker == s.checker.(updateAvailable := false, availablePublished := false, versionPublished := None)
  {
    match s.checker.latestRelease
    case None => s
    case Some(release) =>
      Session(
        s.checker.(updateAvailable := false, availablePublished := false, versionPublished := None),
        s.prefs.(dismissedVersion := Some(release.tagName)))
  }

  /** The `shouldCheck` test of `checkOnLaunchIfNeeded()`, with the
      automatic-check switch: never checked, or at least one interval has
      passed since the last check (the boundary counts). */
  function LaunchCheckDue(prefs: UpdatePreferences, now: int): (due: bool)
    ensures due <==> (prefs.autoCheckUpdates
      && (prefs.lastCheckTimestamp.None? || prefs.lastCheckTimestamp.value + TimeInterval(prefs.checkInterval) <= now))
  {
    && prefs.autoCheckUpdates
    && (prefs.lastCheckTimestamp.None? || now - prefs.lastCheckTimestamp.value >= TimeInterval(prefs.checkInterval))
  }

  /** `checkOnLaunchIfNeeded()`: runs a check when one is due and drops its
      error (it stays visible in `lastError`). */
  function CheckOnLaunchIfNeeded(s: Session, host: Host): (r: Session)
    ensures !LaunchCheckDue(s.prefs, host.now) ==> r == s
    ensures LaunchCheckDue(s.prefs, host.now) ==> r == CheckForUpdates(s, host).session
  {
    if LaunchCheckDue(s.prefs, host.now) then CheckForUpdates(s, host).session else s
  }

  /** What every transition keeps: no check is left running, the two
      subjects agree with each other, and an offered update is the known
      release, announced on both subjects and not the dismissed one. */
  predicate Consistent(c: CheckerState, prefs: UpdatePreferences)
  {
    && !c.isChecking
    && (c.availablePublished <==> c.versionPublished.Some?)
    && (c.updateAvailable ==>
          && c.latestRelease.Some?
          && c.availablePublished
          && c.versionPublished == Some(c.latestRelease.value.tagName)
          && prefs.dismissedVersion != Some(c.latestRelease.value.tagName))
  }

  lemma InitiallyConsistent(prefs: UpdatePreferences)
    ensures Consistent(InitialCheckerState(), prefs)
  {
  }

  lemma CheckPreservesConsistency(s: Session, host: Host)
    requires Consistent(s.checker, s.prefs)
    ensures Consistent(CheckForUpdates(s, host).session.checker, CheckForUpdates(s, host).session.prefs)
  {
  }

  lemma DismissPreservesConsistency(s: Session)
    requires Consistent(s.checker, s.prefs)
    ensures Consistent(DismissCurrentUpdate(s).checker, DismissCurrentUpdate(s).prefs)
  {
  }

  lemma LaunchPreservesConsistency(s: Session, host: Host)
    requires Consistent(s.checker, s.prefs)
    ensures Consistent(CheckOnLaunchIfNeeded(s, host).checker, CheckOnLaunchIfNeeded(s, host).prefs)
  {
    CheckPreservesConsistency(s, host);
  }

  /** An offered update is an eligible release of the feed whose version is
      strictly newer than the installed one. */
  lemma OfferedOnlyIfNewer(s: Session, host: Host)
    requires CheckForUpdates(s, host).outcome.Pass?
    requires CheckForUpdates(s, host).session.checker.updateAvailable
    ensures var latest := CheckForUpdates(s, host).session.checker.latestRelease.value;
      && FetchReleases(host.urlBuilds, host.feed).Success?
      && latest in FetchReleases(host.urlBuilds, host.feed).value
      && Eligible(latest, s.prefs.includePrerelease)
      && Version(latest).Some?
      && Versions.InstalledVersion(host.appVersion).Some?
      && Versions.Greater(Version(latest).value, Versions.InstalledVersion(host.appVersion).value, host.prereleaseLess)
  {
  }

  /** With prereleases excluded, a check never records a prerelease. */
  lemma PrereleaseNeverChosenWhenExcluded(s: Session, host: Host)
    requires !s.prefs.includePrerelease
    requires CheckForUpdates(s, host).outcome.Pass?
    requires CheckForUpdates(s, host).session.checker.latestRelease.Some?
    ensures !IsPrerelease(CheckForUpdates(s, host).session.checker.latestRelease.value)
  {
  }

  /** A release whose tag is the dismissed version is recorded but never
      offered. */
  lemma DismissedReleaseNotOffered(s: Session, host: Host, releases: seq<GitHubRelease>)
    requires FetchReleases(host.urlBuilds, host.feed) == Success(releases)
    requires SelectRelease(releases, s.prefs.includePrerelease).Some?
    requires s.prefs.dismissedVersion == Some(SelectRelease(releases, s.prefs.includePrerelease).value.tagName)
    ensures !CheckForUpdates(s, host).session.checker.updateAvailable
  {
    var d := Decide(releases, s.prefs.includePrerelease, host.appVersion, s.prefs.dismissedVersion, host.prereleaseLess);
    assert d.Candidate? ==> !d.hasUpdate;
  }

  /** Dismissing and then checking again while the feed still leads with the
      same release offers nothing. */
  lemma DismissThenRecheck(s: Session, host: Host, releases: seq<GitHubRelease>)
    requires s.checker.latestRelease.Some?
    requires FetchReleases(host.urlBuilds, host.feed) == Success(releases)
    requires SelectRelease(releases, s.prefs.includePrerelease) == s.checker.latestRelease
    ensures !CheckForUpdates(DismissCurrentUpdate(s), host).session.checker.updateAvailable
  {
    DismissedReleaseNotOffered(DismissCurrentUpdate(s), host, releases);
  }

  lemma DismissIdempotent(s: Session)
    ensures DismissCurrentUpdate(DismissCurrentUpdate(s)) == DismissCurrentUpdate(s)
  {
  }

  /** With prereleases included the first release of the feed is chosen,
      whatever it is. */
  lemma SelectWithPrereleasesIsFirst(releases: seq<GitHubRelease>)
    requires |releases| > 0
    ensures SelectRelease(releases, true) == Some(releases[0])
  {
  }

  /** The path past the guard: the candidate is recorded even when it is not
      offered, `updateAvailable` and the availability subject carry the
      decision, the version subject holds the tag exactly for an offer, the
      check time becomes now, and only an offer fetches a new changelog. */
  lemma CandidateRecorded(s: Session, host: Host, releases: seq<GitHubRelease>, latest: GitHubRelease, hasUpdate: bool)
    requires FetchReleases(host.urlBuilds, host.feed) == Success(releases)
    requires Decide(releases, s.prefs.includePrerelease, host.appVersion, s.prefs.dismissedVersion, host.prereleaseLess)
          == Candidate(latest, hasUpdate)
    ensures var r := CheckForUpdates(s, host);
      && r.outcome.Pass?
      && r.session.checker.latestRelease == Some(latest)
      && r.session.checker.updateAvailable == hasUpdate
      && r.session.checker.availablePublished == hasUpdate
      && r.session.checker.versionPublished == (if hasUpdate then Some(latest.tagName) else None)
      && r.session.prefs.lastCheckTimestamp == Some(host.now)
      && r.session.checker.changelog
         == (if hasUpdate then FetchLocalizedChangelog(latest, host.preferredLanguages, host.download) else s.checker.changelog)
  {
  }

  /** The early exit (no eligible release, unparseable tag or unparseable
      installed version) clears `latestRelease` and `updateAvailable` but
      sends nothing on the subjects, keeps the changelog and does not
      record the check time. */
  lemma EarlyExitKeepsSubjects(s: Session, host: Host, releases: seq<GitHubRelease>)
    requires FetchReleases(host.urlBuilds, host.feed) == Success(releases)
    requires Decide(releases, s.prefs.includePrerelease, host.appVersion, s.prefs.dismissedVersion, host.prereleaseLess).NoCandidate?
    ensures var r := CheckForUpdates(s, host).session;
      && r.checker.latestRelease.None?
      && !r.checker.updateAvailable
      && r.checker.availablePublished == s.checker.availablePublished
      && r.checker.versionPublished == s.checker.versionPublished
      && r.checker.changelog == s.checker.changelog
      && r.prefs == s.prefs
  {
  }

  /** Consequence of the early exit: after an update was offered, an empty
      feed leaves the availability subject at true while `updateAvailable`
      is false. */
  lemma StaleSubjectAfterEmptyFeed(s: Session, host: Host)
    requires Consistent(s.checker, s.prefs) && s.checker.updateAvailable
    requires host.urlBuilds && host.feed == HttpResponse(200, Some([]))
    ensures var r := CheckForUpdates(s, host).session;
      && !r.checker.updateAvailable
      && r.checker.availablePublished
      && r.checker.versionPublished == Some(s.checker.latestRelease.value.tagName)
  {
    EarlyExitKeepsSubjects(s, host, []);
  }

  /** After a check that reached a candidate, no launch check is due until a
      full interval has passed. */
  lemma NoRecheckWithinInterval(s: Session, host: Host, later: int)
    requires CheckForUpdates(s, host).session.checker.latestRelease.Some?
    requires CheckForUpdates(s, host).outcome.Pass?
    requires host.now <= later < host.now + TimeInterval(s.prefs.checkInterval)
    ensures !LaunchCheckDue(CheckForUpdates(s, host).session.prefs, later)
  {
  }

  /** The launch check is due exactly from one interval after the last
      check. */
  lemma LaunchDueBoundary(prefs: UpdatePreferences, last: int)
    requires prefs.autoCheckUpdates && prefs.lastCheckTimestamp == Some(last)
    ensures LaunchCheckDue(prefs, last + TimeInterval(prefs.checkInterval))
    ensures !LaunchCheckDue(prefs, last + TimeInterval(prefs.checkInterval) - 1)
  {
  }

  lemma LaunchDueMonotone(prefs: UpdatePreferences, now: int, later: int)
    requires LaunchCheckDue(prefs, now) && now <= later
    ensures LaunchCheckDue(prefs, later)
  {
  }

  lemma WeeklyDueImpliesDailyDue(prefs: UpdatePreferences, now: int)
    requires LaunchCheckDue(prefs.(checkInterval := Weekly), now)
    ensures LaunchCheckDue(prefs.(checkInterval := Daily), now)
  {
  }

  /** With automatic checks switched off the launch check does nothing. */
  lemma AutoCheckOffDoesNothing(s: Session, host: Host)
    requires !s.prefs.autoCheckUpdates
    ensures CheckOnLaunchIfNeeded(s, host) == s
  {
  }

  /** With the default preferences the first launch always checks. */
  lemma FirstLaunchChecks(host: Host)
    ensures var s := Session(InitialCheckerState(), DefaultPreferences());
      CheckOnLaunchIfNeeded(s, host) == CheckForUpdates(s, host).session
  {
  }

  /** A 403 from the feed is rethrown as rate limiting and recorded; the
      check is no longer running. */
  lemma RateLimitedCheck(s: Session, host: Host, decoded: Option<seq<GitHubRelease>>)
    requires host.urlBuilds && host.feed == HttpResponse(403, decoded)
    ensures var r := CheckForUpdates(s, host);
      && r.outcome == Fail(Update(RateLimited))
      && r.session.checker.lastError == Some(Update(RateLimited))
      && !r.session.checker.isChecking
      && r.session.prefs == s.prefs
  {
  }

  /** The feed `[v2.0.0, v1.9.0]` of two stable releases as seen by an
      installed 1.8.0. */
  predicate TwoStableReleasesFeed(host: Host, newest: GitHubRelease, older: GitHubRelease)
  {
    && newest.tagName == "v2.0.0" && !newest.prerelease
    && older.tagName == "v1.9.0" && !older.prerelease
    && host.urlBuilds && host.feed == HttpResponse(200, Some([newest, older]))
    && host.appVersion == Some("1.8.0")
  }

  /** The decision once the chosen release and both versions are known. */
  lemma DecideFromParts(releases: seq<GitHubRelease>, includePrerelease: bool, appVersion: Option<string>,
                        dismissed: Option<string>, prereleaseLess: (string, string) -> bool,
                        latest: GitHubRelease, latestVersion: Versions.SemanticVersion, currentVersion: Versions.SemanticVersion)
    requires SelectRelease(releases, includePrerelease) == Some(latest)
    requires Version(latest) == Some(latestVersion)
    requires Versions.InstalledVersion(appVersion) == Some(currentVersion)
    ensures Decide(releases, includePrerelease, appVersion, dismissed, prereleaseLess)
         == Candidate(latest, Versions.Greater(latestVersion, currentVersion, prereleaseLess) && dismissed != Some(latest.tagName))
  {
  }

  /** The newest stable release of that feed is the candidate, and it is
      newer than the installed version. */
  lemma TwoStableReleasesCandidate(s: Session, host: Host, newest: GitHubRelease, older: GitHubRelease)
    requires TwoStableReleasesFeed(host, newest, older)
    ensures Decide([newest, older], s.prefs.includePrerelease, host.appVersion, s.prefs.dismissedVersion, host.prereleaseLess)
         == Candidate(newest, s.prefs.dismissedVersion != Some("v2.0.0"))
  {
    var inc := s.prefs.includePrerelease;
    HyphenFreeTagIsStable(newest);
    SelectReleaseIsFirstEligible([newest, older], inc, 0);
    Versions.ParseTagV200();
    Versions.ParseVersion180();
    var v200 := Versions.SemanticVersion(2, 0, 0, None);
    var v180 := Versions.SemanticVersion(1, 8, 0, None);
    assert Versions.Greater(v200, v180, host.prereleaseLess);
    DecideFromParts([newest, older], inc, host.appVersion, s.prefs.dismissedVersion, host.prereleaseLess, newest, v200, v180);
  }

  /** Nothing dismissed: v2.0.0 is recorded and offered. */
  lemma NewerStableReleaseOffered(s: Session, host: Host, newest: GitHubRelease, older: GitHubRelease)
    requires TwoStableReleasesFeed(host, newest, older)
    requires s.prefs.dismissedVersion.None?
    ensures var r := CheckForUpdates(s, host);
      && r.outcome.Pass?
      && r.session.checker.updateAvailable
      && r.session.checker.latestRelease == Some(newest)
      && r.session.checker.versionPublished == Some("v2.0.0")
  {
    TwoStableReleasesCandidate(s, host, newest, older);
  }

  /** v2.0.0 dismissed: the release is still recorded but not offered. */
  lemma DismissedNewerReleaseRecorded(s: Session, host: Host, newest: GitHubRelease, older: GitHubRelease)
    requires TwoStableReleasesFeed(host, newest, older)
    requires s.prefs.dismissedVersion == Some("v2.0.0")
    ensures var r := CheckForUpdates(s, host);
      && r.outcome.Pass?
      && !r.session.checker.updateAvailable
      && r.session.checker.latestRelease == Some(newest)
  {
    TwoStableReleasesCandidate(s, host, newest, older);
  }
}
