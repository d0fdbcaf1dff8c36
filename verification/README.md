# FinderSnap update checker in Dafny

FinderSnap is a macOS menu-bar utility. At launch, when a day or a week
(the chosen interval) has passed since the last check, and whenever the
user asks, it checks the GitHub releases feed of its own repository for a
newer release. There is no timer: a running app does not check again by
itself. This project models that update checker as
pure functions over immutable data and proves properties of them.

The model covers these parts of the checker:

- **Versions.** `SemanticVersion`: parsing a release tag with Swift's
  library behaviour reproduced, writing a version back, and the `<` and `==`
  operators.
- **Releases.** The `version` and `isPrerelease` attributes of a
  `GitHubRelease`.
- **Fetch.** How the outcome of the feed request maps onto `UpdateError`.
- **UpdateChecker.** The state changes of `checkForUpdates()`,
  `dismissCurrentUpdate()` and `checkOnLaunchIfNeeded()`, with the
  published state and the two Combine subjects kept as one record.
- **Changelog.** Choosing the changelog language, the asset search and the
  fallback to the release body.
- **AppSettings.** The update preferences and the check interval.

Modules, one per file:

| file | module | contents |
|---|---|---|
| `wrappers.dfy` | `Wrappers` | `Option`, `Result`, `Outcome` |
| `text.dfy` | `Text` | Swift/Foundation string operations: `firstIndex(of:)`, `split` that drops empty pieces, `contains`, `hasPrefix`, ASCII `lowercased()`, `replacingOccurrences` of one character |
| `swift_int.dfy` | `SwiftInt` | 64-bit `Int(String)` (optional sign, range check) and `"\(n)"` |
| `versions.dfy` | `Versions` | `SemanticVersion`, `init?(string:)`, `description`, `<`, `>`, `==`, `Bundle.semanticVersion` |
| `releases.dfy` | `Releases` | `GitHubRelease`, `Asset`, `version`, `isPrerelease` |
| `fetch.dfy` | `Fetch` | `UpdateError`, `fetchReleases()` outcome mapping |
| `app_settings.dfy` | `AppSettings` | `UpdateCheckInterval`, update preference defaults |
| `changelog.dfy` | `Changelog` | `resolveChangelogLanguage`, priority list, asset match, body fallback |
| `update_checker.dfy` | `UpdateChecker` | checker state, selection, `checkForUpdates`, dismiss, launch check |

Everything outside the program is an explicit input:

- the network response;
- whether the feed URL builds;
- the bundle version string;
- the current time, in whole seconds;
- the preferred languages;
- the download of an asset, as a function from asset to optional text;
- Foundation's `localizedStandardCompare` on prerelease strings, as a
  function from two strings to a boolean.

Four behaviours of the code worth knowing, all reproduced by the model:

- **Transport errors are not mapped.** When `URLSession` itself throws,
  `fetchReleases` does not map the error to a network failure.
  `checkForUpdates` stores and rethrows the original error.
  (`UpdateChecker.swift:128`, modelled as `CheckError.Transport`.)
- **The early exit does not record the check time.** The last-check time is
  written only when a candidate release was found. A feed with no eligible
  release, an unparseable tag or an unparseable bundle version leaves it
  unchanged (`UpdateChecker.swift:71-89`).
- **The early exit does not send on the subjects.** That same exit clears
  `updateAvailable` and `latestRelease` without sending on
  `updateAvailablePublisher`. If an update had been offered before, the
  subject still says one is available (`StaleSubjectAfterEmptyFeed`).
- **The old changelog is kept when there is no update.** The changelog is
  replaced only when an update is offered, so a check that finds nothing
  new leaves the previous text in place.

## Model

| member | source | states |
|---|---|---|
| Text.FirstIndexOf | FinderSnap/FinderSnap/Core/GitHubRelease.swift:84 | the result is the position of the first occurrence, with none before it; none exactly when the character does not occur |
| Text.Split | FinderSnap/FinderSnap/Core/GitHubRelease.swift:87-89 | every piece is non-empty and free of the separator, and there are at most as many pieces as characters |
| Text.SplitJoin | FinderSnap/FinderSnap/Core/GitHubRelease.swift:87-89 | splitting separator-joined non-empty, separator-free pieces gives the pieces back |
| Text.SplitAround | FinderSnap/FinderSnap/Core/GitHubRelease.swift:87-89 | splitting `x + sep + y` is splitting `x` then splitting `y` |
| Text.SplitDoubleSeparator | FinderSnap/FinderSnap/Core/GitHubRelease.swift:87-89 | two separators in a row split like one: empty pieces are omitted |
| Text.ContainsIffOccurs | FinderSnap/FinderSnap/Core/GitHubRelease.swift:49-51 | `contains` holds exactly when the substring occurs at some index |
| Text.Lowercased | FinderSnap/FinderSnap/Core/UpdateChecker.swift:176 | same length as the input, and no upper-case ASCII letter remains |
| Text.LowercasedIdempotent | FinderSnap/FinderSnap/Core/UpdateChecker.swift:176 | lowercasing twice is lowercasing once |
| Text.ReplaceChar | FinderSnap/FinderSnap/Core/UpdateChecker.swift:194 | same length; every occurrence of the character becomes the replacement and every other character is kept |
| SwiftInt.ParseInt | FinderSnap/FinderSnap/Core/GitHubRelease.swift:94-95 | a result fits a 64-bit `Int`, comes from a non-empty string starting with a digit or sign and ending with a digit, and is non-negative unless the string starts with `-` |
| SwiftInt.ParseUnsigned | FinderSnap/FinderSnap/Core/GitHubRelease.swift:94-95 | a digit string whose value fits reads as that value |
| SwiftInt.ParseNegative | FinderSnap/FinderSnap/Core/GitHubRelease.swift:94-95 | `-` before a digit string reads as the negated value when it fits |
| SwiftInt.ParseRejectsNonDigit | FinderSnap/FinderSnap/Core/GitHubRelease.swift:94-102 | a character other than a digit or a leading sign makes the whole string fail, so `"3a"` is nil |
| SwiftInt.LoneSignRejected | FinderSnap/FinderSnap/Core/GitHubRelease.swift:94-95 | a sign with no digit after it, `"+"` or `"-"`, is nil |
| SwiftInt.ParsePlusSign | FinderSnap/FinderSnap/Core/GitHubRelease.swift:94-95 | a leading `+` is accepted and reads like the digits alone |
| SwiftInt.ParsePlusFive | FinderSnap/FinderSnap/Core/GitHubRelease.swift:94-95 | `Int("+5")` is 5 |
| SwiftInt.ParseOverflow | FinderSnap/FinderSnap/Core/GitHubRelease.swift:94-95 | a digit string above `Int.max` is rejected rather than wrapped |
| SwiftInt.ParseNegativeOverflow | FinderSnap/FinderSnap/Core/GitHubRelease.swift:94-95 | a negated digit string below `Int.min` is rejected |
| SwiftInt.Describe | FinderSnap/FinderSnap/Core/GitHubRelease.swift:68 | non-empty and dot-free; starts with a digit exactly for non-negative numbers, which have no `-` and no leading `v` |
| SwiftInt.ParseDescribe | FinderSnap/FinderSnap/Core/GitHubRelease.swift:68 | reading back the decimal form of any 64-bit integer gives that integer |
| Versions.Description | FinderSnap/FinderSnap/Core/GitHubRelease.swift:67-73 | a representable version is written starting with a digit and holds a hyphen exactly when it has a prerelease part |
| Versions.Parse | FinderSnap/FinderSnap/Core/GitHubRelease.swift:75-104 | a parsed version has components in 0..Int.max and is a prerelease exactly when the tag has a hyphen |
| Versions.StripVPrefix | FinderSnap/FinderSnap/Core/GitHubRelease.swift:76-79 | the result is the input, or the input without one leading `v`/`V` |
| Versions.ParseJoined | FinderSnap/FinderSnap/Core/GitHubRelease.swift:93-103 | a version part parses iff it has two integer components; patch is the third component's value or 0; further components are ignored; the prerelease is kept |
| Versions.ParsePrerelease | FinderSnap/FinderSnap/Core/GitHubRelease.swift:84-86 | the prerelease text is everything after the first hyphen, later hyphens included |
| Versions.ParseNeedsDot | FinderSnap/FinderSnap/Core/GitHubRelease.swift:93-98 | a tag with no dot never parses (`"1"`, `"abc"`) |
| Versions.ParseDropsEmptyPieces | FinderSnap/FinderSnap/Core/GitHubRelease.swift:87 | a doubled dot in the version part parses like a single dot |
| Versions.ParseNonNumericPatch | FinderSnap/FinderSnap/Core/GitHubRelease.swift:102 | `1.2.3a` parses as 1.2.0: a non-integer patch becomes 0 |
| Versions.ParseDescription | FinderSnap/FinderSnap/Core/GitHubRelease.swift:67-104 | parsing the description of a representable version gives the version back |
| Versions.ParsedRoundTrip | FinderSnap/FinderSnap/Core/GitHubRelease.swift:67-104 | any parsed tag re-parses from its description to an `==` version |
| Versions.ParseIgnoresOnePrefix | FinderSnap/FinderSnap/Core/GitHubRelease.swift:77-79 | a single leading `v` or `V` (not followed by another) does not change the parse |
| Versions.DoublePrefixRejected | FinderSnap/FinderSnap/Core/GitHubRelease.swift:77-79 | only one prefix letter is stripped: `vv…` never parses |
| Versions.DescribeBetaTag | FinderSnap/FinderSnap/Core/GitHubRelease.swift:67-73 | 1.2.3 with prerelease `beta` is written `1.2.3-beta` |
| Versions.ParseTagV200 | FinderSnap/FinderSnap/Core/GitHubRelease.swift:75-104 | `v2.0.0` parses to 2.0.0 with no prerelease |
| Versions.ParseVersion180 | FinderSnap/FinderSnap/Core/GitHubRelease.swift:75-104 | `1.8.0` parses to 1.8.0 with no prerelease |
| Versions.InstalledVersion | FinderSnap/FinderSnap/Core/GitHubRelease.swift:143-147 | with a bundle version string the installed version is that string's parse; without one there is none |
| Versions.Less | FinderSnap/FinderSnap/Core/GitHubRelease.swift:113-131 | different cores compare lexicographically by (major, minor, patch); on equal cores a stable lhs is never smaller, a prerelease is smaller than the stable release, and two prereleases compare by the localized comparison |
| Versions.Greater | FinderSnap/FinderSnap/Core/UpdateChecker.swift:80 | `>` mirrors `<`: different cores by reverse lexicographic order; on equal cores a stable release is greater than a prerelease, nothing is greater than a stable one, and two prereleases compare by the localized comparison reversed |
| Versions.Equal | FinderSnap/FinderSnap/Core/GitHubRelease.swift:133-138 | `==` holds exactly when all four fields are equal |
| Versions.LessIsStrictOrder | FinderSnap/FinderSnap/Core/GitHubRelease.swift:113-131 | if the prerelease comparison is a strict order, `<` is irreflexive, asymmetric and transitive |
| Versions.EqualNotLess | FinderSnap/FinderSnap/Core/GitHubRelease.swift:113-138 | `==` versions are never `<` each other |
| Versions.LessTrichotomy | FinderSnap/FinderSnap/Core/GitHubRelease.swift:113-138 | if the prerelease comparison is total, exactly one of `<`, `==`, `>` holds |
| Releases.Version | FinderSnap/FinderSnap/Core/GitHubRelease.swift:43-45 | a release's version is the parse of its tag; it is representable and has a prerelease part exactly when the tag has a hyphen |
| Releases.IsPrerelease | FinderSnap/FinderSnap/Core/GitHubRelease.swift:47-52 | a prerelease iff flagged or the tag contains `-beta`, `-rc` or `-alpha`; an unflagged prerelease's tag has a hyphen |
| Releases.IsPrereleaseIffMarked | FinderSnap/FinderSnap/Core/GitHubRelease.swift:47-52 | a release is a prerelease iff flagged or one of `-beta`, `-rc`, `-alpha` occurs in its tag |
| Releases.MarkedTagParsesAsPrerelease | FinderSnap/FinderSnap/Core/GitHubRelease.swift:43-52 | a marked tag that parses yields a version with a prerelease part |
| Releases.PrereleaseKeptByLongerTag | FinderSnap/FinderSnap/Core/GitHubRelease.swift:47-52 | appending text to the tag of a prerelease keeps it a prerelease |
| Releases.HyphenFreeTagIsStable | FinderSnap/FinderSnap/Core/GitHubRelease.swift:47-52 | an unflagged release whose tag has no hyphen is stable |
| Fetch.FetchReleases | FinderSnap/FinderSnap/Core/UpdateChecker.swift:123-149 | success iff the URL builds, status 200 and the body decodes; one iff per error: bad URL, transport error passed on, 403 rate limited, any other status or a non-HTTP response a network error, undecodable body a parse error; never `noValidRelease` |
| AppSettings.FromRawValue | FinderSnap/FinderSnap/App/AppState.swift:21-22 | defined exactly for raw values 0 and 1, and the inverse of the raw value |
| AppSettings.TimeInterval | FinderSnap/FinderSnap/App/AppState.swift:24-29 | a positive whole number of days: 86400 for daily, 7 × 86400 for weekly |
| AppSettings.DefaultPreferences | FinderSnap/FinderSnap/App/AppState.swift:46-50 | auto-check on, daily, prereleases excluded, never checked, nothing dismissed |
| AppSettings.RawValueRoundTrip | FinderSnap/FinderSnap/App/AppState.swift:21-22 | every interval survives storing its raw value |
| AppSettings.WeeklyIsSevenDays | FinderSnap/FinderSnap/App/AppState.swift:26-27 | weekly is exactly seven daily intervals |
| Changelog.NormalizeLanguage | FinderSnap/FinderSnap/Core/UpdateChecker.swift:194 | same length; each `_` becomes `-` and every other character is lowercased |
| Changelog.LanguageOf | FinderSnap/FinderSnap/Core/UpdateChecker.swift:194-203 | `zh-Hans` iff the normalized identifier starts with `zh-hans` or `zh-cn`; `zh-Hant` iff with `zh-hant`, `zh-tw` or `zh-hk`; `en` iff with `en`; nothing otherwise |
| Changelog.SelectingPrefixesExclusive | FinderSnap/FinderSnap/Core/UpdateChecker.swift:195-203 | no identifier starts with prefixes of two groups, so the order of the tests does not matter |
| Changelog.LanguageOfTreatsUnderscoreAsHyphen | FinderSnap/FinderSnap/Core/UpdateChecker.swift:194 | writing `_` as `-` in a preference does not change its selection |
| Changelog.SelectionKeptByLongerIdentifier | FinderSnap/FinderSnap/Core/UpdateChecker.swift:194-203 | a selecting preference selects the same language with any text appended |
| Changelog.RegionalSimplifiedSelectsSimplified | FinderSnap/FinderSnap/Core/UpdateChecker.swift:194-196 | `zh-Hans-CN` selects `zh-Hans` |
| Changelog.ResolveChangelogLanguage | FinderSnap/FinderSnap/Core/UpdateChecker.swift:191-206 | the result is always one of the three published languages |
| Changelog.ResolvePicksFirstMatch | FinderSnap/FinderSnap/Core/UpdateChecker.swift:193-204 | the first preference that selects a language decides; earlier ones are skipped |
| Changelog.ResolveDefaultsToEnglish | FinderSnap/FinderSnap/Core/UpdateChecker.swift:205 | with no selecting preference the result is `en` |
| Changelog.LanguageOfIgnoresCase | FinderSnap/FinderSnap/Core/UpdateChecker.swift:194 | a preference selects the same language as its lowercase form |
| Changelog.UnderscoreChinaSelectsSimplified | FinderSnap/FinderSnap/Core/UpdateChecker.swift:194-196 | `zh_CN` selects `zh-Hans` |
| Changelog.FrenchSelectsNothing | FinderSnap/FinderSnap/Core/UpdateChecker.swift:194-203 | `fr-FR` selects no language |
| Changelog.HongKongAfterFrench | FinderSnap/FinderSnap/Core/UpdateChecker.swift:191-206 | for `fr-FR, zh-HK, en-US` the result is `zh-Hant` |
| Changelog.LanguagePriority | FinderSnap/FinderSnap/Core/UpdateChecker.swift:155-159 | one or two distinct codes, the resolved one first and `en` last; a single code exactly for English |
| Changelog.FirstAssetNamed | FinderSnap/FinderSnap/Core/UpdateChecker.swift:175-177 | the first asset whose name matches ignoring case; none exactly when no asset matches |
| Changelog.FirstAssetNamedIgnoresCase | FinderSnap/FinderSnap/Core/UpdateChecker.swift:176 | searching for names that agree ignoring case finds the same asset |
| Changelog.FetchChangelogAsset | FinderSnap/FinderSnap/Core/UpdateChecker.swift:173-184 | the first asset named `CHANGELOG.<code>.md` ignoring case is downloaded and its text returned; nothing when no asset has that name |
| Changelog.SimplifiedAndEnglishAssets | FinderSnap/FinderSnap/Core/UpdateChecker.swift:173-184 | with assets `CHANGELOG.zh-Hans.md` and `CHANGELOG.en.md`, each language downloads its own asset and a `zh-Hans` user gets the Simplified text when it downloads |
| Changelog.FirstChangelogText | FinderSnap/FinderSnap/Core/UpdateChecker.swift:161-167 | a text is the first language's asset text that exists, all earlier ones failing; none when all fail |
| Changelog.FetchLocalizedChangelog | FinderSnap/FinderSnap/Core/UpdateChecker.swift:152-171 | no changelog only when the body is empty; a changelog is the body or some priority language's asset text |
| Changelog.PreferredChangelogWins | FinderSnap/FinderSnap/Core/UpdateChecker.swift:162-166 | the resolved language's asset text wins when it exists |
| Changelog.EnglishChangelogSecond | FinderSnap/FinderSnap/Core/UpdateChecker.swift:156-166 | otherwise the English asset text is used when it exists |
| Changelog.BodyIsLastResort | FinderSnap/FinderSnap/Core/UpdateChecker.swift:169-170 | otherwise the body, and nothing when the body is empty |
| UpdateChecker.StableReleases | FinderSnap/FinderSnap/Core/UpdateChecker.swift:67-69 | the result holds only stable feed releases, every stable one, and is no longer than the feed |
| UpdateChecker.StableReleasesAppend | FinderSnap/FinderSnap/Core/UpdateChecker.swift:67-69 | the filter keeps feed order and repeats: filtering a concatenation concatenates the filtered parts |
| UpdateChecker.EligibleReleases | FinderSnap/FinderSnap/Core/UpdateChecker.swift:67-69 | the whole feed when prereleases are included; otherwise only eligible feed releases, and every eligible one |
| UpdateChecker.SelectRelease | FinderSnap/FinderSnap/Core/UpdateChecker.swift:67-71 | a chosen release is an eligible release of the feed; none exactly when no release is eligible |
| UpdateChecker.SelectReleaseIsFirstEligible | FinderSnap/FinderSnap/Core/UpdateChecker.swift:67-71 | the chosen release is the first eligible one in feed order (never re-sorted) |
| UpdateChecker.SelectWithPrereleasesIsFirst | FinderSnap/FinderSnap/Core/UpdateChecker.swift:67-71 | with prereleases included the first release of the feed is chosen |
| UpdateChecker.Decide | FinderSnap/FinderSnap/Core/UpdateChecker.swift:71-81 | no candidate iff no eligible release, an unparseable tag or no installed version; an update iff strictly newer and not the dismissed tag |
| UpdateChecker.DecideFromParts | FinderSnap/FinderSnap/Core/UpdateChecker.swift:71-81 | given the chosen release and both versions, the decision is that release with the newer-and-not-dismissed test |
| UpdateChecker.CheckForUpdates | FinderSnap/FinderSnap/Core/UpdateChecker.swift:56-99 | `isChecking` ends false; throws iff the fetch fails, and then only `lastError` changes; success clears the error; only the check time among the preferences changes, and only to now when a release is recorded; an offer is announced on both subjects and is not the dismissed tag; the changelog changes only with an offer |
| UpdateChecker.DismissCurrentUpdate | FinderSnap/FinderSnap/Core/UpdateChecker.swift:101-107 | no-op without a known release; otherwise its tag becomes the dismissed version, the offer and both subjects are withdrawn, nothing else changes |
| UpdateChecker.CheckOnLaunchIfNeeded | FinderSnap/FinderSnap/Core/UpdateChecker.swift:39-54 | nothing happens unless a check is due; a due check is a full check whose error is dropped |
| UpdateChecker.InitiallyConsistent | FinderSnap/FinderSnap/Core/UpdateChecker.swift:17-26 | the initial state satisfies the checker invariant |
| UpdateChecker.CheckPreservesConsistency | FinderSnap/FinderSnap/Core/UpdateChecker.swift:56-99 | a check keeps the invariant: not checking, subjects agree, an offer is the known, announced, undismissed release |
| UpdateChecker.DismissPreservesConsistency | FinderSnap/FinderSnap/Core/UpdateChecker.swift:101-107 | dismissing keeps the invariant |
| UpdateChecker.LaunchPreservesConsistency | FinderSnap/FinderSnap/Core/UpdateChecker.swift:39-54 | the launch check keeps the invariant |
| UpdateChecker.OfferedOnlyIfNewer | FinderSnap/FinderSnap/Core/UpdateChecker.swift:63-84 | an offered release is an eligible feed release strictly newer than the installed version |
| UpdateChecker.PrereleaseNeverChosenWhenExcluded | FinderSnap/FinderSnap/Core/UpdateChecker.swift:67-83 | with prereleases excluded no prerelease is ever recorded |
| UpdateChecker.DismissedReleaseNotOffered | FinderSnap/FinderSnap/Core/UpdateChecker.swift:80-84 | the chosen release is never offered when its tag is the dismissed version |
| UpdateChecker.DismissThenRecheck | FinderSnap/FinderSnap/Core/UpdateChecker.swift:80-107 | after dismissing, a recheck that chooses the same release offers nothing |
| UpdateChecker.DismissIdempotent | FinderSnap/FinderSnap/Core/UpdateChecker.swift:101-107 | dismissing twice is dismissing once |
| UpdateChecker.CandidateRecorded | FinderSnap/FinderSnap/Core/UpdateChecker.swift:80-94 | past the guard the candidate is recorded even when not offered; `updateAvailable` and the availability subject equal the decision; the version subject holds the tag iff offered; the check time becomes now; the changelog is refetched only for an offer |
| UpdateChecker.EarlyExitKeepsSubjects | FinderSnap/FinderSnap/Core/UpdateChecker.swift:71-78 | the early exit clears the release and the offer but leaves both subjects, the changelog and the preferences unchanged |
| UpdateChecker.StaleSubjectAfterEmptyFeed | FinderSnap/FinderSnap/Core/UpdateChecker.swift:71-86 | after an offer, an empty feed leaves the availability subject true while `updateAvailable` is false |
| UpdateChecker.LaunchCheckDue | FinderSnap/FinderSnap/Core/UpdateChecker.swift:40-47 | due iff automatic checks are on and either nothing was checked yet or the last check plus one interval is not after now |
| UpdateChecker.NoRecheckWithinInterval | FinderSnap/FinderSnap/Core/UpdateChecker.swift:43-49 | after a check that recorded a release, no launch check is due within one interval |
| UpdateChecker.LaunchDueBoundary | FinderSnap/FinderSnap/Core/UpdateChecker.swift:43-44 | due exactly one interval after the last check, not one second earlier |
| UpdateChecker.LaunchDueMonotone | FinderSnap/FinderSnap/Core/UpdateChecker.swift:43-47 | once due, a check stays due as time passes |
| UpdateChecker.WeeklyDueImpliesDailyDue | FinderSnap/FinderSnap/Core/UpdateChecker.swift:43-44 | whatever makes a weekly check due makes a daily one due |
| UpdateChecker.AutoCheckOffDoesNothing | FinderSnap/FinderSnap/Core/UpdateChecker.swift:40-41 | with automatic checks off the launch check changes nothing |
| UpdateChecker.FirstLaunchChecks | FinderSnap/FinderSnap/Core/UpdateChecker.swift:39-53 | with the default preferences the first launch runs a check |
| UpdateChecker.RateLimitedCheck | FinderSnap/FinderSnap/Core/UpdateChecker.swift:134-136 | a 403 is thrown and recorded as rate limiting, and the check is no longer running |
| UpdateChecker.TwoStableReleasesCandidate | FinderSnap/FinderSnap/Core/UpdateChecker.swift:67-81 | for the feed `v2.0.0, v1.9.0` and installed 1.8.0 the candidate is v2.0.0, offered unless dismissed |
| UpdateChecker.NewerStableReleaseOffered | FinderSnap/FinderSnap/Core/UpdateChecker.swift:71-86 | with nothing dismissed v2.0.0 is recorded, offered and announced |
| UpdateChecker.DismissedNewerReleaseRecorded | FinderSnap/FinderSnap/Core/UpdateChecker.swift:71-84 | with v2.0.0 dismissed it is still recorded but not offered |

## Left out

- Networking, JSON decoding and ISO-8601 dates are not modelled. The feed
  response is an input: a transport failure, a non-HTTP response, or a
  status code with the decoded release list (absent when decoding failed).
  `publishedAt` is an integer and nothing reads it.
- `URL(string:)` is not modelled; whether the fixed feed address builds is
  a boolean input.
- Asset downloads and UTF-8 decoding are a function input from asset to
  optional text. Only a thrown transport error or undecodable bytes give
  no text. The HTTP response is discarded, so an error page that decodes
  as UTF-8 (a 404 or 500 body) becomes the changelog; the input function
  may return such text.
- `localizedStandardCompare` is not reimplemented. It is a function input,
  and the ordering lemmas assume only that it is a strict order, and for
  trichotomy that it is total.
- Text.Lowercased: lowercases ASCII letters only, because Unicode case
  mapping is a table the model does not carry.
- Characters are Unicode scalars, not Swift's grapheme clusters. Canonical
  equivalence in `hasPrefix`, `==` and `firstIndex(of:)` is ignored.
- `Date` and `TimeInterval` are `Double` seconds in the source. The model
  uses whole seconds, so sub-second elapsed times are not represented.
- Concurrency is not modelled. The model leaves out:
  - the `Task` that runs the launch check;
  - `@MainActor`;
  - overlapping checks.

  Each check is one atomic transition, and `isChecking` is observable as
  true only inside it.
- The two Combine subjects are modelled only as their current values.
  Subscribers and the order in which they are notified are left out.
- The localized `errorDescription` strings of `UpdateError` are not
  modelled.
- `openReleasePage` and `openAllReleasesPage` are not modelled. They only
  open a URL in the browser.
- The owner and repository constants are not modelled. The model has no
  URL to build from them.
- The window-placement and animation preferences of `AppState` are not
  modelled. They are unrelated to updates.
- The settings and about screens are not modelled. They are UI that calls
  the operations above.
- `Locale.preferredLanguages` and `Bundle.main.appVersion` are not read by
  the model. They are inputs.
