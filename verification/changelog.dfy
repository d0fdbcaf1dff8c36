/** Choosing the changelog shown for an available update: a language from
    the user's preferred languages, a case-insensitive search of the
    release's assets for `CHANGELOG.<code>.md`, English as second choice and
    the release body as last resort. */
module Changelog {
  import opened Wrappers
  import opened Text
  import opened Releases

  /** The three changelog languages that are published. */
  predicate IsChangelogLanguage(code: string)
  {
    code == "zh-Hans" || code == "zh-Hant" || code == "en"
  }

  /** A preferred-language identifier lowercased, `_` written as `-`. */
  function NormalizeLanguage(lang: string): (n: string)
    ensures |n| == |lang| && '_' !in n
    ensures forall i :: 0 <= i < |lang| && lang[i] == '_' ==> n[i] == '-'
    ensures forall i :: 0 <= i < |lang| && lang[i] != '_' ==> n[i] == LowerChar(lang[i])
  {
    ReplaceChar(Lowercased(lang), '_', '-')
  }

  /** The normalized prefixes that select each published language. */
  predicate SelectsSimplified(n: string)
  {
    HasPrefix(n, "zh-hans") || HasPrefix(n, "zh-cn")
  }

  predicate SelectsTraditional(n: string)
  {
    HasPrefix(n, "zh-hant") || HasPrefix(n, "zh-tw") || HasPrefix(n, "zh-hk")
  }

  predicate SelectsEnglish(n: string)
  {
    HasPrefix(n, "en")
  }

  /** No identifier has prefixes of two different groups, so the order in
      which the groups are tested never decides anything. */
  lemma SelectingPrefixesExclusive(n: string)
    ensures SelectsTraditional(n) ==> !SelectsSimplified(n)
    ensures SelectsEnglish(n) ==> !SelectsSimplified(n) && !SelectsTraditional(n)
  {
    if |n| >= 2 && n[..2] == "en" {
      assert n[0] == 'e';
    }
    if |n| >= 5 && n[..5] == "zh-tw" {
      assert n[3] == 't';
    }
    if |n| >= 5 && n[..5] == "zh-hk" {
      assert n[3] == 'h' && n[4] == 'k';
    }
    if |n| >= 7 && n[..7] == "zh-hant" {
      assert n[3] == 'h' && n[6] == 't';
    }
  }

  /** The changelog language one preference selects, if it selects one:
      each language exactly for its own prefixes of the normalized
      identifier. */
  function LanguageOf(lang: string): (code: Option<string>)
    ensures code.Some? ==> IsChangelogLanguage(code.value)
    ensures code == Some("zh-Hans") <==> SelectsSimplified(NormalizeLanguage(lang))
    ensures code == Some("zh-Hant") <==> SelectsTraditional(NormalizeLanguage(lang))
    ensures code == Some("en") <==> SelectsEnglish(NormalizeLanguage(lang))
    ensures code.None? <==> (!SelectsSimplified(NormalizeLanguage(lang))
      && !SelectsTraditional(NormalizeLanguage(lang)) && !SelectsEnglish(NormalizeLanguage(lang)))
  {
    var n := NormalizeLanguage(lang);
    SelectingPrefixesExclusive(n);
    if HasPrefix(n, "zh-hans") || HasPrefix(n, "zh-cn") then Some("zh-Hans")
    else if HasPrefix(n, "zh-hant") || HasPrefix(n, "zh-tw") || HasPrefix(n, "zh-hk") then Some("zh-Hant")
    else if HasPrefix(n, "en") then Some("en")
    else None
  }

  /** `resolveChangelogLanguage()` over the ordered `preferred` list: the
      language of the first preference that selects one, English if none
      does. */
  function ResolveChangelogLanguage(preferred: seq<string>): (code: string)
    ensures IsChangelogLanguage(code)
  {
    if |preferred| == 0 then "en"
    else
      match LanguageOf(preferred[0])
      case Some(c) => c
      case None => ResolveChangelogLanguage(preferred[1..])
  }

  /** Preferences that select nothing are skipped: the first one that selects
      a language decides. */
  lemma {:induction false} ResolvePicksFirstMatch(preferred: seq<string>, i: int)
    requires 0 <= i < |preferred| && LanguageOf(preferred[i]).Some?
    requires forall j :: 0 <= j < i ==> LanguageOf(preferred[j]).None?
    ensures ResolveChangelogLanguage(preferred) == LanguageOf(preferred[i]).value
  {
    if i > 0 {
      assert LanguageOf(preferred[0]).None?;
      assert forall j :: 0 <= j < i - 1 ==> preferred[1..][j] == preferred[j + 1];
      ResolvePicksFirstMatch(preferred[1..], i - 1);
    }
  }

  /** When no preference selects a language the result is English. */
  lemma {:induction false} ResolveDefaultsToEnglish(preferred: seq<string>)
    requires forall j :: 0 <= j < |preferred| ==> LanguageOf(preferred[j]).None?
    ensures ResolveChangelogLanguage(preferred) == "en"
  {
    if |preferred| > 0 {
      assert forall j :: 0 <= j < |preferred| - 1 ==> preferred[1..][j] == preferred[j + 1];
      ResolveDefaultsToEnglish(preferred[1..]);
    }
  }

  /** Matching ignores letter case in the preference. */
  lemma LanguageOfIgnoresCase(lang: string)
    ensures LanguageOf(Lowercased(lang)) == LanguageOf(lang)
  {
    LowercasedIdempotent(lang);
  }

  /** `_` and `-` are alike to the selection. */
  lemma LanguageOfTreatsUnderscoreAsHyphen(lang: string)
    ensures LanguageOf(ReplaceChar(lang, '_', '-')) == LanguageOf(lang)
  {
    assert NormalizeLanguage(ReplaceChar(lang, '_', '-')) == NormalizeLanguage(lang);
  }

  /** A preference that selects a language keeps its selection when more
      text follows: `zh-Hans-CN` selects like `zh-Hans`, `en-GB` like `en`. */
  lemma SelectionKeptByLongerIdentifier(lang: string, more: string)
    requires LanguageOf(lang).Some?
    ensures LanguageOf(lang + more) == LanguageOf(lang)
  {
    var n := NormalizeLanguage(lang);
    var n' := NormalizeLanguage(lang + more);
    assert n'[..|n|] == n;
    assert forall p :: HasPrefix(n, p) ==> HasPrefix(n', p) by {
      forall p | HasPrefix(n, p)
        ensures HasPrefix(n', p)
      {
        assert n'[..|p|] == n[..|p|];
      }
    }
  }

  /** A regional Simplified Chinese identifier selects `zh-Hans`. */
  lemma RegionalSimplifiedSelectsSimplified()
    ensures LanguageOf("zh-Hans-CN") == Some("zh-Hans")
  {
    assert NormalizeLanguage("zh-Hans") == "zh-hans";
    assert "zh-Hans-CN" == "zh-Hans" + "-CN";
    SelectionKeptByLongerIdentifier("zh-Hans", "-CN");
  }

  /** An underscore identifier selects like its hyphenated form. */
  lemma UnderscoreChinaSelectsSimplified()
    ensures LanguageOf("zh_CN") == Some("zh-Hans")
  {
    assert NormalizeLanguage("zh_CN") == "zh-cn";
  }

  /** A language without a published changelog selects nothing. */
  lemma FrenchSelectsNothing()
    ensures LanguageOf("fr-FR") == None
  {
    var n := NormalizeLanguage("fr-FR");
    assert n == "fr-fr";
    assert n[0] == 'f';
  }

  /** An unsupported first preference is skipped in favour of the next one. */
  lemma HongKongAfterFrench()
    ensures ResolveChangelogLanguage(["fr-FR", "zh-HK", "en-US"]) == "zh-Hant"
  {
    FrenchSelectsNothing();
    var n := NormalizeLanguage("zh-HK");
    assert n == "zh-hk";
    assert n[3] == 'h' && n[4] == 'k';
    assert !HasPrefix(n, "zh-cn");
    ResolvePicksFirstMatch(["fr-FR", "zh-HK", "en-US"], 1);
  }

  /** The languages tried in order: the resolved one, then English unless
      it already is English. */
  function LanguagePriority(code: string): (codes: seq<string>)
    ensures 1 <= |codes| <= 2
    ensures codes[0] == code && codes[|codes| - 1] == "en"
    ensures |codes| == 1 <==> code == "en"
    ensures forall i, j :: 0 <= i < j < |codes| ==> codes[i] != codes[j]
  {
    if code != "en" then [code, "en"] else [code]
  }

  /** The asset name a language's changelog is published under. */
  function ChangelogAssetName(code: string): string
  {
    "CHANGELOG." + code + ".md"
  }

  /** Two names are the same asset name when they agree after lowercasing. */
  predicate SameNameIgnoringCase(a: string, b: string)
  {
    Lowercased(a) == Lowercased(b)
  }

  /** `i` is the position of the first asset named `name`, ignoring case. */
  predicate FirstMatchAt(assets: seq<Asset>, name: string, i: int)
  {
    && 0 <= i < |assets|
    && SameNameIgnoringCase(assets[i].name, name)
    && forall j :: 0 <= j < i ==> !SameNameIgnoringCase(assets[j].name, name)
  }

  /** `assets.first(where:)` for the name test: the position of the first
      asset whose name equals `name` ignoring case. */
  function FirstAssetNamed(assets: seq<Asset>, name: string): (r: Option<nat>)
    ensures r.Some? ==> r.value < |assets| && SameNameIgnoringCase(assets[r.value].name, name)
    ensures r.Some? ==> forall j :: 0 <= j < r.value ==> !SameNameIgnoringCase(assets[j].name, name)
    ensures r.None? ==> forall j :: 0 <= j < |assets| ==> !SameNameIgnoringCase(assets[j].name, name)
  {
    if |assets| == 0 then None
    else if SameNameIgnoringCase(assets[0].name, name) then Some(0)
    else
      match FirstAssetNamed(assets[1..], name)
      case None => None
      case Some(i) => Some(i + 1)
  }

  /** `fetchChangelogAsset(for:langCode:)`. `download(a)` is the text the
      asset's bytes decode to as UTF-8, or `None` when the download or the
      decoding fails. Only the first matching asset is tried. */
  function FetchChangelogAsset(release: GitHubRelease, code: string, download: Asset -> Option<string>): (text: Option<string>)
    ensures forall i :: FirstMatchAt(release.assets, ChangelogAssetName(code), i) ==> text == download(release.assets[i])
    ensures (forall i :: 0 <= i < |release.assets| ==> !SameNameIgnoringCase(release.assets[i].name, ChangelogAssetName(code)))
      ==> text.None?
    ensures text.Some? ==>
      exists i :: 0 <= i < |release.assets|
        && SameNameIgnoringCase(release.assets[i].name, ChangelogAssetName(code))
        && download(release.assets[i]) == text
  {
    match FirstAssetNamed(release.assets, ChangelogAssetName(code))
    case None => None
    case Some(i) => download(release.assets[i])
  }

  /** The loop over the priority list: the text of the first language whose
      asset yields one. */
  function FirstChangelogText(release: GitHubRelease, codes: seq<string>, download: Asset -> Option<string>): (text: Option<string>)
    ensures text.Some? ==>
      exists i :: 0 <= i < |codes|
        && FetchChangelogAsset(release, codes[i], download) == text
        && forall j :: 0 <= j < i ==> FetchChangelogAsset(release, codes[j], download).None?
    ensures text.None? ==> forall i :: 0 <= i < |codes| ==> FetchChangelogAsset(release, codes[i], download).None?
  {
    if |codes| == 0 then None
    else
      match FetchChangelogAsset(release, codes[0], download)
      case Some(t) => Some(t)
      case None =>
        var rest := FirstChangelogText(release, codes[1..], download);
        assert forall i :: 0 <= i < |codes| - 1 ==> codes[1..][i] == codes[i + 1];
        rest
  }

  /** `fetchLocalizedChangelog(for:)`: the first changelog asset in
      priority order that yields text, else the release body, else nothing. */
  function FetchLocalizedChangelog(release: GitHubRelease, preferred: seq<string>, download: Asset -> Option<string>): (text: Option<string>)
    ensures text.None? ==> release.body == ""
    ensures text.Some? ==> (text.value == release.body
      || exists code :: code in LanguagePriority(ResolveChangelogLanguage(preferred))
           && FetchChangelogAsset(release, code, download) == text)
  {
    match FirstChangelogText(release, LanguagePriority(ResolveChangelogLanguage(preferred)), download)
    case Some(t) => Some(t)
    case None => if release.body == "" then None else Some(release.body)
  }

  /** The preferred language's changelog wins whenever it yields text. */
  lemma PreferredChangelogWins(release: GitHubRelease, preferred: seq<string>, download: Asset -> Option<string>)
    requires FetchChangelogAsset(release, ResolveChangelogLanguage(preferred), download).Some?
    ensures FetchLocalizedChangelog(release, preferred, download)
      == FetchChangelogAsset(release, ResolveChangelogLanguage(preferred), download)
  {
  }

  /** Otherwise the English changelog is tried next. */
  lemma EnglishChangelogSecond(release: GitHubRelease, preferred: seq<string>, download: Asset -> Option<string>)
    requires FetchChangelogAsset(release, ResolveChangelogLanguage(preferred), download).None?
    requires FetchChangelogAsset(release, "en", download).Some?
    ensures FetchLocalizedChangelog(release, preferred, download) == FetchChangelogAsset(release, "en", download)
  {
  }

  /** With no changelog asset yielding text, the body is used, and an empty
      body means no changelog. */
  lemma BodyIsLastResort(release: GitHubRelease, preferred: seq<string>, download: Asset -> Option<string>)
    requires FetchChangelogAsset(release, ResolveChangelogLanguage(preferred), download).None?
    requires FetchChangelogAsset(release, "en", download).None?
    ensures FetchLocalizedChangelog(release, preferred, download) == if release.body == "" then None else Some(release.body)
  {
  }

  /** With both changelogs attached, each language downloads its own asset,
      and a Simplified Chinese user gets that one whenever it downloads. */
  lemma SimplifiedAndEnglishAssets(release: GitHubRelease, hans: Asset, en: Asset, download: Asset -> Option<string>)
    requires hans.name == "CHANGELOG.zh-Hans.md" && en.name == "CHANGELOG.en.md"
    requires release.assets == [hans, en]
    ensures FetchChangelogAsset(release, "zh-Hans", download) == download(hans)
    ensures FetchChangelogAsset(release, "en", download) == download(en)
    ensures download(hans).Some? ==> FetchLocalizedChangelog(release, ["zh-Hans"], download) == download(hans)
  {
    assert ChangelogAssetName("zh-Hans") == "CHANGELOG.zh-Hans.md";
    assert ChangelogAssetName("en") == "CHANGELOG.en.md";
    var l := Lowercased(hans.name);
    var m := Lowercased(ChangelogAssetName("en"));
    assert l[10] == 'z' && m[10] == 'e';
    assert !SameNameIgnoringCase(release.assets[0].name, ChangelogAssetName("en"));
    assert SameNameIgnoringCase(release.assets[1].name, ChangelogAssetName("en"));
    assert NormalizeLanguage("zh-Hans") == "zh-hans";
    assert ResolveChangelogLanguage(["zh-Hans"]) == "zh-Hans";
  }

  /** The asset search ignores the case of the name it looks for. */
  lemma {:induction false} FirstAssetNamedIgnoresCase(assets: seq<Asset>, name: string, other: string)
    requires SameNameIgnoringCase(name, other)
    ensures FirstAssetNamed(assets, name) == FirstAssetNamed(assets, other)
  {
    if |assets| > 0 && !SameNameIgnoringCase(assets[0].name, name) {
      FirstAssetNamedIgnoresCase(assets[1..], name, other);
    }
  }
}
