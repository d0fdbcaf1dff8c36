/** `GitHubRelease` and its `Asset`s as decoded from the releases feed, with
    the two derived attributes the update decision reads. */
module Releases {
  import opened Wrappers
  import opened Text
  import Versions

  /** A downloadable attachment of a release. */
  datatype Asset = Asset(name: string, browserDownloadUrl: string, size: int)

  /** One entry of the feed. `publishedAt` is the decoded timestamp in whole
      seconds; nothing in the update logic reads it. */
  datatype GitHubRelease = GitHubRelease(
    tagName: string,
    name: string,
    body: string,
    htmlUrl: string,
    prerelease: bool,
    publishedAt: int,
    assets: seq<Asset>)

  /** `GitHubRelease.version`: the tag parsed as a semantic version, which
      has a prerelease part exactly when the tag has a hyphen. */
  function Version(r: GitHubRelease): (v: Option<Versions.SemanticVersion>)
    ensures v == Versions.Parse(r.tagName)
    ensures v.Some? ==> Versions.Representable(v.value)
    ensures v.Some? ==> (Versions.IsPrerelease(v.value) <==> '-' in r.tagName)
  {
    Versions.Parse(r.tagName)
  }

  /** Tag fragments that make a release a prerelease whatever its flag says. */
  const PrereleaseMarkers: seq<string> := ["-beta", "-rc", "-alpha"]

  /** `GitHubRelease.isPrerelease`: flagged, or some marker occurs in the
      tag. Every marker starts with a hyphen, so an unflagged prerelease
      always has one in its tag. */
  function IsPrerelease(r: GitHubRelease): (b: bool)
    ensures b <==> r.prerelease || Contains(r.tagName, "-beta") || Contains(r.tagName, "-rc") || Contains(r.tagName, "-alpha")
    ensures b && !r.prerelease ==> '-' in r.tagName
  {
    assert PrereleaseMarkers[0] == "-beta" && PrereleaseMarkers[1] == "-rc" && PrereleaseMarkers[2] == "-alpha";
    ContainsNeedsFirstChar(r.tagName, "-beta");
    ContainsNeedsFirstChar(r.tagName, "-rc");
    ContainsNeedsFirstChar(r.tagName, "-alpha");
    r.prerelease || exists k :: 0 <= k < |PrereleaseMarkers| && Contains(r.tagName, PrereleaseMarkers[k])
  }

  /** A release is a prerelease iff it is flagged as one or one of the
      markers occurs anywhere in its tag. */
  lemma IsPrereleaseIffMarked(r: GitHubRelease)
    ensures IsPrerelease(r) <==> r.prerelease || exists k, i :: 0 <= k < |PrereleaseMarkers| && OccursAt(r.tagName, PrereleaseMarkers[k], i)
  {
    ContainsIffOccurs(r.tagName, "-beta");
    ContainsIffOccurs(r.tagName, "-rc");
    ContainsIffOccurs(r.tagName, "-alpha");
    assert PrereleaseMarkers[0] == "-beta" && PrereleaseMarkers[1] == "-rc" && PrereleaseMarkers[2] == "-alpha";
    if exists k, i :: 0 <= k < |PrereleaseMarkers| && OccursAt(r.tagName, PrereleaseMarkers[k], i) {
      var k, i :| 0 <= k < |PrereleaseMarkers| && OccursAt(r.tagName, PrereleaseMarkers[k], i);
      assert k == 0 || k == 1 || k == 2;
    }
    if Contains(r.tagName, "-beta") {
      var i :| OccursAt(r.tagName, "-beta", i);
      assert OccursAt(r.tagName, PrereleaseMarkers[0], i);
    }
    if Contains(r.tagName, "-rc") {
      var i :| OccursAt(r.tagName, "-rc", i);
      assert OccursAt(r.tagName, PrereleaseMarkers[1], i);
    }
    if Contains(r.tagName, "-alpha") {
      var i :| OccursAt(r.tagName, "-alpha", i);
      assert OccursAt(r.tagName, PrereleaseMarkers[2], i);
    }
  }

  /** Every marker starts with a hyphen, so a marked tag that parses always
      yields a version with a prerelease part. */
  lemma MarkedTagParsesAsPrerelease(r: GitHubRelease)
    requires IsPrerelease(r) && !r.prerelease
    requires Version(r).Some?
    ensures Versions.IsPrerelease(Version(r).value)
  {
    IsPrereleaseIffMarked(r);
    var k, i :| 0 <= k < |PrereleaseMarkers| && OccursAt(r.tagName, PrereleaseMarkers[k], i);
    assert r.tagName[i] == PrereleaseMarkers[k][0] == '-';
  }

  /** Adding any text to a flagged or marked release's tag keeps it a
      prerelease. */
  lemma PrereleaseKeptByLongerTag(r: GitHubRelease, extra: string)
    requires IsPrerelease(r)
    ensures IsPrerelease(r.(tagName := r.tagName + extra))
  {
    if !r.prerelease {
      if Contains(r.tagName, "-beta") {
        ContainsExtends(r.tagName, extra, "-beta");
      } else if Contains(r.tagName, "-rc") {
        ContainsExtends(r.tagName, extra, "-rc");
      } else {
        ContainsExtends(r.tagName, extra, "-alpha");
      }
    }
  }

  /** A tag without a hyphen can hold no marker: an unflagged release with
      such a tag is stable. */
  lemma HyphenFreeTagIsStable(r: GitHubRelease)
    requires !r.prerelease && '-' !in r.tagName
    ensures !IsPrerelease(r)
  {
    ContainsNeedsFirstChar(r.tagName, "-beta");
    ContainsNeedsFirstChar(r.tagName, "-rc");
    ContainsNeedsFirstChar(r.tagName, "-alpha");
  }
}
