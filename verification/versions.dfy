/** `SemanticVersion`: parsing a release tag such as `v1.2.3-beta.1`,
    writing it back, and the order used to decide whether a release is newer
    than the running application. */
module Versions {
  import opened Wrappers
  import opened Text
  import opened SwiftInt

  /** The components are Swift `Int`s; `prerelease` is everything after the
      first hyphen of the tag, verbatim. */
  datatype SemanticVersion = SemanticVersion(major: int, minor: int, patch: int, prerelease: Option<string>)

  /** `SemanticVersion.isPrerelease`. */
  predicate IsPrerelease(v: SemanticVersion)
  {
    v.prerelease.Some?
  }

  /** The text that `description` appends for the prerelease part. */
  function PrereleaseSuffix(pre: Option<string>): string
  {
    match pre
    case None => ""
    case Some(p) => "-" + p
  }

  /** `description`: `major.minor.patch`, then `-prerelease` when present.
      A representable version is written starting with a digit, and holds a
      hyphen exactly when it has a prerelease part. */
  function Description(v: SemanticVersion): (d: string)
    ensures |d| > 0 && (Representable(v) ==> IsDigit(d[0]))
    ensures Representable(v) ==> ('-' in d <==> IsPrerelease(v))
  {
    var d := Describe(v.major) + "." + Describe(v.minor) + "." + Describe(v.patch) + PrereleaseSuffix(v.prerelease);
    assert d[0] == Describe(v.major)[0];
    d
  }

  /** Removes one leading `v` or `V`, and only one. */
  function StripVPrefix(s: string): (t: string)
    ensures s == t || (|s| > 0 && (s[0] == 'v' || s[0] == 'V') && t == s[1..])
  {
    if |s| > 0 && (s[0] == 'v' || s[0] == 'V') then s[1..] else s
  }

  /** The guard and the field assignments of `init?(string:)`, given the
      dot-split version part and the prerelease text. */
  function FromComponents(components: seq<string>, pre: Option<string>): Option<SemanticVersion>
  {
    if |components| >= 2 && ParseInt(components[0]).Some? && ParseInt(components[1]).Some? then
      var patch := if |components| >= 3 then ParseInt(components[2]).GetOr(0) else 0;
      Some(SemanticVersion(ParseInt(components[0]).value, ParseInt(components[1]).value, patch, pre))
    else
      None
  }

  /** The components a parsed version can have: none is negative (the
      version part never holds a hyphen) and each fits a Swift `Int`. */
  predicate Representable(v: SemanticVersion)
  {
    0 <= v.major <= IntMax && 0 <= v.minor <= IntMax && 0 <= v.patch <= IntMax
  }

  /** The part of `t` before its first hyphen (all of `t` when it has
      none). */
  function BeforeHyphen(t: string): (v: string)
    ensures '-' !in v
  {
    match FirstIndexOf(t, '-')
    case None => t
    case Some(k) => t[..k]
  }

  /** The text after the first hyphen, or `None` when there is none. */
  function AfterHyphen(t: string): (pre: Option<string>)
    ensures pre.Some? <==> '-' in t
  {
    match FirstIndexOf(t, '-')
    case None => None
    case Some(k) => Some(t[k + 1..])
  }

  /** `SemanticVersion(string:)`: strip one `v`, cut at the first hyphen,
      split the version part on dots. */
  function Parse(s: string): (r: Option<SemanticVersion>)
    ensures r.Some? ==> Representable(r.value)
    ensures r.Some? ==> (IsPrerelease(r.value) <==> '-' in s)
  {
    var t := StripVPrefix(s);
    assert '-' in s <==> '-' in t;
    SplitAvoids(BeforeHyphen(t), '.', '-');
    FromComponents(Split(BeforeHyphen(t), '.'), AfterHyphen(t))
  }

  /** `Bundle.semanticVersion`: the installed version, absent when the
      bundle has no version string or it does not parse. */
  function InstalledVersion(appVersion: Option<string>): (r: Option<SemanticVersion>)
    ensures r.Some? ==> appVersion.Some? && Parse(appVersion.value) == r
    ensures appVersion.Some? ==> r == Parse(appVersion.value)
  {
    match appVersion
    case None => None
    case Some(s) => Parse(s)
  }

  /** The prerelease is exactly the text after the first hyphen of the tag
      (after the optional `v`), later hyphens and all. */
  lemma ParsePrerelease(s: string, v: SemanticVersion, p: string)
    requires Parse(s) == Some(v) && v.prerelease == Some(p)
    ensures var t := StripVPrefix(s);
      |p| < |t| && t[|t| - |p|..] == p && t[|t| - |p| - 1] == '-' && '-' !in t[..|t| - |p| - 1]
  {
    var t := StripVPrefix(s);
    var i := FirstIndexOf(t, '-').value;
    assert |t| - |p| - 1 == i;
  }

  /** Once the optional `v` is gone, a string made of a hyphen-free version
      part and an optional `-prerelease` parses by the guard on the version
      part's split. */
  lemma ParseShape(s: string, versionPart: string, pre: Option<string>)
    requires '-' !in versionPart
    requires StripVPrefix(s) == versionPart + PrereleaseSuffix(pre)
    ensures Parse(s) == FromComponents(Split(versionPart, '.'), pre)
  {
    var t := StripVPrefix(s);
    match pre
    case None =>
      assert t == versionPart;
    case Some(p) =>
      assert t == versionPart + ['-'] + p;
      FirstIndexOfJoin(versionPart, '-', p);
      assert t[..|versionPart|] == versionPart;
      assert t[|versionPart| + 1..] == p;
  }

  /** Parsing dot-joined pieces followed by an optional `-prerelease`: the
      version exists iff there are at least two pieces and the first two
      are integers; the patch is the third piece's value when there is one
      and it is an integer, else 0; further pieces are ignored. */
  lemma ParseJoined(pieces: seq<string>, pre: Option<string>)
    requires SplitPieces(pieces, '.')
    requires forall k :: 0 <= k < |pieces| ==> '-' !in pieces[k]
    requires |pieces| > 0 ==> pieces[0][0] != 'v' && pieces[0][0] != 'V'
    ensures var r := Parse(Join(pieces, '.') + PrereleaseSuffix(pre));
      && (r.Some? <==> |pieces| >= 2 && ParseInt(pieces[0]).Some? && ParseInt(pieces[1]).Some?)
      && (r.Some? ==> r.value.major == ParseInt(pieces[0]).value && r.value.minor == ParseInt(pieces[1]).value)
      && (r.Some? ==> r.value.patch == (if |pieces| >= 3 && ParseInt(pieces[2]).Some? then ParseInt(pieces[2]).value else 0))
      && (r.Some? ==> r.value.prerelease == pre)
  {
    ParseJoinedComponents(pieces, pre);
  }

  lemma ParseJoinedComponents(pieces: seq<string>, pre: Option<string>)
    requires SplitPieces(pieces, '.')
    requires forall k :: 0 <= k < |pieces| ==> '-' !in pieces[k]
    requires |pieces| > 0 ==> pieces[0][0] != 'v' && pieces[0][0] != 'V'
    ensures Parse(Join(pieces, '.') + PrereleaseSuffix(pre)) == FromComponents(pieces, pre)
  {
    var j := Join(pieces, '.');
    JoinedKeepsPrefix(pieces, pre);
    SplitJoin(pieces, '.');
    ParseShape(j + PrereleaseSuffix(pre), j, pre);
  }

  /** Joined hyphen-free components have no hyphen, and without a leading
      `v` nothing is stripped. */
  lemma JoinedKeepsPrefix(pieces: seq<string>, pre: Option<string>)
    requires SplitPieces(pieces, '.')
    requires forall k :: 0 <= k < |pieces| ==> '-' !in pieces[k]
    requires |pieces| > 0 ==> pieces[0][0] != 'v' && pieces[0][0] != 'V'
    ensures '-' !in Join(pieces, '.')
    ensures StripVPrefix(Join(pieces, '.') + PrereleaseSuffix(pre)) == Join(pieces, '.') + PrereleaseSuffix(pre)
  {
    var s := Join(pieces, '.') + PrereleaseSuffix(pre);
    JoinAvoids(pieces, '.', '-');
    if |pieces| > 0 {
      assert s[0] == pieces[0][0];
    } else if pre.Some? {
      assert s[0] == '-';
    }
  }

  /** A tag without a dot never parses: its version part has at most one
      component. `"1"` and `"abc"` are rejected, not defaulted. */
  lemma ParseNeedsDot(s: string)
    requires '.' !in s
    ensures Parse(s) == None
  {
    var t := StripVPrefix(s);
    assert '.' !in t;
    match FirstIndexOf(t, '-')
    case Some(i) =>
      assert '.' !in t[..i];
      assert FirstIndexOf(t[..i], '.') == None;
    case None =>
      assert FirstIndexOf(t, '.') == None;
  }

  /** A hyphen-free start followed by `b` parses by the part of `b` before
      its first hyphen. */
  lemma ParseAfterHyphenFree(s: string, start: string, b: string)
    requires '-' !in start
    requires StripVPrefix(s) == start + b
    ensures Parse(s) == FromComponents(Split(start + BeforeHyphen(b), '.'), AfterHyphen(b))
  {
    HyphenAfterStart(start, b);
  }

  /** A hyphen-free start does not move the cut. */
  lemma HyphenAfterStart(start: string, b: string)
    requires '-' !in start
    ensures BeforeHyphen(start + b) == start + BeforeHyphen(b)
    ensures AfterHyphen(start + b) == AfterHyphen(b)
  {
    FirstIndexOfSkip(start, b, '-');
    match FirstIndexOf(b, '-')
    case None =>
    case Some(k) => HyphenAfterStartAt(start, b, k);
  }

  lemma HyphenAfterStartAt(start: string, b: string, k: nat)
    requires FirstIndexOf(start + b, '-') == Some(|start| + k)
    requires FirstIndexOf(b, '-') == Some(k)
    ensures BeforeHyphen(start + b) == start + BeforeHyphen(b)
    ensures AfterHyphen(start + b) == AfterHyphen(b)
  {
    var t := start + b;
    assert t[..|start| + k] == start + b[..k];
    assert t[|start| + k + 1..] == b[k + 1..];
  }

  /** Empty components are dropped by the split: a doubled dot before the
      first hyphen parses like a single one (`"1..2"` is 1.2.0). */
  lemma ParseDropsEmptyPieces(a: string, b: string)
    requires '-' !in a
    ensures Parse(a + ['.', '.'] + b) == Parse(a + ['.'] + b)
  {
    var s1 := a + ['.', '.'] + b;
    var s2 := a + ['.'] + b;
    var a' := if |a| > 0 && (a[0] == 'v' || a[0] == 'V') then a[1..] else a;
    assert '-' !in a';
    assert StripVPrefix(s1) == (a' + ['.', '.']) + b && StripVPrefix(s2) == (a' + ['.']) + b by {
      if |a| > 0 {
        assert s1[0] == a[0] && s2[0] == a[0];
        assert s1[1..] == a[1..] + ['.', '.'] + b;
        assert s2[1..] == a[1..] + ['.'] + b;
      }
    }
    ParseAfterHyphenFree(s1, a' + ['.', '.'], b);
    ParseAfterHyphenFree(s2, a' + ['.'], b);
    var head := BeforeHyphen(b);
    SplitDoubleSeparator(a', '.', head);
  }

  /** Round trip: every representable version, written out with
      `description`, parses back to itself. */
  lemma ParseDescription(v: SemanticVersion)
    requires Representable(v)
    ensures Parse(Description(v)) == Some(v)
  {
    var pieces := [Describe(v.major), Describe(v.minor), Describe(v.patch)];
    assert pieces[1..] == [Describe(v.minor), Describe(v.patch)];
    assert pieces[1..][1..] == [Describe(v.patch)];
    assert Join(pieces[1..][1..], '.') == Describe(v.patch);
    assert Join(pieces[1..], '.') == Describe(v.minor) + ['.'] + Describe(v.patch);
    assert Join(pieces, '.') == Describe(v.major) + "." + Describe(v.minor) + "." + Describe(v.patch);
    ParseJoined(pieces, v.prerelease);
    ParseDescribe(v.major);
    ParseDescribe(v.minor);
    ParseDescribe(v.patch);
  }

  /** For every successfully parsed tag, parsing its `description` gives a
      version `==` to it. */
  lemma ParsedRoundTrip(s: string, v: SemanticVersion)
    requires Parse(s) == Some(v)
    ensures Parse(Description(v)).Some? && Equal(Parse(Description(v)).value, v)
  {
    ParseDescription(v);
  }

  /** At most one `v` is stripped: a tag starting with two of them never
      parses, because its major component then starts with a letter. */
  lemma DoublePrefixRejected(c: char, d: char, rest: string)
    requires c == 'v' || c == 'V'
    requires d == 'v' || d == 'V'
    ensures Parse([c, d] + rest) == None
  {
    var t := [d] + rest;
    assert StripVPrefix([c, d] + rest) == t;
    BeforeHyphenKeepsFirst(t);
    var v := BeforeHyphen(t);
    SplitFirstPiece(v, '.');
    var first := Split(v, '.')[0];
    assert first[0] == d;
    assert ParseInt(first).None?;
  }

  /** A text not starting with a hyphen keeps its first character before
      the cut. */
  lemma BeforeHyphenKeepsFirst(t: string)
    requires |t| > 0 && t[0] != '-'
    ensures |BeforeHyphen(t)| > 0 && BeforeHyphen(t)[0] == t[0]
  {
  }

  /** Exactly one leading `v` or `V` is ignored: the rest then parses as
      if it had been written without it. */
  lemma ParseIgnoresOnePrefix(c: char, rest: string)
    requires c == 'v' || c == 'V'
    requires |rest| > 0 ==> rest[0] != 'v' && rest[0] != 'V'
    ensures Parse([c] + rest) == Parse(rest)
  {
    assert ([c] + rest)[1..] == rest;
    assert StripVPrefix(rest) == rest;
  }

  /** A patch component that is not an integer becomes 0 rather than
      failing the parse: `Int("3a")` is nil, so `1.2.3a` is 1.2.0. */
  lemma ParseNonNumericPatch()
    ensures Parse("1.2.3a") == Some(SemanticVersion(1, 2, 0, None))
  {
    var pieces := ["1", "2", "3a"];
    assert pieces[1..] == ["2", "3a"];
    assert pieces[1..][1..] == ["3a"];
    assert Join(pieces[1..][1..], '.') == "3a";
    assert Join(pieces[1..], '.') == "2.3a";
    assert Join(pieces, '.') == "1.2.3a";
    assert "1.2.3a" == Join(pieces, '.') + PrereleaseSuffix(None);
    ParseDigit('1');
    ParseDigit('2');
    ParseRejectsNonDigit("3a", 1);
    ParseJoined(pieces, None);
  }

  /** 1.2.3-beta is written back as `"1.2.3-beta"`: no `v`, the
      prerelease after a hyphen. */
  lemma DescribeBetaTag()
    ensures Description(SemanticVersion(1, 2, 3, Some("beta"))) == "1.2.3-beta"
  {
  }

  lemma DescribeRelease200()
    ensures Description(SemanticVersion(2, 0, 0, None)) == "2.0.0"
  {
  }

  /** A `v`-prefixed tag parses to its numbers. */
  lemma ParseTagV200()
    ensures Parse("v2.0.0") == Some(SemanticVersion(2, 0, 0, None))
  {
    DescribeRelease200();
    ParseDescription(SemanticVersion(2, 0, 0, None));
    assert "v2.0.0" == ['v'] + "2.0.0";
    ParseIgnoresOnePrefix('v', "2.0.0");
  }

  /** A bundle version without prefix parses the same way. */
  lemma ParseVersion180()
    ensures Parse("1.8.0") == Some(SemanticVersion(1, 8, 0, None))
  {
    assert Description(SemanticVersion(1, 8, 0, None)) == "1.8.0";
    ParseDescription(SemanticVersion(1, 8, 0, None));
  }

  /** `lhs < rhs`. `preLess(a, b)` stands for
      `a.localizedStandardCompare(b) == .orderedAscending`, a Foundation
      comparison this model does not reimplement. */
  function Less(lhs: SemanticVersion, rhs: SemanticVersion, preLess: (string, string) -> bool): (r: bool)
    ensures !SameCore(lhs, rhs) ==> (r <==> CoreBefore(lhs, rhs))
    ensures SameCore(lhs, rhs) && !IsPrerelease(lhs) ==> !r
    ensures SameCore(lhs, rhs) && IsPrerelease(lhs) && !IsPrerelease(rhs) ==> r
    ensures SameCore(lhs, rhs) && IsPrerelease(lhs) && IsPrerelease(rhs) ==>
      (r <==> preLess(lhs.prerelease.value, rhs.prerelease.value))
  {
    if lhs.major != rhs.major then lhs.major < rhs.major
    else if lhs.minor != rhs.minor then lhs.minor < rhs.minor
    else if lhs.patch != rhs.patch then lhs.patch < rhs.patch
    else
      match (lhs.prerelease, rhs.prerelease)
      case (None, _) => false
      case (Some(_), None) => true
      case (Some(a), Some(b)) => preLess(a, b)
  }

  /** `lhs > rhs`, Swift's `Comparable` default: `rhs < lhs`. A stable
      release is greater than every prerelease of the same core. */
  function Greater(lhs: SemanticVersion, rhs: SemanticVersion, preLess: (string, string) -> bool): (r: bool)
    ensures !SameCore(lhs, rhs) ==> (r <==> CoreBefore(rhs, lhs))
    ensures SameCore(lhs, rhs) && !IsPrerelease(rhs) ==> !r
    ensures SameCore(lhs, rhs) && !IsPrerelease(lhs) && IsPrerelease(rhs) ==> r
    ensures SameCore(lhs, rhs) && IsPrerelease(lhs) && IsPrerelease(rhs) ==>
      (r <==> preLess(rhs.prerelease.value, lhs.prerelease.value))
  {
    Less(rhs, lhs, preLess)
  }

  /** `lhs == rhs`: all four fields equal, the prerelease compared as an
      optional string (never through the localized comparison). */
  function Equal(lhs: SemanticVersion, rhs: SemanticVersion): (r: bool)
    ensures r <==> lhs == rhs
  {
    lhs.major == rhs.major && lhs.minor == rhs.minor && lhs.patch == rhs.patch && lhs.prerelease == rhs.prerelease
  }

  predicate SameCore(a: SemanticVersion, b: SemanticVersion)
  {
    a.major == b.major && a.minor == b.minor && a.patch == b.patch
  }

  /** (major, minor, patch) of `a` comes first lexicographically. */
  predicate CoreBefore(a: SemanticVersion, b: SemanticVersion)
  {
    a.major < b.major
    || (a.major == b.major && a.minor < b.minor)
    || (a.major == b.major && a.minor == b.minor && a.patch < b.patch)
  }

  ghost predicate StrictOrder(preLess: (string, string) -> bool)
  {
    && (forall x :: !preLess(x, x))
    && (forall x, y, z :: preLess(x, y) && preLess(y, z) ==> preLess(x, z))
  }

  ghost predicate Connected(preLess: (string, string) -> bool)
  {
    forall x, y :: x != y ==> preLess(x, y) || preLess(y, x)
  }

  /** When the prerelease comparison is a strict order, so is `<`. */
  lemma LessIsStrictOrder(a: SemanticVersion, b: SemanticVersion, c: SemanticVersion, preLess: (string, string) -> bool)
    requires StrictOrder(preLess)
    ensures !Less(a, a, preLess)
    ensures Less(a, b, preLess) ==> !Less(b, a, preLess)
    ensures Less(a, b, preLess) && Less(b, c, preLess) ==> Less(a, c, preLess)
  {
  }

  /** Versions that are `==` are never `<` one another. */
  lemma EqualNotLess(a: SemanticVersion, b: SemanticVersion, preLess: (string, string) -> bool)
    requires StrictOrder(preLess)
    requires Equal(a, b)
    ensures !Less(a, b, preLess) && !Less(b, a, preLess)
  {
  }

  /** With a total prerelease comparison, exactly one of `<`, `==`, `>`
      holds. */
  lemma LessTrichotomy(a: SemanticVersion, b: SemanticVersion, preLess: (string, string) -> bool)
    requires StrictOrder(preLess) && Connected(preLess)
    ensures Less(a, b, preLess) || Equal(a, b) || Greater(a, b, preLess)
    ensures !(Less(a, b, preLess) && Greater(a, b, preLess))
  {
  }
}
