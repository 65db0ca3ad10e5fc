/**
 * The static helpers of the `Utils` class: recognising a merge commit, classifying a
 * branch, comparing, parsing, bumping and rendering versions, and reading the list of
 * version files.
 */
module Utils {
  import opened Wrappers
  import opened Strings
  import opened Paths
  import opened Types

  // ---------------------------------------------------------------- merge commits

  /** The fixed text before the pull-request number in a merge commit message. */
  const MergePrefix: string := "Merge pull request #"

  /** The fixed text after the pull-request number. */
  const MergeSuffix: string := " from "

  /**
   * The pattern `Merge pull request #[0-9]* from ` matches at position `i` of `msg`.
   * The digit run is taken greedily; since the suffix starts with a space, the greedy
   * run is the only one that can be followed by the suffix.
   */
  predicate MatchesAt(msg: string, i: nat) {
    var j := i + |MergePrefix|;
    j <= |msg| && msg[i..j] == MergePrefix
    && StartsWith(msg[j + LeadingDigitCount(msg[j..])..], MergeSuffix)
  }

  /** The pattern matches at some position from `i` on. */
  predicate MatchesFrom(msg: string, i: nat)
    decreases |msg| - i
  {
    i + |MergePrefix| <= |msg| && (MatchesAt(msg, i) || MatchesFrom(msg, i + 1))
  }

  /**
   * `Utils.isMergeCommit`: the merge pattern occurs anywhere in `msg`, that is, the
   * message contains `Merge pull request #`, a possibly empty digit run and ` from `.
   */
  function IsMergeCommit(msg: string): (b: bool)
    ensures b <==> HasMergeMarker(msg)
  {
    MatchesFromMarker(msg, 0);
    MatchesFrom(msg, 0)
  }

  /**
   * The merge marker with `k` digits stands at position `i` of `msg`: the prefix, then
   * `k` decimal digits, then the suffix.
   */
  ghost predicate MarkerAt(msg: string, i: nat, k: nat) {
    var j := i + |MergePrefix|;
    j + k + |MergeSuffix| <= |msg|
    && msg[i..j] == MergePrefix
    && AllDigits(msg[j..j + k])
    && msg[j + k..j + k + |MergeSuffix|] == MergeSuffix
  }

  /** The message contains `Merge pull request #`, a possibly empty digit run, and ` from `. */
  ghost predicate HasMergeMarker(msg: string) {
    exists i: nat, k: nat :: MarkerAt(msg, i, k)
  }

  /** The greedy match at one position is the marker with some digit count there. */
  lemma MatchesAtMarker(msg: string, i: nat)
    ensures MatchesAt(msg, i) <==> exists k: nat :: MarkerAt(msg, i, k)
  {
    if MatchesAt(msg, i) {
      MatchGivesMarker(msg, i);
    }
    if k: nat :| MarkerAt(msg, i, k) {
      MarkerGivesMatch(msg, i, k);
    }
  }

  /** A greedy match is the marker with the leading digit run. */
  lemma MatchGivesMarker(msg: string, i: nat)
    requires MatchesAt(msg, i)
    ensures var j := i + |MergePrefix|; MarkerAt(msg, i, LeadingDigitCount(msg[j..]))
  {
    var j := i + |MergePrefix|;
    var t := msg[j..];
    var k := LeadingDigitCount(t);
    assert t[..k] == msg[j..j + k];
    assert msg[j + k..][..|MergeSuffix|] == msg[j + k..j + k + |MergeSuffix|];
  }

  /** A marker with any digit count is a greedy match. */
  lemma MarkerGivesMatch(msg: string, i: nat, k: nat)
    requires MarkerAt(msg, i, k)
    ensures MatchesAt(msg, i)
  {
    var j := i + |MergePrefix|;
    var t := msg[j..];
    assert t[..k] == msg[j..j + k];
    assert t[k] == MergeSuffix[0];
    LeadingDigitCountExact(t, k);
    assert msg[j + k..][..|MergeSuffix|] == msg[j + k..j + k + |MergeSuffix|];
  }

  /** Searching from `i` finds the marker exactly when it stands somewhere from `i` on. */
  lemma {:induction false} MatchesFromMarker(msg: string, i: nat)
    ensures MatchesFrom(msg, i) <==> exists j: nat, k: nat :: i <= j && MarkerAt(msg, j, k)
    decreases |msg| - i
  {
    if i + |MergePrefix| <= |msg| {
      MatchesAtMarker(msg, i);
      MatchesFromMarker(msg, i + 1);
      if MatchesFrom(msg, i) {
        if MatchesAt(msg, i) {
          var k: nat :| MarkerAt(msg, i, k);
          assert i <= i && MarkerAt(msg, i, k);
        } else {
          var j: nat, k: nat :| i + 1 <= j && MarkerAt(msg, j, k);
          assert i <= j && MarkerAt(msg, j, k);
        }
      }
      if j: nat, k: nat :| i <= j && MarkerAt(msg, j, k) {
        if j == i {
          assert MatchesAt(msg, i);
        } else {
          assert i + 1 <= j && MarkerAt(msg, j, k);
        }
      }
    } else {
      forall j: nat, k: nat | i <= j
        ensures !MarkerAt(msg, j, k)
      {
      }
    }
  }

  // ---------------------------------------------------------------- branch types

  /** `Utils.isBranchType`: one of the recognised prefixes. */
  predicate IsBranchType(t: string)
    ensures IsBranchType(t) <==> t in ["feature", "chore", "test", "docs", "hotfix"]
  {
    BranchTypesAre(t);
    t in BranchTypes
  }

  /** `Utils.isMinorType`. */
  function IsMinorType(t: string): (b: bool)
    ensures b <==> t == "feature"
  {
    t in MinorTypes
  }

  /** `Utils.isPatchType`. */
  function IsPatchType(t: string): (b: bool)
    ensures b <==> t == "chore" || t == "test" || t == "docs"
  {
    t in PatchTypes
  }

  /** `Utils.isHotfixType`. */
  function IsHotfixType(t: string): (b: bool)
    ensures b <==> t == "hotfix"
  {
    t in HotfixTypes
  }

  /** The text of a branch name before its first `/`. */
  function FirstSegment(branch: string): string {
    branch[..IndexOf(branch, '/')]
  }

  /**
   * `Utils.getBranchType`: the first `/`-segment when the name has more than one
   * segment and that segment is a recognised prefix; None otherwise.
   */
  function GetBranchType(branch: string): (r: Option<string>)
    ensures '/' !in branch ==> r == None
    ensures '/' in branch ==> (r.Some? <==> IsBranchType(FirstSegment(branch)))
    ensures r.Some? ==> r.value == FirstSegment(branch) && IsBranchType(r.value)
  {
    SplitSingle(branch, '/');
    var split := Split(branch, '/');
    if |split| <= 1 then None
    else
      var first := split[0];
      if IsBranchType(first) then Some(first) else None
  }

  // ---------------------------------------------------------------- ordering

  /** An absent hotfix number ranks below every present one. */
  predicate HotfixLess(a: Option<nat>, b: Option<nat>) {
    match (a, b)
    case (None, Some(_)) => true
    case (Some(x), Some(y)) => x < y
    case _ => false
  }

  /** The lexicographic order on major, minor, patch and hotfix. */
  predicate Less(a: Version, b: Version) {
    a.major < b.major
    || (a.major == b.major
        && (a.minor < b.minor
            || (a.minor == b.minor
                && (a.patch < b.patch
                    || (a.patch == b.patch && HotfixLess(a.hotfix, b.hotfix))))))
  }

  lemma LessIrreflexive(a: Version)
    ensures !Less(a, a)
  {
  }

  lemma LessTransitive(a: Version, b: Version, c: Version)
    requires Less(a, b) && Less(b, c)
    ensures Less(a, c)
  {
  }

  lemma LessTotal(a: Version, b: Version)
    ensures a == b || Less(a, b) || Less(b, a)
  {
  }

  /**
   * `Utils.compareVersions`: 0 for equal versions, 1 when the SECOND is greater and
   * -1 when the first is.
   */
  function CompareVersions(first: Version, second: Version): (r: int)
    ensures r == 0 <==> first == second
    ensures r == 1 <==> Less(first, second)
    ensures r == -1 <==> Less(second, first)
  {
    if first.major == second.major && first.minor == second.minor && first.patch == second.patch
       && first.hotfix == second.hotfix then 0
    else if first.major > second.major then -1
    else if first.major < second.major then 1
    else if first.minor > second.minor then -1
    else if first.minor < second.minor then 1
    else if first.patch > second.patch then -1
    else if first.patch < second.patch then 1
    else if first.hotfix.Some? && second.hotfix.Some? then
      (if first.hotfix.value > second.hotfix.value then -1
       else if first.hotfix.value < second.hotfix.value then 1
       else 0)
    else if first.hotfix.Some? then -1
    else if second.hotfix.Some? then 1
    else 0
  }

  /** Swapping the arguments negates the comparison. */
  lemma CompareAntisymmetric(a: Version, b: Version)
    ensures CompareVersions(a, b) == -CompareVersions(b, a)
  {
  }

  // ---------------------------------------------------------------- parsing and rendering

  /**
   * `Utils.getVersion`: a tag of three or four `.`-separated segments, each with a
   * leading decimal number; the hotfix number is absent for three segments.
   */
  function GetVersion(tagName: string): (r: Option<Version>)
    ensures var parts := Split(tagName, '.');
      r.Some? <==> (3 <= |parts| <= 4 && forall i | 0 <= i < |parts| :: ParseInt(parts[i]).Some?)
    ensures var parts := Split(tagName, '.');
      r.Some? ==> && r.value.major == ParseInt(parts[0]).value
                  && r.value.minor == ParseInt(parts[1]).value
                  && r.value.patch == ParseInt(parts[2]).value
                  && (|parts| == 3 ==> r.value.hotfix == None)
                  && (|parts| == 4 ==> r.value.hotfix == ParseInt(parts[3]))
  {
    var split := Split(tagName, '.');
    var l := |split|;
    if l == 0 then None
    else if l >= 3 then
      var major, minor, patch := ParseInt(split[0]), ParseInt(split[1]), ParseInt(split[2]);
      if major.None? || minor.None? || patch.None? then None
      else if l == 3 then Some(Version(major.value, minor.value, patch.value, None))
      else if l == 4 then
        var hotfix := ParseInt(split[3]);
        if hotfix.None? then None
        else Some(Version(major.value, minor.value, patch.value, Some(hotfix.value)))
      else None
    else None
  }

  /**
   * `Utils.versionTypeToString`: `M.m.p`, and `.h` only for a present, non-zero hotfix;
   * its `.`-separated segments are exactly the rendered numbers.
   */
  function VersionTypeToString(v: Version): (s: string)
    ensures Split(s, '.') == RenderedParts(v)
  {
    SplitJoin(RenderedParts(v), '.');
    Join(RenderedParts(v), '.')
  }

  /** The text of a rendered version, written out. */
  lemma VersionTypeToStringText(v: Version)
    ensures var suffix := if v.hotfix.Some? && v.hotfix.value != 0 then ['.'] + NatToString(v.hotfix.value) else [];
      VersionTypeToString(v)
      == NatToString(v.major) + ['.'] + NatToString(v.minor) + ['.'] + NatToString(v.patch) + suffix
  {
    var a, b, c := NatToString(v.major), NatToString(v.minor), NatToString(v.patch);
    var parts := RenderedParts(v);
    if |parts| == 3 {
      assert Join(parts[2..], '.') == c;
      assert Join(parts[1..], '.') == b + ['.'] + c;
      AppendAssoc(a + ['.'], b, ['.'] + c);
      AppendAssoc(a + ['.'] + b, ['.'], c);
      AppendNil(a + ['.'] + b + ['.'] + c);
    } else {
      var d := NatToString(v.hotfix.value);
      assert Join(parts[3..], '.') == d;
      assert Join(parts[2..], '.') == c + ['.'] + d;
      assert Join(parts[1..], '.') == b + ['.'] + (c + ['.'] + d);
      var t := a + ['.'] + b + ['.'] + c;
      AppendAssoc(c + ['.'], d, []);
      AppendAssoc(c, ['.'], d);
      AppendAssoc(b + ['.'], c, ['.'] + d);
      AppendAssoc(a + ['.'], b, ['.'] + (c + ['.'] + d));
      AppendAssoc(a + ['.'] + b, ['.'], c + ['.'] + d);
      AppendAssoc(a + ['.'] + b + ['.'], c, ['.'] + d);
    }
  }

  /** The numbers `versionTypeToString` writes, separated by `.`, in order. */
  function RenderedParts(v: Version): (parts: seq<string>)
    ensures 3 <= |parts| <= 4
    ensures forall k | 0 <= k < |parts| :: '.' !in parts[k]
  {
    NatToStringHasNo(v.major, '.');
    NatToStringHasNo(v.minor, '.');
    NatToStringHasNo(v.patch, '.');
    NatToStringHasNo(v.hotfix.GetOr(0), '.');
    var suffix := if v.hotfix.Some? && v.hotfix.value != 0 then [NatToString(v.hotfix.value)] else [];
    [NatToString(v.major), NatToString(v.minor), NatToString(v.patch)] + suffix
  }

  /** What a rendered version parses back to: a zero hotfix number is not rendered. */
  function Canonical(v: Version): (c: Version)
    ensures c.hotfix != Some(0)
    ensures c.major == v.major && c.minor == v.minor && c.patch == v.patch
  {
    if v.hotfix == Some(0) then v.(hotfix := None) else v
  }

  /** A rendered number parses back to itself. */
  lemma ParseNumber(n: nat)
    ensures ParseInt(NatToString(n)) == Some(n)
  {
    ParseIntOfNatToString(n, []);
    assert NatToString(n) + [] == NatToString(n);
  }

  /** Rendering and parsing again gives the version back, up to a zero hotfix number. */
  lemma VersionStringRoundTrip(v: Version)
    ensures GetVersion(VersionTypeToString(v)) == Some(Canonical(v))
  {
    var parts := RenderedParts(v);
    ParseNumber(v.major);
    ParseNumber(v.minor);
    ParseNumber(v.patch);
    if |parts| == 4 {
      ParseNumber(v.hotfix.value);
    }
  }

  /** A version without a zero hotfix number survives rendering and parsing unchanged. */
  lemma VersionStringRoundTripExact(v: Version)
    requires v.hotfix != Some(0)
    ensures GetVersion(VersionTypeToString(v)) == Some(v)
  {
    VersionStringRoundTrip(v);
  }

  // ---------------------------------------------------------------- bumping

  /**
   * `Utils.getNewVersion`: a minor branch bumps minor and resets patch, a patch branch
   * bumps patch; both reset the hotfix number (absent under semver, 0 otherwise). A
   * hotfix branch bumps patch under semver and the hotfix number otherwise. Any other
   * branch type gives None.
   */
  function GetNewVersion(current: Version, branchType: string, useSemver: bool): (r: Option<Version>)
    ensures r.Some? <==> IsBranchType(branchType)
    ensures r.Some? ==> r.value.major == current.major && Less(current, r.value)
    ensures r.Some? ==> (r.value.hotfix.None? <==> useSemver)
  {
    if IsMinorType(branchType) then
      Some(current.(minor := current.minor + 1, patch := 0, hotfix := if useSemver then None else Some(0)))
    else if IsPatchType(branchType) then
      Some(current.(patch := current.patch + 1, hotfix := if useSemver then None else Some(0)))
    else if IsHotfixType(branchType) then
      if useSemver then
        Some(current.(patch := current.patch + 1, hotfix := None))
      else
        var newHotfix := if current.hotfix == None then 1 else current.hotfix.value + 1;
        Some(current.(hotfix := Some(newHotfix)))
    else
      None
  }

  /** The three bump rules for each category and policy. */
  lemma GetNewVersionRules(v: Version, t: string, useSemver: bool)
    requires IsBranchType(t)
    ensures var n := GetNewVersion(v, t, useSemver).value;
      var reset := if useSemver then None else Some(0);
      && (IsMinorType(t) ==> n == Version(v.major, v.minor + 1, 0, reset))
      && (IsPatchType(t) ==> n == Version(v.major, v.minor, v.patch + 1, reset))
      && (IsHotfixType(t) && useSemver ==> n == Version(v.major, v.minor, v.patch + 1, None))
      && (IsHotfixType(t) && !useSemver ==>
            n == Version(v.major, v.minor, v.patch, Some(if v.hotfix == None then 1 else v.hotfix.value + 1)))
  {
  }

  /** A bump always compares as greater: `compareVersions(v, new) == 1`. */
  lemma BumpIsGreater(v: Version, t: string, useSemver: bool)
    requires IsBranchType(t)
    ensures CompareVersions(v, GetNewVersion(v, t, useSemver).value) == 1
  {
  }

  /**
   * The tag a bump publishes parses, on the next run, to a version greater than the one
   * bumped, whatever the category and policy.
   */
  lemma PublishedTagIsGreater(v: Version, t: string, useSemver: bool)
    requires IsBranchType(t)
    ensures var tag := VersionTypeToString(GetNewVersion(v, t, useSemver).value);
      GetVersion(tag).Some? && Less(v, GetVersion(tag).value)
  {
    var n := GetNewVersion(v, t, useSemver).value;
    VersionStringRoundTrip(n);
  }

  // ---------------------------------------------------------------- version files

  /** One entry of a bracketed list: trimmed, quotes removed, one leading `/` dropped. */
  function CleanEntry(t: string): (r: string)
    ensures forall i | 0 <= i < |r| :: !IsQuote(r[i])
  {
    var trimmed := RemoveQuotes(Trim(t));
    if StartsWith(trimmed, "/") then trimmed[1..] else trimmed
  }

  /** The list is written as `[a, b, ...]`. */
  predicate IsBracketed(s: string) {
    StartsWith(s, "[") && EndsWith(s, "]")
  }

  /** `startsWith("[") && endsWith("]")`: at least two characters, `[` first and `]` last. */
  lemma BracketedShape(s: string)
    ensures IsBracketed(s) <==> |s| >= 2 && s[0] == '[' && s[|s| - 1] == ']'
  {
    if IsBracketed(s) {
      BracketedLength(s);
    }
    if |s| >= 2 && s[0] == '[' && s[|s| - 1] == ']' {
      assert s[..1] == "[";
      assert s[|s| - 1..] == "]";
    }
  }

  /** A bracketed list has both of its brackets. */
  lemma BracketedLength(s: string)
    requires IsBracketed(s)
    ensures |s| >= 2
  {
    assert s[..1][0] == s[0] == '[';
    assert s[|s| - 1..][0] == s[|s| - 1] == ']';
  }

  /** The text between the brackets. */
  function Inner(s: string): string
    requires IsBracketed(s)
  {
    BracketedLength(s);
    s[1..|s| - 1]
  }

  /** The entries of a bracketed list, in their written order. */
  function Entries(s: string): seq<string>
    requires IsBracketed(s)
  {
    Split(Inner(s), ',')
  }

  /** The paths `versionFilesToStringArray` returns for `s`. */
  function VersionFileList(s: string): seq<string> {
    if IsBracketed(s) then
      var entries := Entries(s);
      seq(|entries|, i requires 0 <= i < |entries| => Normalize(CleanEntry(entries[i])))
    else [s]
  }

  /** The first `map` of `versionFilesToStringArray`: clean every entry, in order. */
  method CleanEntries(pieces: seq<string>) returns (split: seq<string>)
    ensures |split| == |pieces|
    ensures forall j | 0 <= j < |pieces| :: split[j] == CleanEntry(pieces[j])
  {
    split := [];
    for i := 0 to |pieces|
      invariant |split| == i
      invariant forall j | 0 <= j < i :: split[j] == CleanEntry(pieces[j])
    {
      var trimmed := Trim(pieces[i]);
      trimmed := RemoveQuotes(trimmed);
      if StartsWith(trimmed, "/") {
        trimmed := trimmed[1..];
      }
      split := split + [trimmed];
    }
  }

  /** The second `map` of `versionFilesToStringArray`: normalise every path, in order. */
  method NormalizeAll(paths: seq<string>) returns (normalized: seq<string>)
    ensures |normalized| == |paths|
    ensures forall j | 0 <= j < |paths| :: normalized[j] == Normalize(paths[j])
  {
    normalized := [];
    for i := 0 to |paths|
      invariant |normalized| == i
      invariant forall j | 0 <= j < i :: normalized[j] == Normalize(paths[j])
    {
      normalized := normalized + [Normalize(paths[i])];
    }
  }

  /**
   * `Utils.versionFilesToStringArray`: an unbracketed input is the only file; a bracketed
   * one lists its comma-separated entries, each cleaned and normalised.
   */
  method VersionFilesToStringArray(versionFiles: string) returns (output: seq<string>)
    ensures output == VersionFileList(versionFiles)
  {
    output := [];
    if StartsWith(versionFiles, "[") && EndsWith(versionFiles, "]") {
      BracketedLength(versionFiles);
      var split := CleanEntries(Split(versionFiles[1..|versionFiles| - 1], ','));
      var normalized := NormalizeAll(split);
      output := output + normalized;
    } else {
      output := output + [versionFiles];
    }
  }

  /** A list without brackets is one file, taken as it is. */
  lemma VersionFileListSingle(s: string)
    requires !IsBracketed(s)
    ensures VersionFileList(s) == [s]
  {
  }

  /**
   * A bracketed list gives one path per comma-separated entry, one more than there are
   * commas; each is its cleaned entry normalised, and normalising it again changes
   * nothing.
   */
  lemma VersionFileListBracketed(s: string)
    requires IsBracketed(s)
    ensures var out, entries := VersionFileList(s), Entries(s);
      && |out| == CountChar(Inner(s), ',') + 1
      && (forall k | 0 <= k < |out| :: out[k] == Normalize(CleanEntry(entries[k])))
      && (forall k | 0 <= k < |out| :: Normalize(out[k]) == out[k])
  {
    var out := VersionFileList(s);
    SplitLength(Inner(s), ',');
    forall k | 0 <= k < |out| ensures Normalize(out[k]) == out[k] {
      NormalizeIdempotent(CleanEntry(Entries(s)[k]));
    }
  }
}
