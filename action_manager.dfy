/**
 * One run of the release-tagging action: pick the current version from the existing
 * releases, bump it according to the merged branch, write the version file(s) through
 * the repository contents API, and create the new release.
 *
 * The remote side is abstract. The repository's files are a map from path to content,
 * every request the run sends is appended to a log, and what the remote answers (the
 * release list, and for each file the previous sha, the new blob's sha and whether the
 * put succeeded) is given to the run as input.
 */
module ActionManager {
  import opened Wrappers
  import opened Strings
  import opened Types
  import opened Utils

  // ---------------------------------------------------------------- inputs and requests

  /** The action's inputs that the core reads. */
  datatype Input = Input(
    skipCi: bool,
    skipCiCommitString: string,
    versionFiles: seq<string>,
    headRef: string)

  /** What the remote answers to the three requests of one file update. */
  datatype FileOutcome = FileOutcome(
    prevSha: Option<string>,   // sha of the file's current content; None when the read failed
    blobSha: Option<string>,   // sha of the new blob; None when creating it failed
    putOk: bool)               // whether the put of the new content succeeded

  /** The requests a run sends, with the parameters the core decides. */
  datatype Request =
    | GetRepository
    | ListReleases
    | GetContent(path: string)
    | CreateBlob(content: string)
    | PutContent(path: string, message: string, content: string, sha: Option<string>)
    | CreateRelease(tagName: string, name: string, prerelease: bool)

  /** How a run ends. */
  datatype RunOutcome =
    | ReleasesUnprocessable           // several releases, and the first tag does not parse
    | CurrentVersionUnprocessable     // a single release whose tag does not parse
    | FileNotUpdated(file: string)    // the update of this version file failed
    | ReleaseCreated(tagName: string) // every file was written and the release was requested

  // ---------------------------------------------------------------- the version file

  /** The four lines of a version file, with the given values in place. */
  function Lines(major: string, minor: string, patch: string, hotfix: string): string {
    "MAJOR=" + (major + ("\nMINOR=" + (minor + ("\nPATCH=" + (patch + ("\nHOTFIX=" + hotfix))))))
  }

  /**
   * The body of a version file before its placeholders are filled in:
   * `MAJOR=<MAJOR_VERSION>\nMINOR=<MINOR_VERSION>\nPATCH=<PATCH_VERSION>\nHOTFIX=<HOTFIX_VERSION>`.
   */
  const VersionTemplate: string :=
    Lines("<MAJOR_VERSION>", "<MINOR_VERSION>", "<PATCH_VERSION>", "<HOTFIX_VERSION>")

  /** `${hotfix}`: the number, or `null` when it is absent. */
  function HotfixText(h: Option<nat>): string {
    match h
    case None => "null"
    case Some(n) => NatToString(n)
  }

  /** `parseInt` of the written hotfix text gives the hotfix back: `null` reads as NaN. */
  lemma HotfixTextReadsBack(h: Option<nat>)
    ensures ParseInt(HotfixText(h)) == h
  {
    if h.Some? {
      ParseNumber(h.value);
    }
  }

  /**
   * The template with the four placeholders filled in by the four replacements in turn.
   * The body reads exactly `MAJOR=a\nMINOR=b\nPATCH=c\nHOTFIX=d`: each replacement hits
   * its own placeholder, since no rendered number holds a `<`.
   */
  function VersionFileContent(v: Version): (body: string)
    ensures body == Lines(NatToString(v.major), NatToString(v.minor), NatToString(v.patch), HotfixText(v.hotfix))
  {
    var m, n, p, h := NatToString(v.major), NatToString(v.minor), NatToString(v.patch), HotfixText(v.hotfix);
    NatToStringHasNo(v.major, '<');
    NatToStringHasNo(v.minor, '<');
    NatToStringHasNo(v.patch, '<');
    FillMajor(m, "<MINOR_VERSION>", "<PATCH_VERSION>", "<HOTFIX_VERSION>");
    FillMinor(m, n, "<PATCH_VERSION>", "<HOTFIX_VERSION>");
    FillPatch(m, n, p, "<HOTFIX_VERSION>");
    FillHotfix(m, n, p, h);
    var s := ReplaceFirst(VersionTemplate, "<MAJOR_VERSION>", m);
    var s := ReplaceFirst(s, "<MINOR_VERSION>", n);
    var s := ReplaceFirst(s, "<PATCH_VERSION>", p);
    ReplaceFirst(s, "<HOTFIX_VERSION>", h)
  }

  /** Filling the major placeholder. */
  lemma FillMajor(m: string, n: string, p: string, h: string)
    ensures ReplaceFirst(Lines("<MAJOR_VERSION>", n, p, h), "<MAJOR_VERSION>", m) == Lines(m, n, p, h)
  {
    var tail := "\nMINOR=" + (n + ("\nPATCH=" + (p + ("\nHOTFIX=" + h))));
    ReplaceFirstSkip("MAJOR=", "<MAJOR_VERSION>" + tail, "<MAJOR_VERSION>", m);
    ReplaceFirstHead("<MAJOR_VERSION>", tail, m);
  }

  /** Filling the minor placeholder once the major number stands. */
  lemma FillMinor(m: string, n: string, p: string, h: string)
    requires '<' !in m
    ensures ReplaceFirst(Lines(m, "<MINOR_VERSION>", p, h), "<MINOR_VERSION>", n) == Lines(m, n, p, h)
  {
    var pat := "<MINOR_VERSION>";
    var tail := "\nPATCH=" + (p + ("\nHOTFIX=" + h));
    ReplaceFirstSkip("MAJOR=", m + ("\nMINOR=" + (pat + tail)), pat, n);
    ReplaceFirstSkip(m, "\nMINOR=" + (pat + tail), pat, n);
    ReplaceFirstSkip("\nMINOR=", pat + tail, pat, n);
    ReplaceFirstHead(pat, tail, n);
  }

  /** Filling the patch placeholder once major and minor stand. */
  lemma FillPatch(m: string, n: string, p: string, h: string)
    requires '<' !in m && '<' !in n
    ensures ReplaceFirst(Lines(m, n, "<PATCH_VERSION>", h), "<PATCH_VERSION>", p) == Lines(m, n, p, h)
  {
    var pat := "<PATCH_VERSION>";
    var tail := "\nHOTFIX=" + h;
    var t3 := "\nPATCH=" + (pat + tail);
    var t2 := n + t3;
    var t1 := "\nMINOR=" + t2;
    ReplaceFirstSkip("MAJOR=", m + t1, pat, p);
    ReplaceFirstSkip(m, t1, pat, p);
    ReplaceFirstSkip("\nMINOR=", t2, pat, p);
    ReplaceFirstSkip(n, t3, pat, p);
    ReplaceFirstSkip("\nPATCH=", pat + tail, pat, p);
    ReplaceFirstHead(pat, tail, p);
  }

  /** Filling the hotfix placeholder once the other three stand. */
  lemma FillHotfix(m: string, n: string, p: string, h: string)
    requires '<' !in m && '<' !in n && '<' !in p
    ensures ReplaceFirst(Lines(m, n, p, "<HOTFIX_VERSION>"), "<HOTFIX_VERSION>", h) == Lines(m, n, p, h)
  {
    var pat := "<HOTFIX_VERSION>";
    var t5 := "\nHOTFIX=" + pat;
    var t4 := p + t5;
    var t3 := "\nPATCH=" + t4;
    var t2 := n + t3;
    var t1 := "\nMINOR=" + t2;
    ReplaceFirstSkip("MAJOR=", m + t1, pat, h);
    ReplaceFirstSkip(m, t1, pat, h);
    ReplaceFirstSkip("\nMINOR=", t2, pat, h);
    ReplaceFirstSkip(n, t3, pat, h);
    ReplaceFirstSkip("\nPATCH=", t4, pat, h);
    ReplaceFirstSkip(p, t5, pat, h);
    ReplaceFirstSkip("\nHOTFIX=", pat, pat, h);
    ReplaceFirstHead(pat, "", h);
    assert pat + "" == pat && h + "" == h;
  }

  // ---------------------------------------------------------------- choosing the versions

  /** The branch type a run bumps by: the merged branch's, and `chore` when it has none. */
  function MergedBranchType(headRef: string): (t: string)
    ensures IsBranchType(t)
    ensures GetBranchType(headRef).None? ==> t == "chore"
    ensures GetBranchType(headRef).Some? ==> t == FirstSegment(headRef)
  {
    GetBranchType(headRef).GetOr("chore")
  }

  /**
   * The greatest parsable tag, starting from `seed` and going through `tags` in order;
   * a tag replaces the maximum so far only when it compares greater.
   */
  function MaxOf(seed: Version, tags: seq<string>): (r: Version)
    ensures !Less(r, seed)
    ensures tags != [] && GetVersion(tags[|tags| - 1]).Some? ==> !Less(r, GetVersion(tags[|tags| - 1]).value)
    decreases |tags|
  {
    if tags == [] then seed
    else
      var m := MaxOf(seed, tags[..|tags| - 1]);
      var x := GetVersion(tags[|tags| - 1]);
      if x.Some? && CompareVersions(m, x.value) == 1 then
        AtLeastTransitive(x.value, m, seed);
        x.value
      else m
  }

  /** The `for` over the releases: the running maximum, as `MaxOf` describes it. */
  method SelectMaxRelease(seed: Version, tags: seq<string>) returns (maxVersion: Version)
    ensures maxVersion == MaxOf(seed, tags)
  {
    maxVersion := seed;
    for i := 0 to |tags|
      invariant maxVersion == MaxOf(seed, tags[..i])
    {
      var xVersion := GetVersion(tags[i]);
      if xVersion != None {
        var compare := CompareVersions(maxVersion, xVersion.value);
        if compare == 1 {
          maxVersion := xVersion.value;
        }
      }
      assert tags[..i + 1][..i] == tags[..i];
    }
    assert tags[..|tags|] == tags;
  }

  /** `v` is at least as great as the version of every parsable tag. */
  ghost predicate AtLeastAll(v: Version, tags: seq<string>) {
    forall i | 0 <= i < |tags| :: GetVersion(tags[i]).Some? ==> !Less(v, GetVersion(tags[i]).value)
  }

  /** `v` is the version of one of the tags. */
  ghost predicate IsTagVersion(v: Version, tags: seq<string>) {
    exists i | 0 <= i < |tags| :: GetVersion(tags[i]) == Some(v)
  }

  /** "Not less" is transitive. */
  lemma AtLeastTransitive(a: Version, b: Version, c: Version)
    requires !Less(a, b) && !Less(b, c)
    ensures !Less(a, c)
  {
    LessTotal(a, b);
    LessTotal(b, c);
    if Less(a, c) {
      LessTotal(a, c);
      if a != b {
        LessTransitive(b, a, c);
      }
    }
  }

  /** The maximum is at least the seed and at least every parsable tag. */
  lemma {:induction false} MaxOfIsUpperBound(seed: Version, tags: seq<string>)
    ensures !Less(MaxOf(seed, tags), seed) && AtLeastAll(MaxOf(seed, tags), tags)
    decreases |tags|
  {
    if tags != [] {
      var init := tags[..|tags| - 1];
      var m := MaxOf(seed, init);
      var x := GetVersion(tags[|tags| - 1]);
      var r := MaxOf(seed, tags);
      MaxOfIsUpperBound(seed, init);
      assert !Less(r, m) by {
        if x.Some? && CompareVersions(m, x.value) == 1 {
          LessTotal(m, x.value);
        }
      }
      AtLeastTransitive(r, m, seed);
      forall i | 0 <= i < |tags| && GetVersion(tags[i]).Some?
        ensures !Less(r, GetVersion(tags[i]).value)
      {
        if i < |tags| - 1 {
          assert init[i] == tags[i];
          AtLeastTransitive(r, m, GetVersion(tags[i]).value);
        } else {
          LessTotal(m, x.value);
        }
      }
    }
  }

  /** The maximum is the seed or the version of one of the tags. */
  lemma {:induction false} MaxOfIsAttained(seed: Version, tags: seq<string>)
    ensures MaxOf(seed, tags) == seed || IsTagVersion(MaxOf(seed, tags), tags)
    decreases |tags|
  {
    if tags != [] {
      var init := tags[..|tags| - 1];
      var m := MaxOf(seed, init);
      var x := GetVersion(tags[|tags| - 1]);
      MaxOfIsAttained(seed, init);
      if x.Some? && CompareVersions(m, x.value) == 1 {
        assert GetVersion(tags[|tags| - 1]) == Some(MaxOf(seed, tags));
      } else if m != seed {
        var i :| 0 <= i < |init| && GetVersion(init[i]) == Some(m);
        assert tags[i] == init[i];
      }
    }
  }

  /** Where reading the current version leads: a stop, or the version to bump. */
  datatype Selection = Stop(outcome: RunOutcome) | Current(version: Version)

  /**
   * The current version, from the release list (None: listing failed). No release, or
   * a failed listing, gives 0.0.0; one release gives its parse; several give the
   * greatest parsable tag, provided the first one parses.
   */
  function SelectCurrent(releases: Option<seq<string>>): (s: Selection)
    ensures s.Stop? <==> releases.Some? && releases.value != [] && GetVersion(releases.value[0]).None?
    ensures s.Stop? ==> (s.outcome == CurrentVersionUnprocessable <==> |releases.value| == 1)
    ensures s.Stop? ==> s.outcome == CurrentVersionUnprocessable || s.outcome == ReleasesUnprocessable
    ensures s.Current? && releases.Some? && releases.value != [] ==>
      GetVersion(releases.value[0]).Some? && !Less(s.version, GetVersion(releases.value[0]).value)
  {
    match releases
    case None => Current(Initial)
    case Some(tags) =>
      if |tags| == 0 then Current(Initial)
      else if |tags| == 1 then
        (if GetVersion(tags[0]).None? then Stop(CurrentVersionUnprocessable) else Current(GetVersion(tags[0]).value))
      else if GetVersion(tags[0]).None? then Stop(ReleasesUnprocessable)
      else Current(MaxOf(GetVersion(tags[0]).value, tags))
  }

  /** The tag `0.0.0` the run parses when there is no release. */
  lemma InitialTag()
    ensures GetVersion("0.0.0") == Some(Initial)
  {
    var zero := "0";
    var tail := zero + ['.'] + zero;
    SplitSingle(zero, '.');
    SplitAfterSep(zero, '.', zero);
    SplitAfterSep(zero, '.', tail);
    assert zero + ['.'] + tail == "0.0.0";
    ParseNumber(0);
  }

  /** The release-list part of `_run`: what the current version is, or why the run stops. */
  method ReadCurrentVersion(releases: Option<seq<string>>) returns (selection: Selection)
    ensures selection == SelectCurrent(releases)
  {
    var currentVersion: Option<Version>;
    InitialTag();
    match releases {
      case None =>
        currentVersion := GetVersion("0.0.0");
      case Some(tags) =>
        if |tags| == 0 {
          currentVersion := GetVersion("0.0.0");
        } else if |tags| == 1 {
          currentVersion := GetVersion(tags[0]);
        } else {
          var maxVersion := GetVersion(tags[0]);
          if maxVersion == None {
            return Stop(ReleasesUnprocessable);
          }
          var selected := SelectMaxRelease(maxVersion.value, tags);
          currentVersion := Some(selected);
          assert SelectCurrent(releases) == Current(selected);
        }
    }
    assert currentVersion.None? ==> SelectCurrent(releases) == Stop(CurrentVersionUnprocessable);
    assert currentVersion.Some? ==> SelectCurrent(releases) == Current(currentVersion.value);
    if currentVersion == None {
      return Stop(CurrentVersionUnprocessable);
    }
    return Current(currentVersion.value);
  }

  /** No release, or a failed listing: the run starts from 0.0.0 without a hotfix number. */
  lemma NoReleaseStartsAtZero(releases: Option<seq<string>>)
    requires releases.None? || releases.value == []
    ensures SelectCurrent(releases) == Current(Version(0, 0, 0, None))
  {
  }

  /** A single release: its tag is the current version, and an unparsable one stops the run. */
  lemma SingleRelease(tag: string)
    ensures SelectCurrent(Some([tag])) == if GetVersion(tag).None? then Stop(CurrentVersionUnprocessable)
                                          else Current(GetVersion(tag).value)
  {
  }

  /**
   * Several releases: an unparsable first tag stops the run; otherwise the current
   * version is the version of one of the tags and no parsable tag is greater.
   */
  lemma SeveralReleases(tags: seq<string>)
    requires |tags| >= 2
    ensures GetVersion(tags[0]).None? ==> SelectCurrent(Some(tags)) == Stop(ReleasesUnprocessable)
    ensures GetVersion(tags[0]).Some? ==>
      var c := SelectCurrent(Some(tags));
      c.Current? && IsTagVersion(c.version, tags) && AtLeastAll(c.version, tags)
  {
    if GetVersion(tags[0]).Some? {
      var seed := GetVersion(tags[0]).value;
      MaxOfIsUpperBound(seed, tags);
      MaxOfIsAttained(seed, tags);
    }
  }

  // ---------------------------------------------------------------- messages

  /** `update_msg`: `release: bump version <str>`, with the skip marker when skip_ci is set. */
  function UpdateMessage(input: Input, str: string): string {
    "release: bump version " + str + (if input.skipCi then " " + input.skipCiCommitString else "")
  }

  /** The message of a file commit: the update message, with the skip marker once more. */
  function CommitMessage(input: Input, updateMsg: string): string {
    updateMsg + (if input.skipCi then " " + input.skipCiCommitString else "")
  }

  /** With skip_ci set, a file commit carries the skip marker twice. */
  lemma SkipMarkerTwice(input: Input, str: string)
    requires input.skipCi
    ensures CommitMessage(input, UpdateMessage(input, str))
         == "release: bump version " + str + " " + input.skipCiCommitString + " " + input.skipCiCommitString
  {
  }

  /** Without skip_ci, a file commit message is the bare update message. */
  lemma NoSkipMarker(input: Input, str: string)
    requires !input.skipCi
    ensures CommitMessage(input, UpdateMessage(input, str)) == "release: bump version " + str
  {
    assert "release: bump version " + str + "" == "release: bump version " + str;
  }

  // ---------------------------------------------------------------- the file updates

  /** A file update goes through: the blob was created and the put succeeded. */
  predicate Succeeds(o: FileOutcome) {
    o.blobSha.Some? && o.putOk
  }

  /**
   * The requests of one file update: read the current content, create the blob, and,
   * when the blob exists, put the new content with the previous sha if there was one.
   */
  function FileRequests(file: string, content: string, msg: string, o: FileOutcome): seq<Request> {
    [GetContent(file), CreateBlob(content)]
    + (if o.blobSha.Some? then [PutContent(file, msg, content, o.prevSha)] else [])
  }

  /** The index of the first failed file update, or the number of updates if none fails. */
  function FirstFailure(os: seq<FileOutcome>): (k: nat)
    ensures k <= |os|
    ensures forall j | 0 <= j < k :: Succeeds(os[j])
    ensures k < |os| ==> !Succeeds(os[k])
  {
    if os == [] || !Succeeds(os[0]) then 0 else 1 + FirstFailure(os[1..])
  }

  /** The requests of the first `n` file updates, in list order. */
  function FileRequestsUpTo(files: seq<string>, os: seq<FileOutcome>, n: nat, content: string, msg: string): seq<Request>
    requires n <= |files| && n <= |os|
  {
    if n == 0 then []
    else FileRequestsUpTo(files, os, n - 1, content, msg) + FileRequests(files[n - 1], content, msg, os[n - 1])
  }

  /** The store once the first `n` files hold `content`. */
  function StoreAfter(store: map<string, string>, files: seq<string>, n: nat, content: string): map<string, string>
    requires n <= |files|
  {
    if n == 0 then store else StoreAfter(store, files, n - 1, content)[files[n - 1] := content]
  }

  /** Once the first `n` files are written, they hold `content` and every other path is as it was. */
  lemma {:induction false} StoreAfterContents(store: map<string, string>, files: seq<string>, n: nat, content: string)
    requires n <= |files|
    ensures var r := StoreAfter(store, files, n, content);
      && (forall j | 0 <= j < n :: files[j] in r && r[files[j]] == content)
      && (forall q | q !in files[..n] :: (q in r <==> q in store) && (q in store ==> r[q] == store[q]))
    decreases n
  {
    if n > 0 {
      StoreAfterContents(store, files, n - 1, content);
      forall q | q !in files[..n]
        ensures q !in files[..n - 1] && q != files[n - 1]
      {
        assert files[..n] == files[..n - 1] + [files[n - 1]];
      }
    }
  }

  /**
   * A failed read of the previous sha stops nothing: once the blob exists the put is
   * still sent, without a sha. The read's outcome only changes the sha the put carries;
   * the remote's answer to the put decides success.
   */
  lemma MissingShaStillPuts(file: string, content: string, msg: string, o: FileOutcome)
    requires o.prevSha.None? && o.blobSha.Some?
    ensures var rs := FileRequests(file, content, msg, o);
      && |rs| == 3 && rs[2] == PutContent(file, msg, content, None)
      && forall sha: Option<string> ::
           FileRequests(file, content, msg, o.(prevSha := sha)) == rs[..2] + [PutContent(file, msg, content, sha)]
  {
  }

  /** One more file update adds its requests at the end. */
  lemma FileRequestsUpToStep(files: seq<string>, os: seq<FileOutcome>, i: nat, content: string, msg: string)
    requires i < |files| && i < |os|
    ensures FileRequestsUpTo(files, os, i + 1, content, msg)
         == FileRequestsUpTo(files, os, i, content, msg) + FileRequests(files[i], content, msg, os[i])
  {
  }

  /** One more file written adds it to the store. */
  lemma StoreAfterStep(store: map<string, string>, files: seq<string>, i: nat, content: string)
    requires i < |files|
    ensures StoreAfter(store, files, i + 1, content) == StoreAfter(store, files, i, content)[files[i] := content]
  {
  }

  /** The number of files a run works on before it stops: up to and including the first failure. */
  function Attempted(files: seq<string>, os: seq<FileOutcome>): (n: nat)
    requires |os| == |files|
    ensures n <= |files|
  {
    var k := FirstFailure(os);
    if k < |files| then k + 1 else |files|
  }

  // ---------------------------------------------------------------- a whole run

  /** The version a run bumps `current` to: by the merged branch's type, the classic way. */
  function Bumped(input: Input, current: Version): (nv: Version)
    ensures nv.major == current.major && Less(current, nv) && nv.hotfix.Some?
  {
    GetNewVersion(current, MergedBranchType(input.headRef), false).value
  }

  /** The version a run writes and tags, when it gets that far. */
  function NewVersion(input: Input, releases: Option<seq<string>>): Option<Version> {
    match SelectCurrent(releases)
    case Stop(_) => None
    case Current(c) => Some(Bumped(input, c))
  }

  /** The message of the file commits of a run that bumps to `nv`. */
  function BumpMessage(input: Input, nv: Version): string {
    CommitMessage(input, UpdateMessage(input, VersionTypeToString(nv)))
  }

  /**
   * The requests of the file loop and what follows it: the updates up to the first
   * failure, then `release` when none failed.
   */
  function FileRun(files: seq<string>, os: seq<FileOutcome>, content: string, msg: string, release: Request): seq<Request>
    requires |os| == |files|
  {
    var updates := FileRequestsUpTo(files, os, Attempted(files, os), content, msg);
    if FirstFailure(os) < |files| then updates else updates + [release]
  }

  /** The release request for the version string `str`: tag `str`, name `v<str>`, a pre-release. */
  function ReleaseRequest(str: string): Request {
    CreateRelease(str, "v" + str, true)
  }

  /** The requests of a run once it has bumped to `nv`: the file updates, then the release. */
  function BumpRequests(input: Input, nv: Version, os: seq<FileOutcome>): seq<Request>
    requires |os| == |input.versionFiles|
  {
    FileRun(input.versionFiles, os, VersionFileContent(nv), BumpMessage(input, nv), ReleaseRequest(VersionTypeToString(nv)))
  }

  /** How a run ends once it has bumped to `nv`. */
  function BumpResult(input: Input, nv: Version, os: seq<FileOutcome>): RunOutcome
    requires |os| == |input.versionFiles|
  {
    var k := FirstFailure(os);
    if k < |input.versionFiles| then FileNotUpdated(input.versionFiles[k]) else ReleaseCreated(VersionTypeToString(nv))
  }

  /** How a run ends, from what reading the current version gave. */
  function SelectionResult(input: Input, selection: Selection, os: seq<FileOutcome>): RunOutcome
    requires |os| == |input.versionFiles|
  {
    match selection
    case Stop(outcome) => outcome
    case Current(c) => BumpResult(input, Bumped(input, c), os)
  }

  /** The requests a run sends after the release list, from what reading the current version gave. */
  function SelectionRequests(input: Input, selection: Selection, os: seq<FileOutcome>): seq<Request>
    requires |os| == |input.versionFiles|
  {
    match selection
    case Stop(_) => []
    case Current(c) => BumpRequests(input, Bumped(input, c), os)
  }

  /** The store after a run, from what reading the current version gave. */
  function SelectionStore(store: map<string, string>, input: Input, selection: Selection, os: seq<FileOutcome>): map<string, string>
    requires |os| == |input.versionFiles|
  {
    match selection
    case Stop(_) => store
    case Current(c) => StoreAfter(store, input.versionFiles, FirstFailure(os), VersionFileContent(Bumped(input, c)))
  }

  /** How a run ends. */
  function RunResult(input: Input, releases: Option<seq<string>>, os: seq<FileOutcome>): RunOutcome
    requires |os| == |input.versionFiles|
  {
    SelectionResult(input, SelectCurrent(releases), os)
  }

  /** Every request a run sends, in order. */
  function RunRequests(input: Input, releases: Option<seq<string>>, os: seq<FileOutcome>): seq<Request>
    requires |os| == |input.versionFiles|
  {
    [GetRepository, ListReleases] + SelectionRequests(input, SelectCurrent(releases), os)
  }

  /** The store after a run. */
  function RunStore(store: map<string, string>, input: Input, releases: Option<seq<string>>, os: seq<FileOutcome>): map<string, string>
    requires |os| == |input.versionFiles|
  {
    SelectionStore(store, input, SelectCurrent(releases), os)
  }

  // ---------------------------------------------------------------- the action

  class ActionManager {
    const input: Input
    /** The repository's files, path to content. */
    var store: map<string, string>
    /** Every request sent to the remote so far, in order. */
    var requests: seq<Request>

    constructor(input: Input, store: map<string, string>)
      ensures this.input == input && this.store == store && requests == []
    {
      this.input := input;
      this.store := store;
      requests := [];
    }

    /**
     * `updateVersion`: render the file, read its previous sha, create the blob and put
     * the content. A failed read only means the put goes without a sha; a failed blob
     * or put returns false and leaves the file as it was.
     */
    method UpdateVersion(file: string, newVersion: Version, updateMsg: string, outcome: FileOutcome)
      returns (updated: bool)
      modifies this
      ensures updated == Succeeds(outcome)
      ensures requests == old(requests)
        + FileRequests(file, VersionFileContent(newVersion), CommitMessage(input, updateMsg), outcome)
      ensures store == if updated then old(store)[file := VersionFileContent(newVersion)] else old(store)
    {
      var newVersionContent := ReplaceFirst(VersionTemplate, "<MAJOR_VERSION>", NatToString(newVersion.major));
      newVersionContent := ReplaceFirst(newVersionContent, "<MINOR_VERSION>", NatToString(newVersion.minor));
      newVersionContent := ReplaceFirst(newVersionContent, "<PATCH_VERSION>", NatToString(newVersion.patch));
      newVersionContent := ReplaceFirst(newVersionContent, "<HOTFIX_VERSION>", HotfixText(newVersion.hotfix));
      assert newVersionContent == VersionFileContent(newVersion);

      var msg := updateMsg;
      if input.skipCi {
        msg := msg + " " + input.skipCiCommitString;
      }

      assert msg == CommitMessage(input, updateMsg);
      ghost var rs := FileRequests(file, newVersionContent, msg, outcome);
      requests := requests + [GetContent(file)];
      var prevBlobSha := outcome.prevSha;

      requests := requests + [CreateBlob(newVersionContent)];
      var newContentBlobSha := outcome.blobSha;
      AppendAssoc(old(requests), [GetContent(file)], [CreateBlob(newVersionContent)]);
      assert rs[..2] == [GetContent(file)] + [CreateBlob(newVersionContent)];

      if newContentBlobSha == None {
        assert rs == rs[..2];
        return false;
      }

      var put := [PutContent(file, msg, newVersionContent, prevBlobSha)];
      requests := requests + put;
      assert rs == rs[..2] + put;
      AppendAssoc(old(requests), rs[..2], put);
      if !outcome.putOk {
        return false;
      }
      store := store[file := newVersionContent];
      return true;
    }

    /**
     * The `for` over the version files in `_run`: update each in order and stop at the
     * first that fails, returning its index.
     */
    method UpdateVersionFiles(newVersion: Version, updateMsg: string, outcomes: seq<FileOutcome>)
      returns (failed: Option<nat>)
      requires |outcomes| == |input.versionFiles|
      modifies this
      ensures failed == if FirstFailure(outcomes) < |input.versionFiles| then Some(FirstFailure(outcomes)) else None
      ensures requests == old(requests) + FileRequestsUpTo(input.versionFiles, outcomes,
        Attempted(input.versionFiles, outcomes), VersionFileContent(newVersion), CommitMessage(input, updateMsg))
      ensures store == StoreAfter(old(store), input.versionFiles, FirstFailure(outcomes), VersionFileContent(newVersion))
    {
      ghost var content := VersionFileContent(newVersion);
      ghost var msg := CommitMessage(input, updateMsg);
      var files := input.versionFiles;
      for i := 0 to |files|
        invariant FirstFailure(outcomes) >= i
        invariant requests == old(requests) + FileRequestsUpTo(files, outcomes, i, content, msg)
        invariant store == StoreAfter(old(store), files, i, content)
      {
        ghost var done := FileRequestsUpTo(files, outcomes, i, content, msg);
        ghost var next := FileRequests(files[i], content, msg, outcomes[i]);
        var updated := UpdateVersion(files[i], newVersion, updateMsg, outcomes[i]);
        assert requests == old(requests) + done + next;
        FileRequestsUpToStep(files, outcomes, i, content, msg);
        AppendAssoc(old(requests), done, next);
        if !updated {
          return Some(i);
        }
        StoreAfterStep(old(store), files, i, content);
      }
      return None;
    }

    /**
     * `_run`: settle the branch type, read the current version from the release list,
     * and go on from there.
     */
    method Run(releases: Option<seq<string>>, outcomes: seq<FileOutcome>) returns (result: RunOutcome)
      requires |outcomes| == |input.versionFiles|
      modifies this
      ensures result == RunResult(input, releases, outcomes)
      ensures requests == old(requests) + RunRequests(input, releases, outcomes)
      ensures store == RunStore(old(store), input, releases, outcomes)
    {
      requests := requests + [GetRepository];
      var branchType := MergedBranchType(input.headRef);
      requests := requests + [ListReleases];
      assert requests == old(requests) + [GetRepository, ListReleases];
      var selection := ReadCurrentVersion(releases);
      result := Proceed(selection, branchType, outcomes);
      AppendAssoc(old(requests), [GetRepository, ListReleases], SelectionRequests(input, selection, outcomes));
    }

    /**
     * The middle of `_run`: stop when the current version could not be read, otherwise
     * bump it by the branch type and release the new version.
     */
    method Proceed(selection: Selection, branchType: string, outcomes: seq<FileOutcome>) returns (result: RunOutcome)
      requires |outcomes| == |input.versionFiles|
      requires branchType == MergedBranchType(input.headRef)
      modifies this
      ensures result == SelectionResult(input, selection, outcomes)
      ensures requests == old(requests) + SelectionRequests(input, selection, outcomes)
      ensures store == SelectionStore(old(store), input, selection, outcomes)
    {
      if selection.Stop? {
        assert requests == old(requests) + [];
        return selection.outcome;
      }
      var newVersion := GetNewVersion(selection.version, branchType, false).value;
      result := Release(newVersion, outcomes);
    }

    /**
     * The second half of `_run`: write every version file for `newVersion` and, when
     * all of them went through, request the release.
     */
    method Release(newVersion: Version, outcomes: seq<FileOutcome>) returns (result: RunOutcome)
      requires |outcomes| == |input.versionFiles|
      modifies this
      ensures result == BumpResult(input, newVersion, outcomes)
      ensures requests == old(requests) + BumpRequests(input, newVersion, outcomes)
      ensures store == StoreAfter(old(store), input.versionFiles, FirstFailure(outcomes), VersionFileContent(newVersion))
    {
      var strNewVersion := VersionTypeToString(newVersion);
      var updateMsg := "release: bump version " + strNewVersion;
      if input.skipCi {
        updateMsg := updateMsg + " " + input.skipCiCommitString;
      }
      assert updateMsg == UpdateMessage(input, strNewVersion);

      var failed := UpdateVersionFiles(newVersion, updateMsg, outcomes);
      ghost var updates := FileRequestsUpTo(input.versionFiles, outcomes, Attempted(input.versionFiles, outcomes),
                                            VersionFileContent(newVersion), BumpMessage(input, newVersion));
      if failed != None {
        return FileNotUpdated(input.versionFiles[failed.value]);
      }

      var release := [ReleaseRequest(strNewVersion)];
      requests := requests + release;
      AppendAssoc(old(requests), updates, release);
      return ReleaseCreated(strNewVersion);
    }
  }

  // ---------------------------------------------------------------- properties of a run

  /** The paths put, in the order of the requests. */
  function PutPaths(rs: seq<Request>): seq<string> {
    if rs == [] then []
    else (if rs[0].PutContent? then [rs[0].path] else []) + PutPaths(rs[1..])
  }

  lemma {:induction false} PutPathsConcat(a: seq<Request>, b: seq<Request>)
    ensures PutPaths(a + b) == PutPaths(a) + PutPaths(b)
    decreases |a|
  {
    if a == [] {
      assert a + b == b;
    } else {
      var c := a + b;
      assert c[0] == a[0] && c[1..] == a[1..] + b;
      PutPathsConcat(a[1..], b);
    }
  }

  /** One file update puts its file once, and only when the blob was created. */
  lemma PutPathsOfFile(file: string, content: string, msg: string, o: FileOutcome)
    ensures PutPaths(FileRequests(file, content, msg, o)) == if o.blobSha.Some? then [file] else []
  {
    var rs := FileRequests(file, content, msg, o);
    assert PutPaths(rs) == PutPaths(rs[1..]);
    assert rs[1..][1..] == rs[2..];
    assert PutPaths(rs[1..]) == PutPaths(rs[2..]);
    if o.blobSha.Some? {
      assert rs[2..][1..] == [];
      assert PutPaths(rs[2..]) == [file] + PutPaths([]);
    } else {
      assert rs[2..] == [];
    }
  }

  /** While the updates succeed, the files are put one after another in list order. */
  lemma {:induction false} PutsInListOrder(files: seq<string>, os: seq<FileOutcome>, n: nat, content: string, msg: string)
    requires n <= |files| && n <= |os|
    requires forall j | 0 <= j < n :: Succeeds(os[j])
    ensures PutPaths(FileRequestsUpTo(files, os, n, content, msg)) == files[..n]
    decreases n
  {
    if n > 0 {
      PutsInListOrder(files, os, n - 1, content, msg);
      PutPathsConcat(FileRequestsUpTo(files, os, n - 1, content, msg), FileRequests(files[n - 1], content, msg, os[n - 1]));
      PutPathsOfFile(files[n - 1], content, msg, os[n - 1]);
      assert files[..n] == files[..n - 1] + [files[n - 1]];
    }
  }

  /** The paths of the content reads among `rs`, in order. */
  function ReadPaths(rs: seq<Request>): seq<string> {
    if rs == [] then []
    else (if rs[0].GetContent? then [rs[0].path] else []) + ReadPaths(rs[1..])
  }

  lemma {:induction false} ReadPathsConcat(a: seq<Request>, b: seq<Request>)
    ensures ReadPaths(a + b) == ReadPaths(a) + ReadPaths(b)
    decreases |a|
  {
    if a == [] {
      assert a + b == b;
    } else {
      var c := a + b;
      assert c[0] == a[0] && c[1..] == a[1..] + b;
      ReadPathsConcat(a[1..], b);
    }
  }

  /** One file update reads its file once, whatever GitHub answers. */
  lemma ReadPathsOfFile(file: string, content: string, msg: string, o: FileOutcome)
    ensures ReadPaths(FileRequests(file, content, msg, o)) == [file]
  {
    var rs := FileRequests(file, content, msg, o);
    assert rs[1..][1..] == rs[2..];
    assert ReadPaths(rs[1..]) == ReadPaths(rs[2..]);
    if o.blobSha.Some? {
      assert rs[2..][1..] == [];
      assert ReadPaths(rs[2..]) == ReadPaths([]);
    } else {
      assert rs[2..] == [];
    }
  }

  /** The first `n` updates read the first `n` files, one each, in list order. */
  lemma {:induction false} ReadsInListOrder(files: seq<string>, os: seq<FileOutcome>, n: nat, content: string, msg: string)
    requires n <= |files| && n <= |os|
    ensures ReadPaths(FileRequestsUpTo(files, os, n, content, msg)) == files[..n]
    decreases n
  {
    if n > 0 {
      ReadsInListOrder(files, os, n - 1, content, msg);
      ReadPathsConcat(FileRequestsUpTo(files, os, n - 1, content, msg), FileRequests(files[n - 1], content, msg, os[n - 1]));
      ReadPathsOfFile(files[n - 1], content, msg, os[n - 1]);
      assert files[..n] == files[..n - 1] + [files[n - 1]];
    }
  }

  /**
   * Up to and including the first failed update, every earlier file is put, and the
   * failed one is put exactly when its blob was created.
   */
  lemma PutsUpToFailure(files: seq<string>, os: seq<FileOutcome>, content: string, msg: string)
    requires |os| == |files|
    requires FirstFailure(os) < |files|
    ensures var k := FirstFailure(os);
      PutPaths(FileRequestsUpTo(files, os, k + 1, content, msg))
        == files[..k] + (if os[k].blobSha.Some? then [files[k]] else [])
  {
    var k := FirstFailure(os);
    PutsInListOrder(files, os, k, content, msg);
    PutPathsConcat(FileRequestsUpTo(files, os, k, content, msg), FileRequests(files[k], content, msg, os[k]));
    PutPathsOfFile(files[k], content, msg, os[k]);
  }

  /** A file update never creates a release. */
  lemma {:induction false} NoReleaseInUpdates(files: seq<string>, os: seq<FileOutcome>, n: nat, content: string, msg: string)
    requires n <= |files| && n <= |os|
    ensures forall r | r in FileRequestsUpTo(files, os, n, content, msg) :: !r.CreateRelease?
    decreases n
  {
    if n > 0 {
      NoReleaseInUpdates(files, os, n - 1, content, msg);
    }
  }

  /** The files read by the first `n` updates are among the first `n` files. */
  lemma {:induction false} ReadsOnlyAttempted(files: seq<string>, os: seq<FileOutcome>, n: nat, content: string, msg: string, f: string)
    requires n <= |files| && n <= |os|
    requires GetContent(f) in FileRequestsUpTo(files, os, n, content, msg)
    ensures f in files[..n]
    decreases n
  {
    var prev := FileRequestsUpTo(files, os, n - 1, content, msg);
    var rs := FileRequests(files[n - 1], content, msg, os[n - 1]);
    assert files[..n] == files[..n - 1] + [files[n - 1]];
    if GetContent(f) in prev {
      ReadsOnlyAttempted(files, os, n - 1, content, msg, f);
    } else {
      assert GetContent(f) in rs;
    }
  }

  /** The updates up to a failed one create no release and read no file past it. */
  lemma UpdatesUpTo(files: seq<string>, os: seq<FileOutcome>, n: nat, content: string, msg: string)
    requires n <= |files| && n <= |os|
    ensures var updates := FileRequestsUpTo(files, os, n, content, msg);
      && (forall r | r in updates :: !r.CreateRelease?)
      && (forall f | GetContent(f) in updates :: f in files[..n])
  {
    NoReleaseInUpdates(files, os, n, content, msg);
    forall f | GetContent(f) in FileRequestsUpTo(files, os, n, content, msg)
      ensures f in files[..n]
    {
      ReadsOnlyAttempted(files, os, n, content, msg, f);
    }
  }

  /**
   * When a file update fails, the file loop ends there: its requests are those of the
   * updates up to the failed one, so it requests no release, reads each file up to the
   * failed one once and no other, and puts the earlier files and, when its blob was
   * created, the failed one.
   */
  lemma FailedUpdateStopsFiles(files: seq<string>, os: seq<FileOutcome>, content: string, msg: string, release: Request)
    requires |os| == |files|
    requires FirstFailure(os) < |files|
    ensures var rs := FileRun(files, os, content, msg, release);
      && (forall r | r in rs :: !r.CreateRelease?)
      && (forall f | GetContent(f) in rs :: f in files[..FirstFailure(os) + 1])
    ensures var rs, k := FileRun(files, os, content, msg, release), FirstFailure(os);
      && rs == FileRequestsUpTo(files, os, k + 1, content, msg)
      && ReadPaths(rs) == files[..k + 1]
      && PutPaths(rs) == files[..k] + (if os[k].blobSha.Some? then [files[k]] else [])
  {
    assert Attempted(files, os) == FirstFailure(os) + 1;
    UpdatesUpTo(files, os, FirstFailure(os) + 1, content, msg);
    ReadsInListOrder(files, os, FirstFailure(os) + 1, content, msg);
    PutsUpToFailure(files, os, content, msg);
  }

  /**
   * When a file update fails, the run ends there naming that file, requests no release,
   * reads the files up to the failed one once each and no other, and puts only the
   * earlier files and, when its blob was created, the failed one.
   */
  lemma FailedUpdateStopsRun(input: Input, nv: Version, os: seq<FileOutcome>)
    requires |os| == |input.versionFiles|
    requires FirstFailure(os) < |input.versionFiles|
    ensures BumpResult(input, nv, os) == FileNotUpdated(input.versionFiles[FirstFailure(os)])
    ensures forall r | r in BumpRequests(input, nv, os) :: !r.CreateRelease?
    ensures forall f | GetContent(f) in BumpRequests(input, nv, os) :: f in input.versionFiles[..FirstFailure(os) + 1]
    ensures var files, k := input.versionFiles, FirstFailure(os);
      && ReadPaths(BumpRequests(input, nv, os)) == files[..k + 1]
      && PutPaths(BumpRequests(input, nv, os)) == files[..k] + (if os[k].blobSha.Some? then [files[k]] else [])
  {
    FailedUpdateStopsFiles(input.versionFiles, os, VersionFileContent(nv), BumpMessage(input, nv),
                           ReleaseRequest(VersionTypeToString(nv)));
  }

  /**
   * A run that gets through every file puts them all in list order and ends by
   * requesting the release `str`, named `v<str>`, as a pre-release.
   */
  lemma SuccessfulRun(input: Input, nv: Version, os: seq<FileOutcome>)
    requires |os| == |input.versionFiles|
    requires FirstFailure(os) == |input.versionFiles|
    ensures var str, rs := VersionTypeToString(nv), BumpRequests(input, nv, os);
      && BumpResult(input, nv, os) == ReleaseCreated(str)
      && rs != [] && rs[|rs| - 1] == CreateRelease(str, "v" + str, true)
      && PutPaths(rs) == input.versionFiles
  {
    var files := input.versionFiles;
    var str := VersionTypeToString(nv);
    var content, msg := VersionFileContent(nv), BumpMessage(input, nv);
    var updates := FileRequestsUpTo(files, os, |files|, content, msg);
    var release := [CreateRelease(str, "v" + str, true)];
    assert BumpRequests(input, nv, os) == updates + release;
    PutsInListOrder(files, os, |files|, content, msg);
    PutPathsConcat(updates, release);
    assert release[1..] == [];
    assert files[..|files|] == files;
  }

  /** The tag of a run that gets to bump parses to a version greater than the current one. */
  lemma RunTagIsGreater(input: Input, releases: Option<seq<string>>)
    requires SelectCurrent(releases).Current?
    ensures var str := VersionTypeToString(NewVersion(input, releases).value);
      GetVersion(str).Some? && Less(SelectCurrent(releases).version, GetVersion(str).value)
  {
    PublishedTagIsGreater(SelectCurrent(releases).version, MergedBranchType(input.headRef), false);
  }

  /** A run that cannot read its current version stops there and sends nothing past the release list. */
  lemma StopLeavesFilesAlone(store: map<string, string>, input: Input, releases: Option<seq<string>>, os: seq<FileOutcome>)
    requires |os| == |input.versionFiles|
    requires SelectCurrent(releases).Stop?
    ensures RunRequests(input, releases, os) == [GetRepository, ListReleases]
    ensures RunStore(store, input, releases, os) == store
    ensures RunResult(input, releases, os) == ReleasesUnprocessable
         || RunResult(input, releases, os) == CurrentVersionUnprocessable
  {
    assert [GetRepository, ListReleases] + [] == [GetRepository, ListReleases];
  }

  /** A merged branch without a recognised type is bumped as a patch. */
  lemma UnknownBranchBumpsPatch(input: Input, releases: Option<seq<string>>)
    requires GetBranchType(input.headRef).None?
    requires SelectCurrent(releases).Current?
    ensures NewVersion(input, releases) == Some(Bumped(input, SelectCurrent(releases).version))
    ensures var c := SelectCurrent(releases).version;
      Bumped(input, c) == Version(c.major, c.minor, c.patch + 1, Some(0))
  {
  }
}
